/** The document API (internal/esserver/write.go) as a state machine over the rows of one index, each
    under its primary key. The store's contract: a search by key sees the latest row, an upsert replaces
    the row under its key whole, an insert into an auto-generated key takes a fresh one. */
module DocumentApi {
  import opened Wrappers
  import opened GoValues
  import opened StoreWrite
  import opened NoopCheck

  type Docs = map<GoValue, WriteRow>

  // What the URL and the body of a call come to. A body that does not decode is no row.
  datatype Call =
    | Index(urlId: string, create: bool, doc: Option<WriteRow>, generated: string, freshKey: GoValue)
    | Update(urlId: string, doc: Option<WriteRow>)

  datatype Outcome = Created | Updated | Noop | Conflict | NotFound | Refused

  datatype Env = Env(meta: Meta, pk: FieldMeta, go: Go, decode: Decoder) {
    // The key is a string or a 64-bit integer; rows keep no null in it. Function outputs are no fields.
    ghost predicate Valid() {
      && meta.Valid() && go.Faithful()
      && pk in meta.fields && pk.primaryKey && !pk.nullable && (pk.native.TString? || pk.native.TInt64?)
      && (forall f :: f in meta.fields ==> f.name !in meta.functionOutputs)
      && forall f :: f in meta.fields && f.autoId ==> f == pk
    }

    // Every row sits under its own key and satisfies the schema.
    ghost predicate WellKept(docs: Docs) {
      forall k :: k in docs ==>
        StoredRow(meta, docs[k], go) && docs[k].Keys == Names() && pk.name in docs[k] && docs[k][pk.name] == k
    }

    function Names(): set<string> {
      set f | f in meta.fields :: f.name
    }
  }

  // ----- document ids -----

  // docNumber, then the conversion to an integer. What is no 64-bit integer agrees with none.
  function DocInteger(v: GoValue, go: Go): Option<int> {
    match NumberOf(v, go)
    case Some(Finite(x)) => Some(if x >= 0.0 then x.Floor else -((-x).Floor))
    case _ => None
  }

  /** resolveDocumentID: the key a document is written under, None for the store to assign one. */
  function ResolveDocumentId(env: Env, row: WriteRow, urlId: string, generated: string): Result<Option<GoValue>> {
    var pk := env.pk;
    if pk.autoId then
      if urlId != "" then Err(Illegal) else Ok(None)
    else if pk.native.TString? then
      var id := if urlId == "" then generated else urlId;
      if pk.name in row && row[pk.name] != Text(id) then Err(Illegal) else Ok(Some(Text(id)))
    else if urlId == "" then Err(Illegal)
    else match env.go.int64(urlId)
      case None => Err(Illegal)
      case Some(n) =>
        if pk.name in row && DocInteger(row[pk.name], env.go) != Some(n) then Err(Illegal) else Ok(Some(Int64(n)))
  }

  // parseDocumentID
  function ParseDocumentId(env: Env, urlId: string): Result<GoValue> {
    if env.pk.native.TString? then Ok(Text(urlId))
    else match env.go.int64(urlId) case None => Err(Illegal) case Some(n) => Ok(Int64(n))
  }

  // ----- what the store does -----

  // The row as stored: a cell for every field, the given key for a generated one.
  function StoredAs(env: Env, row: WriteRow, key: GoValue): (r: WriteRow)
    ensures r.Keys == env.Names()
  {
    map name | name in env.Names() ::
      if env.pk.autoId && name == env.pk.name then key else CellOf(FieldNamed(env.meta.fields, name), row, env.go)
  }

  function FieldNamed(fields: seq<FieldMeta>, name: string): (f: FieldMeta)
    requires exists f :: f in fields && f.name == name
    ensures f in fields && f.name == name
  {
    if fields[0].name == name then fields[0] else FieldNamed(fields[1..], name)
  }

  ghost predicate Acceptable(env: Env, row: WriteRow) {
    Accepts(env.meta, [row], env.go)
  }

  // ----- the transitions -----

  ghost function IndexStep(env: Env, docs: Docs, c: Call): (Docs, Outcome)
    requires c.Index?
  {
    if c.doc.None? then (docs, Refused)
    else match ResolveDocumentId(env, c.doc.value, c.urlId, c.generated)
      case Err(_) => (docs, Refused)
      case Ok(None) =>
        if Acceptable(env, c.doc.value) then (docs[c.freshKey := StoredAs(env, c.doc.value, c.freshKey)], Created)
        else (docs, Refused)
      case Ok(Some(key)) =>
        var row := c.doc.value[env.pk.name := key];
        if c.create && key in docs then (docs, Conflict)
        else if !Acceptable(env, row) then (docs, Refused)
        else (docs[key := StoredAs(env, row, key)], if key in docs then Updated else Created)
  }

  ghost function UpdateStep(env: Env, docs: Docs, c: Call): (Docs, Outcome)
    requires c.Update?
  {
    if c.doc.None? then (docs, Refused)
    else match ParseDocumentId(env, c.urlId)
      case Err(_) => (docs, Refused)
      case Ok(key) =>
        if env.pk.name in c.doc.value && !ValuesEqual(key, c.doc.value[env.pk.name], env.go, env.decode)
        then (docs, Refused)
        else if key !in docs then (docs, NotFound)
        else
          var merged := docs[key] + c.doc.value;
          if RowsEqual(docs[key], merged, env.go, env.decode) then (docs, Noop)
          else if !Acceptable(env, merged) then (docs, Refused)
          else
            var target := CellOf(env.pk, merged, env.go);
            (docs[target := StoredAs(env, merged, target)], Updated)
  }

  ghost function Step(env: Env, docs: Docs, c: Call): (Docs, Outcome) {
    if c.Index? then IndexStep(env, docs, c) else UpdateStep(env, docs, c)
  }

  ghost function Run(env: Env, docs: Docs, calls: seq<Call>): Docs
    decreases calls
  {
    if calls == [] then docs else Run(env, Step(env, docs, calls[0]).0, calls[1..])
  }

  // The store assigns keys of the key's type that are not taken.
  ghost predicate AssignsFresh(env: Env, docs: Docs, c: Call) {
    c.Index? && env.pk.autoId ==> c.freshKey !in docs && !c.freshKey.Nil? && Storable(env.pk, c.freshKey, env.go)
  }

  ghost predicate AssignsFreshThroughout(env: Env, docs: Docs, calls: seq<Call>)
    decreases calls
  {
    calls != [] ==>
      AssignsFresh(env, docs, calls[0]) && AssignsFreshThroughout(env, Step(env, docs, calls[0]).0, calls[1..])
  }

  // ----- what a stored row is -----

  lemma {:induction false} FieldIs(env: Env, f: FieldMeta)
    requires env.meta.Valid() && f in env.meta.fields
    ensures f.name in env.Names() && FieldNamed(env.meta.fields, f.name) == f
  {
    var g := FieldNamed(env.meta.fields, f.name);
    var i :| 0 <= i < |env.meta.fields| && env.meta.fields[i] == f;
    var j :| 0 <= j < |env.meta.fields| && env.meta.fields[j] == g;
  }

  // An accepted cell is storable where the row put it.
  lemma {:induction false} AcceptedCell(env: Env, row: WriteRow, f: FieldMeta)
    requires env.Valid() && Acceptable(env, row) && f in env.meta.fields && !f.autoId
    ensures Storable(f, CellOf(f, row, env.go), env.go)
    ensures f.name in row ==> WriteValue(f, row[f.name], env.go) == Good(CellOf(f, row, env.go))
  {
    hide WriteValue, Go.Faithful;
    var i :| 0 <= i < |env.meta.fields| && env.meta.fields[i] == f;
    assert [row][0] == row;
    if f.name in row {
      assert RowFits(env.meta, [row][0], env.go);
      assert Fits(env.meta, f.name, row[f.name], env.go);
    } else {
      assert !Required(f);
      NullIsStorable(f, env.go);
    }
  }

  lemma {:induction false} NullIsStorable(f: FieldMeta, go: Go)
    requires f.nullable
    ensures Storable(f, Nil, go)
  {
    assert WriteValue(f, Nil, go) == Good(Nil);
  }

  lemma {:induction false} StoredIsRow(env: Env, row: WriteRow, key: GoValue)
    requires env.Valid() && Acceptable(env, row)
    requires env.pk.autoId ==> Storable(env.pk, key, env.go)
    ensures StoredRow(env.meta, StoredAs(env, row, key), env.go)
  {
    hide WriteValue, Go.Faithful, Storable, CellOf, Acceptable;
    forall i | 0 <= i < |env.meta.fields|
      ensures env.meta.fields[i].name in StoredAs(env, row, key)
      ensures Storable(env.meta.fields[i], StoredAs(env, row, key)[env.meta.fields[i].name], env.go)
    {
      var f := env.meta.fields[i];
      FieldIs(env, f);
      FieldIs(env, env.pk);
      if !f.autoId {
        AcceptedCell(env, row, f);
      }
    }
  }

  // ----- what every call keeps -----

  lemma {:induction false} KeyIsStored(env: Env, row: WriteRow, key: GoValue)
    requires env.Valid() && Acceptable(env, row) && !env.pk.autoId && env.pk.name in row
    requires row[env.pk.name] == key && (if env.pk.native.TString? then key.Text? else key.Int64?)
    ensures CellOf(env.pk, row, env.go) == key && StoredAs(env, row, key)[env.pk.name] == key
  {
    hide Go.Faithful, Acceptable;
    AcceptedCell(env, row, env.pk);
    FieldIs(env, env.pk);
  }

  lemma {:induction false} IndexKeepsRows(env: Env, docs: Docs, c: Call)
    requires env.Valid() && env.WellKept(docs) && c.Index? && AssignsFresh(env, docs, c)
    ensures env.WellKept(IndexStep(env, docs, c).0)
  {
    hide WriteValue, Go.Faithful, Storable, CellOf, Acceptable, StoredRow, Env.Valid;
    if c.doc.Some? && ResolveDocumentId(env, c.doc.value, c.urlId, c.generated).Ok? {
      match ResolveDocumentId(env, c.doc.value, c.urlId, c.generated).value {
        case None =>
          if Acceptable(env, c.doc.value) {
            StoredIsRow(env, c.doc.value, c.freshKey);
            KeyField(env);
          }
        case Some(key) =>
          var row := c.doc.value[env.pk.name := key];
          if Acceptable(env, row) {
            StoredIsRow(env, row, key);
            KeyField(env);
            KeyIsStored(env, row, key);
          }
      }
    }
  }

  lemma {:induction false} KeyField(env: Env)
    requires env.Valid()
    ensures env.pk.name in env.Names() && FieldNamed(env.meta.fields, env.pk.name) == env.pk
  {
    FieldIs(env, env.pk);
  }

  // A merged row carries its key, which an auto-generated key refuses.
  lemma {:induction false} MergedKeyIsNotGenerated(env: Env, merged: WriteRow)
    requires env.Valid() && env.pk.name in merged && Acceptable(env, merged)
    ensures !env.pk.autoId
  {
    hide WriteValue, Go.Faithful;
    var i :| 0 <= i < |env.meta.fields| && env.meta.fields[i] == env.pk;
    assert RowFits(env.meta, [merged][0], env.go);
    assert Fits(env.meta, env.pk.name, merged[env.pk.name], env.go);
  }

  lemma {:induction false} UpdateKeepsRows(env: Env, docs: Docs, c: Call)
    requires env.Valid() && env.WellKept(docs) && c.Update?
    ensures env.WellKept(UpdateStep(env, docs, c).0)
  {
    hide WriteValue, Go.Faithful, Storable, CellOf, Acceptable, StoredRow, Env.Valid, RowsEqual, ValuesEqual;
    if UpdateStep(env, docs, c).1.Updated? {
      var merged := docs[ParseDocumentId(env, c.urlId).value] + c.doc.value;
      var target := CellOf(env.pk, merged, env.go);
      KeyField(env);
      MergedKeyIsNotGenerated(env, merged);
      StoredIsRow(env, merged, target);
    }
  }

  /** Over any run of index, create and update calls every row sits under its own key and satisfies the
      schema. */
  lemma {:induction false} RunKeepsRows(env: Env, docs: Docs, calls: seq<Call>)
    requires env.Valid() && env.WellKept(docs) && AssignsFreshThroughout(env, docs, calls)
    ensures env.WellKept(Run(env, docs, calls))
    decreases calls
  {
    hide Env.Valid, Env.WellKept, IndexStep, UpdateStep, AssignsFresh;
    if calls != [] {
      if calls[0].Index? {
        IndexKeepsRows(env, docs, calls[0]);
      } else {
        UpdateKeepsRows(env, docs, calls[0]);
      }
      RunKeepsRows(env, Step(env, docs, calls[0]).0, calls[1..]);
    }
  }

  /** A call that is not answered "created" or "updated" changes nothing. */
  lemma {:induction false} RefusalChangesNothing(env: Env, docs: Docs, c: Call)
    ensures var (after, outcome) := Step(env, docs, c); !outcome.Created? && !outcome.Updated? ==> after == docs
  {
  }

  /** Creating never overwrites: whatever was stored is still there, unchanged. */
  lemma {:induction false} CreateNeverOverwrites(env: Env, docs: Docs, c: Call)
    requires c.Index? && c.create && AssignsFresh(env, docs, c)
    ensures var (after, outcome) := Step(env, docs, c);
      && (forall k :: k in docs ==> k in after && after[k] == docs[k])
      && !outcome.Updated?
      && (outcome.Created? ==> exists k :: k in after && k !in docs && after.Keys == docs.Keys + {k})
  {
    hide Acceptable, StoredAs;
    var (after, outcome) := Step(env, docs, c);
    if outcome.Created? {
      var id := ResolveDocumentId(env, c.doc.value, c.urlId, c.generated).value;
      var k := if id.Some? then id.value else c.freshKey;
      assert k in after && k !in docs && after.Keys == docs.Keys + {k};
    }
  }

  // ----- what the URL says -----

  /** The key a call to index is for. Generated keys are the store's business and take no id; a string key is
      the id of the URL, or a generated one where it names none; an integer key is the id read as a number. */
  ghost predicate IsFor(env: Env, c: Call, key: GoValue)
    requires c.Index?
  {
    if env.pk.autoId then c.urlId == "" && key == c.freshKey
    else if env.pk.native.TString? then key == Text(if c.urlId == "" then c.generated else c.urlId)
    else c.urlId != "" && key.Int64? && env.go.int64(c.urlId) == Some(key.n)
  }

  // A real cut off at the point.
  predicate CutsTo(x: real, n: int) {
    if x >= 0.0 then n as real <= x < n as real + 1.0 else n as real - 1.0 < x <= n as real
  }

  /** A key value inside the document does not contradict the id: the same string, or a number that, cut off at
      the point, is the id's. */
  ghost predicate Agrees(env: Env, doc: WriteRow, key: GoValue) {
    !env.pk.autoId && env.pk.name in doc ==>
      if env.pk.native.TString? then doc[env.pk.name] == key
      else key.Int64? && exists x :: AsDouble(doc[env.pk.name], x, env.go) && CutsTo(x, key.n)
  }

  lemma {:induction false} DocIntegerCuts(v: GoValue, n: int, go: Go)
    ensures DocInteger(v, go) == Some(n) <==> exists x :: AsDouble(v, x, go) && CutsTo(x, n)
  {
    NumberOfIsDouble(v, go);
    match NumberOf(v, go) {
      case Some(Finite(x)) =>
        assert AsDouble(v, x, go) && CutsTo(x, if x >= 0.0 then x.Floor else -((-x).Floor));
      case _ =>
    }
  }

  function KeyOr(id: Option<GoValue>, generatedKey: GoValue): GoValue {
    match id case None => generatedKey case Some(key) => key
  }

  /** The id is resolved to just that key, and refused where there is none or the document contradicts it. */
  lemma {:induction false} ResolvedKey(env: Env, c: Call)
    requires env.Valid() && c.Index? && c.doc.Some?
    ensures var id := ResolveDocumentId(env, c.doc.value, c.urlId, c.generated);
      forall key :: IsFor(env, c, key) && Agrees(env, c.doc.value, key)
        <==> id.Ok? && key == KeyOr(id.value, c.freshKey)
    ensures var id := ResolveDocumentId(env, c.doc.value, c.urlId, c.generated);
      id.Ok? ==> (id.value.None? <==> env.pk.autoId)
  {
    hide DocInteger, AsDouble, CutsTo, Go.Faithful;
    if env.pk.name in c.doc.value {
      forall n: int ensures DocInteger(c.doc.value[env.pk.name], env.go) == Some(n)
                       <==> exists x :: AsDouble(c.doc.value[env.pk.name], x, env.go) && CutsTo(x, n)
      {
        DocIntegerCuts(c.doc.value[env.pk.name], n, env.go);
      }
    }
  }

  // The row a call to index writes.
  function RowFor(env: Env, doc: WriteRow, key: GoValue): WriteRow {
    if env.pk.autoId then doc else doc[env.pk.name := key]
  }

  /** Every answer of index: a conflict where a row to be created is there, created or updated where the
      document fits under a key the call is for, and refused otherwise: no document, no such key, or one that
      does not fit. */
  lemma {:induction false} IndexAnswers(env: Env, docs: Docs, c: Call, key: GoValue)
    requires env.Valid() && c.Index? && AssignsFresh(env, docs, c)
    ensures c.doc.None? || !(exists k :: IsFor(env, c, k) && Agrees(env, c.doc.value, k)) ==>
      Step(env, docs, c).1.Refused?
    ensures c.doc.Some? && IsFor(env, c, key) && Agrees(env, c.doc.value, key) ==>
      Step(env, docs, c).1 ==
      if c.create && key in docs then Conflict
      else if !Acceptable(env, RowFor(env, c.doc.value, key)) then Refused
      else if key in docs then Updated else Created
  {
    hide Acceptable, StoredAs, IsFor, Agrees, ResolveDocumentId, Storable, Env.Valid;
    if c.doc.Some? {
      ResolvedKey(env, c);
      var id := ResolveDocumentId(env, c.doc.value, c.urlId, c.generated);
      if id.Ok? {
        var k := KeyOr(id.value, c.freshKey);
        assert IsFor(env, c, k) && Agrees(env, c.doc.value, k);
      }
    }
  }

  /** What was indexed under an id is found under it: an update addressed by the same id reads the key the row
      was written under. */
  lemma {:induction false} IndexedIsAddressed(env: Env, docs: Docs, c: Call, u: Call)
    requires env.Valid() && c.Index? && u.Update? && u.urlId == c.urlId != "" && AssignsFresh(env, docs, c)
    requires Step(env, docs, c).1.Created? || Step(env, docs, c).1.Updated?
    ensures var after := Step(env, docs, c).0;
      ParseDocumentId(env, u.urlId).Ok? && ParseDocumentId(env, u.urlId).value in after
      && IsFor(env, c, ParseDocumentId(env, u.urlId).value) && !Step(env, after, u).1.NotFound?
  {
    hide Acceptable, StoredAs, Storable, Agrees, RowsEqual, ValuesEqual, CellOf, DocInteger;
    ResolvedKey(env, c);
  }

  /** Indexing is a put: afterwards the row under the document's key, given or assigned, holds exactly the
      document's cells, and every other row is as it was. */
  lemma {:induction false} IndexPuts(env: Env, docs: Docs, c: Call, key: GoValue)
    requires env.Valid() && c.Index? && IsFor(env, c, key) && AssignsFresh(env, docs, c)
    ensures var (after, outcome) := Step(env, docs, c);
      outcome.Created? || outcome.Updated? ==>
        && c.doc.Some?
        && (outcome.Updated? <==> key in docs)
        && after.Keys == docs.Keys + {key}
        && (forall k :: k in docs && k != key ==> after[k] == docs[k])
        && forall f :: f in env.meta.fields ==>
             f.name in after[key] &&
             after[key][f.name] == if f == env.pk then key else CellOf(f, c.doc.value, env.go)
  {
    hide WriteValue, Go.Faithful, Acceptable, Storable, CellOf, Env.Valid, StoredAs, ResolveDocumentId, IsFor, Agrees;
    var (after, outcome) := Step(env, docs, c);
    if outcome.Created? || outcome.Updated? {
      ResolvedKey(env, c);
      OneKey(env, c, key);
      var id := ResolveDocumentId(env, c.doc.value, c.urlId, c.generated);
      assert IsFor(env, c, KeyOr(id.value, c.freshKey)) && KeyOr(id.value, c.freshKey) == key;
      var given := ResolveDocumentId(env, c.doc.value, c.urlId, c.generated) == Ok(Some(key));
      var row := if given then c.doc.value[env.pk.name := key] else c.doc.value;
      if given {
        KeyIsStored(env, row, key);
      }
      assert after == docs[key := StoredAs(env, row, key)];
      PutCells(env, row, c.doc.value, key);
    }
  }

  lemma {:induction false} OneKey(env: Env, c: Call, key: GoValue)
    requires env.Valid() && c.Index? && IsFor(env, c, key)
    ensures forall k :: IsFor(env, c, k) ==> k == key
    ensures !env.pk.autoId ==> if env.pk.native.TString? then key.Text? else key.Int64?
  {
  }

  lemma {:induction false} PutCells(env: Env, row: WriteRow, doc: WriteRow, key: GoValue)
    requires env.Valid() && (row == doc || row == doc[env.pk.name := key])
    requires env.pk.autoId || CellOf(env.pk, row, env.go) == key
    ensures var stored := StoredAs(env, row, key);
      forall f :: f in env.meta.fields ==>
        f.name in stored && stored[f.name] == if f == env.pk then key else CellOf(f, doc, env.go)
  {
    hide WriteValue, Go.Faithful, CellOf, Env.Valid;
    var stored := StoredAs(env, row, key);
    forall f | f in env.meta.fields
      ensures f.name in stored && stored[f.name] == if f == env.pk then key else CellOf(f, doc, env.go)
    {
      NamedAs(env, f);
      SameCellIn(env, f, row, doc);
    }
  }

  lemma {:induction false} NamedAs(env: Env, f: FieldMeta)
    requires env.Valid() && f in env.meta.fields
    ensures f.name in env.Names() && FieldNamed(env.meta.fields, f.name) == f && (f != env.pk ==> f.name != env.pk.name)
  {
    FieldIs(env, f);
    FieldIs(env, env.pk);
  }

  lemma {:induction false} SameCellIn(env: Env, f: FieldMeta, a: WriteRow, b: WriteRow)
    requires f != env.pk ==> (f.name in a <==> f.name in b) && (f.name in a ==> a[f.name] == b[f.name])
    ensures f != env.pk ==> CellOf(f, a, env.go) == CellOf(f, b, env.go)
  {
  }

  // ----- update -----

  // The document names no key, or one that is stored as the addressed key.
  ghost predicate KeepsAddress(env: Env, c: Call) {
    c.Update? && c.doc.Some? && ParseDocumentId(env, c.urlId).Ok? &&
    (env.pk.name in c.doc.value ==>
      WriteValue(env.pk, c.doc.value[env.pk.name], env.go) == Good(ParseDocumentId(env, c.urlId).value))
  }

  /** Where an update that goes through is written: at the addressed key exactly when the document names no
      key or one that is stored as that key. Otherwise the row lands under another key and the addressed
      row stays as it was. */
  lemma {:induction false} AddressKeptExactly(env: Env, docs: Docs, c: Call)
    requires env.Valid() && env.WellKept(docs) && c.Update? && Step(env, docs, c).1.Updated?
    ensures var (after, key) := (Step(env, docs, c).0, ParseDocumentId(env, c.urlId).value);
      && key in docs
      && var target := CellOf(env.pk, docs[key] + c.doc.value, env.go);
        && after.Keys == docs.Keys + {target}
        && (target == key <==> KeepsAddress(env, c))
        && (target != key ==> after[key] == docs[key])
  {
    hide WriteValue, Go.Faithful, Acceptable, Storable, Env.Valid, RowsEqual, ValuesEqual, StoredRow, StoredAs;
    var key := ParseDocumentId(env, c.urlId).value;
    MergedKeyIsNotGenerated(env, docs[key] + c.doc.value);
    TargetIsAddress(env, docs[key], c.doc.value, key);
  }

  /** A string key, and an integer key below 2^53, is always kept: the agreement check tells such a key from
      every other one. */
  lemma {:induction false} SmallKeysKeepAddress(env: Env, docs: Docs, c: Call)
    requires env.Valid() && env.WellKept(docs) && c.Update? && Step(env, docs, c).1.Updated?
    requires Small(ParseDocumentId(env, c.urlId).value)
    ensures KeepsAddress(env, c)
  {
    hide WriteValue, Go.Faithful, Acceptable, Storable, CellOf, Env.Valid, RowsEqual, ValuesEqual, StoredRow, StoredAs;
    var key := ParseDocumentId(env, c.urlId).value;
    var merged := docs[key] + c.doc.value;
    MergedKeyIsNotGenerated(env, merged);
    PkIsField(env);
    AcceptedCell(env, merged, env.pk);
    if env.pk.name in c.doc.value {
      NamedKeyIsAddress(env, key, c.doc.value[env.pk.name]);
    }
  }

  // The key a document names under an update is the addressed one.
  lemma {:induction false} NamedKeyIsAddress(env: Env, key: GoValue, v: GoValue)
    requires env.Valid() && ValuesEqual(key, v, env.go, env.decode) && WriteValue(env.pk, v, env.go).Good?
    requires (if env.pk.native.TString? then key.Text? else key.Int64?) && Small(key)
    ensures WriteValue(env.pk, v, env.go) == Good(key)
  {
    hide Go.Faithful;
    if env.pk.native.TInt64? {
      IntegerStoresSame(env.pk, key.n, v, env.go);
    }
  }

  /** An update that goes through changes the addressed row only, and in it only the fields the document
      names: every other cell is what it was, and the named ones are what was written. */
  lemma {:induction false} UpdateIsLocal(env: Env, docs: Docs, c: Call)
    requires env.Valid() && env.WellKept(docs) && KeepsAddress(env, c)
    ensures var (after, outcome) := Step(env, docs, c);
      outcome.Updated? ==>
        var key := ParseDocumentId(env, c.urlId).value;
        && key in docs && after.Keys == docs.Keys
        && (forall k :: k in docs && k != key ==> after[k] == docs[k])
        && forall f :: f in env.meta.fields ==>
             && f.name in docs[key] && f.name in after[key]
             && (f.name !in c.doc.value ==> after[key][f.name] == docs[key][f.name])
             && (f.name in c.doc.value ==> after[key][f.name] == CellOf(f, c.doc.value, env.go))
  {
    hide WriteValue, Go.Faithful, Acceptable, Storable, CellOf, Env.Valid, RowsEqual, ValuesEqual, StoredRow, StoredAs;
    var (after, outcome) := Step(env, docs, c);
    if outcome.Updated? {
      var key := ParseDocumentId(env, c.urlId).value;
      var merged := docs[key] + c.doc.value;
      KeyField(env);
      MergedKeyIsNotGenerated(env, merged);
      TargetIsAddress(env, docs[key], c.doc.value, key);
      MergedCells(env, docs[key], c.doc.value, key);
    }
  }

  lemma {:induction false} MergedCells(env: Env, stored: WriteRow, doc: WriteRow, key: GoValue)
    requires env.Valid() && StoredRow(env.meta, stored, env.go) && Acceptable(env, stored + doc)
    ensures var row := StoredAs(env, stored + doc, key);
      forall f :: f in env.meta.fields ==>
        && f.name in stored && f.name in row
        && (f.name !in doc ==> row[f.name] == stored[f.name])
        && (f.name in doc ==> row[f.name] == CellOf(f, doc, env.go))
  {
    hide WriteValue, Go.Faithful, Acceptable, Storable, CellOf, Env.Valid, StoredRow;
    var row := StoredAs(env, stored + doc, key);
    forall f | f in env.meta.fields
      ensures f.name in stored && f.name in row
      ensures f.name !in doc ==> row[f.name] == stored[f.name]
      ensures f.name in doc ==> row[f.name] == CellOf(f, doc, env.go)
    {
      NamedAs(env, f);
      UnnamedCellStays(env, stored, doc, f);
    }
  }

  lemma {:induction false} TargetIsAddress(env: Env, stored: WriteRow, doc: WriteRow, key: GoValue)
    requires env.Valid() && StoredRow(env.meta, stored, env.go) && Acceptable(env, stored + doc) && !env.pk.autoId
    requires env.pk.name in stored && stored[env.pk.name] == key
    requires if env.pk.native.TString? then key.Text? else key.Int64?
    ensures CellOf(env.pk, stored + doc, env.go) == key
       <==> (env.pk.name in doc ==> WriteValue(env.pk, doc[env.pk.name], env.go) == Good(key))
  {
    hide WriteValue, Go.Faithful, Acceptable, Storable, Env.Valid, StoredRow;
    PkIsField(env);
    AcceptedCell(env, stored + doc, env.pk);
    if env.pk.name !in doc {
      KeyRewrites(env, key);
    }
  }

  lemma {:induction false} PkIsField(env: Env)
    requires env.Valid()
    ensures env.pk in env.meta.fields && (env.pk.native.TString? || env.pk.native.TInt64?)
  {
  }

  lemma {:induction false} KeyRewrites(env: Env, key: GoValue)
    requires env.Valid() && (if env.pk.native.TString? then key.Text? else key.Int64?)
    ensures WriteValue(env.pk, key, env.go).Good? ==> WriteValue(env.pk, key, env.go) == Good(key)
  {
    hide Go.Faithful;
  }

  lemma {:induction false} UnnamedCellStays(env: Env, stored: WriteRow, doc: WriteRow, f: FieldMeta)
    requires env.Valid() && StoredRow(env.meta, stored, env.go) && f in env.meta.fields && Acceptable(env, stored + doc)
    ensures f.name in stored && !f.autoId
    ensures f.name !in doc ==> CellOf(f, stored + doc, env.go) == stored[f.name]
    ensures f.name in doc ==> CellOf(f, stored + doc, env.go) == CellOf(f, doc, env.go)
  {
    hide WriteValue, Go.Faithful, Acceptable;
    var i :| 0 <= i < |env.meta.fields| && env.meta.fields[i] == f;
    PkIsField(env);
    var j :| 0 <= j < |env.meta.fields| && env.meta.fields[j] == env.pk;
    MergedKeyIsNotGenerated(env, stored + doc);
    AcceptedCell(env, stored + doc, f);
    if f.name !in doc {
      StoredRewrites(f, stored[f.name], env.go);
    }
  }

  // A stored cell that is accepted again is stored as itself.
  lemma {:induction false} StoredRewrites(f: FieldMeta, c: GoValue, go: Go)
    requires go.Faithful() && Storable(f, c, go)
    ensures WriteValue(f, c, go).Good? ==> WriteValue(f, c, go) == Good(c)
    ensures !c.Nil? && (f.native.TInt8? || f.native.TInt16?) ==> WriteValue(f, c, go).Bad?
  {
    hide Go.Faithful, WriteValue;
    var v :| WriteValue(f, v, go) == Good(c);
    AcceptedIsTyped(f, v, go);
    if v.Nil? {
      NilRewrites(f, go);
    } else {
      StoredIsWritable(f, v, go);
    }
  }

  lemma {:induction false} NilRewrites(f: FieldMeta, go: Go)
    ensures WriteValue(f, Nil, go).Good? ==> WriteValue(f, Nil, go) == Good(Nil)
  {
  }

  /** The input that drifts, beyond 2^53: a document whose key is another integer with the same nearest
      double passes the agreement check, and the write goes to that key; the addressed row stays. */
  lemma {:induction false} KeyDrifts(env: Env, docs: Docs, c: Call, n: int, m: int, s: string)
    requires env.Valid() && env.WellKept(docs) && c.Update? && c.doc.Some? && env.pk.native.TInt64?
    requires env.go.int64(c.urlId) == Some(n) && Int64(n) in docs && env.go.int64(s) == Some(m)
    requires env.pk.name in c.doc.value && c.doc.value[env.pk.name] == Number(s)
    requires n != m && env.go.nearest(n) == env.go.nearest(m)
    ensures var (after, outcome) := Step(env, docs, c);
      && !outcome.NotFound? && (outcome.Refused? ==> !Acceptable(env, docs[Int64(n)] + c.doc.value))
      && (outcome.Updated? ==> after.Keys == docs.Keys + {Int64(m)} && after[Int64(n)] == docs[Int64(n)])
  {
    hide Go.Faithful, Acceptable, Storable, Env.Valid, StoredRow, RowsEqual, ValuesEqual, StoredAs, WriteValue, CellOf,
      Env.WellKept, IndexStep, KeepsAddress;
    var (after, outcome) := Step(env, docs, c);
    var merged := docs[Int64(n)] + c.doc.value;
    PkIsField(env);
    SameNearest(n, m, s, env);
    if outcome.Updated? {
      AddressKeptExactly(env, docs, c);
      KeyIsInRow(env, docs, Int64(n));
      MergedKeyIsNotGenerated(env, merged);
      AcceptedCell(env, merged, env.pk);
      LiteralKey(env.pk, s, m, env.go);
    }
  }

  lemma {:induction false} KeyIsInRow(env: Env, docs: Docs, key: GoValue)
    requires env.WellKept(docs) && key in docs
    ensures env.pk.name in docs[key] && docs[key][env.pk.name] == key
  {
  }

  lemma {:induction false} LiteralKey(f: FieldMeta, s: string, m: int, go: Go)
    requires f.native.TInt64? && go.int64(s) == Some(m)
    ensures WriteValue(f, Number(s), go).Good? ==> WriteValue(f, Number(s), go) == Good(Int64(m))
  {
  }

  lemma {:induction false} SameNearest(n: int, m: int, s: string, env: Env)
    requires env.Valid() && env.go.int64(s) == Some(m) && env.go.nearest(n) == env.go.nearest(m)
    ensures ValuesEqual(Int64(n), Number(s), env.go, env.decode)
  {
  }

  /** A noop really is one: where the addressed row's integers are below 2^53, writing the merged row would
      have left every cell as it is, up to the spelling of JSON. */
  lemma {:induction false} NoopWouldChangeNothing(env: Env, docs: Docs, c: Call)
    requires env.Valid() && env.WellKept(docs) && c.Update? && Step(env, docs, c).1.Noop?
    requires SmallCells(env.meta, docs[ParseDocumentId(env, c.urlId).value])
    ensures var key := ParseDocumentId(env, c.urlId).value;
      WritesSame(env.meta, docs[key], docs[key] + c.doc.value, env.go, env.decode)
  {
    hide Go.Faithful, Storable, RowsEqual, CellOf, SameCell, Acceptable, ValuesEqual, WriteValue, SmallCells,
      WritesSame;
    var key := ParseDocumentId(env, c.urlId).value;
    NoopIsSound(env.meta, docs[key], docs[key] + c.doc.value, env.go, env.decode);
  }

  // ----- when a stored row is written again -----

  // Every cell that reads return as an 8- or 16-bit integer is replaced.
  ghost predicate ReplacesNarrow(env: Env, stored: WriteRow, doc: WriteRow) {
    forall f | f in env.meta.fields && (f.native.TInt8? || f.native.TInt16?) ::
      f.name in stored && !stored[f.name].Nil? ==> f.name in doc
  }

  lemma {:induction false} CellFits(env: Env, f: FieldMeta, v: GoValue)
    requires env.Valid() && f in env.meta.fields && !env.pk.autoId
    ensures Fits(env.meta, f.name, v, env.go) <==> WriteValue(f, v, env.go).Good?
  {
    hide WriteValue, Go.Faithful;
    var k :| 0 <= k < |env.meta.fields| && env.meta.fields[k] == f;
    forall i | 0 <= i < |env.meta.fields| && env.meta.fields[i].name == f.name ensures i == k {}
  }

  // What an accepted overlay needs of one name.
  lemma {:induction false} OverlaidCellFits(env: Env, stored: WriteRow, doc: WriteRow, f: FieldMeta)
    requires env.Valid() && !env.pk.autoId && StoredRow(env.meta, stored, env.go) && f in env.meta.fields
    ensures f.name in stored
    ensures Fits(env.meta, f.name, (stored + doc)[f.name], env.go)
       <==> if f.name in doc then Fits(env.meta, f.name, doc[f.name], env.go)
            else stored[f.name].Nil? || (!f.native.TInt8? && !f.native.TInt16?)
  {
    hide WriteValue, Go.Faithful, Storable, Fits;
    var i :| 0 <= i < |env.meta.fields| && env.meta.fields[i] == f;
    if f.name !in doc {
      CellFits(env, f, stored[f.name]);
      CellRewritable(f, stored[f.name], env.go);
    }
  }

  lemma {:induction false} CellRewritable(f: FieldMeta, c: GoValue, go: Go)
    requires go.Faithful() && Storable(f, c, go)
    ensures WriteValue(f, c, go).Good? <==> c.Nil? || (!f.native.TInt8? && !f.native.TInt16?)
  {
    hide Go.Faithful, WriteValue;
    var v :| WriteValue(f, v, go) == Good(c);
    AcceptedIsTyped(f, v, go);
    if v.Nil? {
      NullIsStorable(f, go);
      assert WriteValue(f, v, go).Good?;
    } else {
      StoredIsWritable(f, v, go);
    }
  }

  /** Writing a stored row back with a document laid over it is accepted exactly when no key is generated,
      the document fits the schema on its own, and it replaces every 8- and 16-bit integer the row holds. */
  lemma {:induction false} OverlayAcceptedWhen(env: Env, stored: WriteRow, doc: WriteRow)
    requires env.Valid() && StoredRow(env.meta, stored, env.go) && stored.Keys == env.Names()
    ensures Acceptable(env, stored + doc)
       <==> !env.pk.autoId && RowFits(env.meta, doc, env.go) && ReplacesNarrow(env, stored, doc)
  {
    hide WriteValue, Go.Faithful, Storable, Fits, StoredRow, Env.Valid, Accepts, Known, RowFits;
    var merged := stored + doc;
    KeyField(env);
    assert env.pk.name in merged;
    if env.pk.autoId {
      if Acceptable(env, merged) {
        MergedKeyIsNotGenerated(env, merged);
      }
    } else {
      AllSupplied(env, merged);
      DocFits(env, stored, doc);
    }
  }

  // A row with every field is accepted when its cells fit.
  lemma {:induction false} AllSupplied(env: Env, row: WriteRow)
    requires env.Names() <= row.Keys
    ensures Acceptable(env, row) <==> RowFits(env.meta, row, env.go)
  {
    hide RowFits;
    assert forall j :: 0 <= j < |[row]| ==> [row][j] == row;
    assert RowFits(env.meta, [row][0], env.go) <==> RowFits(env.meta, row, env.go);
    forall i | 0 <= i < |env.meta.fields| ensures env.meta.fields[i].name in row {
      assert env.meta.fields[i].name in env.Names();
    }
  }

  lemma {:induction false} DocFits(env: Env, stored: WriteRow, doc: WriteRow)
    requires env.Valid() && !env.pk.autoId && StoredRow(env.meta, stored, env.go) && stored.Keys == env.Names()
    ensures RowFits(env.meta, stored + doc, env.go)
       <==> RowFits(env.meta, doc, env.go) && ReplacesNarrow(env, stored, doc)
  {
    hide WriteValue, Go.Faithful, Storable, Fits, StoredRow, Env.Valid;
    var merged := stored + doc;
    if RowFits(env.meta, merged, env.go) {
      forall name | name in doc ensures Fits(env.meta, name, doc[name], env.go) {
        assert name in merged && merged[name] == doc[name];
      }
      forall f | f in env.meta.fields && (f.native.TInt8? || f.native.TInt16?)
        ensures f.name in stored && !stored[f.name].Nil? ==> f.name in doc
      {
        OverlaidCellFits(env, stored, doc, f);
        assert f.name in merged;
      }
    }
    if RowFits(env.meta, doc, env.go) && ReplacesNarrow(env, stored, doc) {
      forall name | name in merged ensures Fits(env.meta, name, merged[name], env.go) {
        if name !in doc {
          assert name in stored.Keys;
          var f :| f in env.meta.fields && f.name == name;
          OverlaidCellFits(env, stored, doc, f);
        }
      }
    }
  }

  /** With nothing laid over it, that is what the write path's promise to take back what reads return comes
      to: it is kept for the rows of an index whose keys are not generated that hold no 8- or 16-bit
      integer. */
  lemma {:induction false} StoredRowIsWritableWhen(env: Env, stored: WriteRow)
    requires env.Valid() && StoredRow(env.meta, stored, env.go) && stored.Keys == env.Names()
    ensures Acceptable(env, stored)
       <==> !env.pk.autoId && forall f :: f in env.meta.fields && (f.native.TInt8? || f.native.TInt16?) ==>
              f.name in stored && stored[f.name].Nil?
  {
    hide Acceptable, Env.Valid, StoredRow;
    OverlayAcceptedWhen(env, stored, map[]);
    assert stored + map[] == stored;
    assert RowFits(env.meta, map[], env.go);
    forall f | f in env.meta.fields ensures f.name in stored {
      assert f.name in env.Names();
    }
  }

  /** When an update is answered "updated": the row is there under the address, the document names no other
      key, something would change, no key is generated, the document fits the schema and replaces the row's
      8- and 16-bit integers. */
  lemma {:induction false} UpdatedExactlyWhen(env: Env, docs: Docs, c: Call)
    requires env.Valid() && env.WellKept(docs) && c.Update?
    ensures Step(env, docs, c).1.Updated?
       <==> c.doc.Some? && ParseDocumentId(env, c.urlId).Ok?
              && var (key, doc) := (ParseDocumentId(env, c.urlId).value, c.doc.value);
                && (env.pk.name in doc ==> ValuesEqual(key, doc[env.pk.name], env.go, env.decode))
                && key in docs && !RowsEqual(docs[key], docs[key] + doc, env.go, env.decode)
                && !env.pk.autoId && RowFits(env.meta, doc, env.go) && ReplacesNarrow(env, docs[key], doc)
  {
    hide Go.Faithful, Acceptable, ValuesEqual, RowsEqual, RowFits, ReplacesNarrow, StoredAs, CellOf, Env.Valid,
      StoredRow;
    if c.doc.Some? && ParseDocumentId(env, c.urlId).Ok? && ParseDocumentId(env, c.urlId).value in docs {
      OverlayAcceptedWhen(env, docs[ParseDocumentId(env, c.urlId).value], c.doc.value);
    }
  }

  /** Two families that are always refused. A row that holds a narrow integer cannot be updated past it,
      though comparing the rows first might have called that a noop: such a cell equals nothing ... */
  lemma {:induction false} NarrowRowsCannotBeUpdated(env: Env, docs: Docs, c: Call, f: FieldMeta)
    requires env.Valid() && env.WellKept(docs) && c.Update? && c.doc.Some?
    requires ParseDocumentId(env, c.urlId).Ok? && ParseDocumentId(env, c.urlId).value in docs
    requires f in env.meta.fields && (f.native.TInt8? || f.native.TInt16?) && f.name !in c.doc.value
    requires f.name in docs[ParseDocumentId(env, c.urlId).value]
      && !docs[ParseDocumentId(env, c.urlId).value][f.name].Nil?
    ensures Step(env, docs, c) == (docs, Refused)
  {
    hide Go.Faithful, Acceptable, ValuesEqual;
    var key := ParseDocumentId(env, c.urlId).value;
    var merged := docs[key] + c.doc.value;
    NarrowCell(env, docs[key], f);
    assert merged[f.name] == docs[key][f.name];
    EqualRowsAgree(env, docs[key], merged, f.name);
    if Acceptable(env, merged) {
      UnnamedCellStays(env, docs[key], c.doc.value, f);
      AcceptedCell(env, merged, f);
    }
  }

  /** ... and where keys are generated, what is read back carries one: every update of a row that is there
      and would change is refused. */
  lemma {:induction false} GeneratedKeysRefuseUpdates(env: Env, docs: Docs, c: Call)
    requires env.Valid() && env.WellKept(docs) && c.Update? && env.pk.autoId
    ensures Step(env, docs, c).0 == docs && !Step(env, docs, c).1.Updated?
    ensures c.doc.Some? && ParseDocumentId(env, c.urlId).Ok? && ParseDocumentId(env, c.urlId).value in docs
              && !Step(env, docs, c).1.Noop? ==>
      Step(env, docs, c).1.Refused?
  {
    hide Env.Valid, Env.WellKept, Acceptable, RowsEqual, ValuesEqual;
    UpdatedExactlyWhen(env, docs, c);
    RefusalChangesNothing(env, docs, c);
  }

  lemma {:induction false} EqualRowsAgree(env: Env, a: WriteRow, b: WriteRow, name: string)
    requires name in a
    ensures RowsEqual(a, b, env.go, env.decode) ==> name in b && ValuesEqual(a[name], b[name], env.go, env.decode)
  {
  }

  lemma {:induction false} NarrowCell(env: Env, stored: WriteRow, f: FieldMeta)
    requires env.Valid() && StoredRow(env.meta, stored, env.go) && f in env.meta.fields && f.name in stored
    requires (f.native.TInt8? || f.native.TInt16?) && !stored[f.name].Nil?
    ensures forall v :: !ValuesEqual(stored[f.name], v, env.go, env.decode)
    ensures WriteValue(f, stored[f.name], env.go).Bad?
  {
    hide Go.Faithful;
    var i :| 0 <= i < |env.meta.fields| && env.meta.fields[i] == f;
    var v :| WriteValue(f, v, env.go) == Good(stored[f.name]);
    AcceptedIsTyped(f, v, env.go);
    StoredRewrites(f, stored[f.name], env.go);
  }
}
