/** UPDATE (internal/pgserver/write.go): fetch the matched rows whole, lay the SET template over each, and
    write them all back in one upsert. */
module PgUpdate {
  import opened Wrappers
  import opened GoValues
  import opened StoreWrite
  import opened StoreColumns
  import opened StoredRows
  import opened NoopCheck
  import opened DocumentApi
  import Milvus
  import Schema
  import PgWhere
  import PgExact
  import FiniteNumbers
  import Emitted

  const UPDATE_SCAN_LIMIT := 10000

  // The keys whose rows the plan selects, in the order the store pages them.
  function Select(docs: Docs, order: seq<GoValue>, passes: WriteRow -> bool): (keys: seq<GoValue>)
    requires forall k :: k in order ==> k in docs
    ensures forall k :: k in keys <==> k in order && passes(docs[k])
    ensures |keys| <= |order|
  {
    if order == [] then []
    else (if passes(docs[order[0]]) then [order[0]] else []) + Select(docs, order[1..], passes)
  }

  // What the search under the scan cap returns.
  function Scanned(keys: seq<GoValue>): seq<GoValue> {
    if |keys| > UPDATE_SCAN_LIMIT then keys[..UPDATE_SCAN_LIMIT] else keys
  }

  function Overlaid(docs: Docs, keys: seq<GoValue>, template: WriteRow): (rows: seq<WriteRow>)
    requires forall k :: k in keys ==> k in docs
    ensures |rows| == |keys| && forall i :: 0 <= i < |keys| ==> rows[i] == docs[keys[i]] + template
  {
    if keys == [] then [] else [docs[keys[0]] + template] + Overlaid(docs, keys[1..], template)
  }

  // One upsert of several rows: each replaces the row under its key.
  function Upserted(env: Env, docs: Docs, rows: seq<WriteRow>): Docs
    decreases |rows|
  {
    if rows == [] then docs
    else
      var row := rows[|rows| - 1];
      var key := CellOf(env.pk, row, env.go);
      Upserted(env, docs, rows[..|rows| - 1])[key := StoredAs(env, row, key)]
  }

  ghost function UpdateResult(env: Env, docs: Docs, keys: seq<GoValue>, template: WriteRow): (Docs, Result<nat>)
    requires forall k :: k in keys ==> k in docs
  {
    var rows := Overlaid(docs, Scanned(keys), template);
    if Accepts(env.meta, rows, env.go) then (Upserted(env, docs, rows), Ok(|rows|)) else (docs, Err(Illegal))
  }

  class Table {
    const env: Env
    var docs: Docs

    constructor (env: Env, docs: Docs)
      ensures this.env == env && this.docs == docs
    {
      this.env := env;
      this.docs := docs;
    }

    method Upsert(rows: seq<WriteRow>) returns (count: Result<nat>)
      requires env.Valid()
      modifies this`docs
      ensures if Accepts(env.meta, rows, env.go)
              then count == Ok(|rows|) && docs == Upserted(env, old(docs), rows)
              else count == Err(Illegal) && docs == old(docs)
    {
      if |rows| == 0 {
        return Ok(0);
      }
      var err, cols := WriteColumns(env.meta, rows, env.go);
      if err.Some? {
        return Err(Illegal);
      }
      ghost var before := docs;
      for i := 0 to |rows|
        invariant docs == Upserted(env, before, rows[..i])
      {
        assert rows[..i + 1][..i] == rows[..i];
        var key := CellOf(env.pk, rows[i], env.go);
        ColumnsHoldRows(env, rows, cols, i, key);
        docs := docs[key := RowAt(env, cols, |rows|, i, key)];
      }
      assert rows[..|rows|] == rows;
      return Ok(|rows|);
    }

    /** writeUpdateStatement, from the keys its search found. */
    method Execute(keys: seq<GoValue>, template: WriteRow) returns (count: Result<nat>)
      requires env.Valid() && forall k :: k in keys ==> k in docs
      modifies this`docs
      ensures (docs, count) == UpdateResult(env, old(docs), keys, template)
    {
      var hits := Scanned(keys);
      var rows: seq<WriteRow> := [];
      ghost var all := Overlaid(docs, hits, template);
      for i := 0 to |hits|
        invariant |rows| == i && forall j :: 0 <= j < i ==> rows[j] == all[j]
      {
        assert hits[i] in keys;
        rows := rows + [docs[hits[i]] + template];
      }
      assert rows == all;
      count := Upsert(rows);
    }
  }

  // ----- what an update does -----

  ghost predicate Distinct(keys: seq<GoValue>) {
    forall i, j :: 0 <= i < j < |keys| ==> keys[i] != keys[j]
  }

  // The row an update leaves under a matched key.
  ghost predicate Rewritten(env: Env, stored: WriteRow, template: WriteRow, after: WriteRow) {
    forall f :: f in env.meta.fields ==>
      && f.name in stored && f.name in after
      && after[f.name] == if f.name in template then CellOf(f, template, env.go) else stored[f.name]
  }

  lemma {:induction false} RowAccepted(env: Env, rows: seq<WriteRow>, i: nat)
    requires Accepts(env.meta, rows, env.go) && i < |rows|
    ensures Acceptable(env, rows[i])
  {
    hide RowFits;
    assert forall j :: 0 <= j < |[rows[i]]| ==> [rows[i]][j] == rows[i];
  }

  // Exactly the rows under these keys are rewritten.
  ghost predicate RewrittenAt(env: Env, docs: Docs, after: Docs, keys: seq<GoValue>, template: WriteRow) {
    && after.Keys == docs.Keys
    && forall k :: k in docs ==> if k in keys then Rewritten(env, docs[k], template, after[k]) else after[k] == docs[k]
  }

  lemma {:induction false} RewrittenOnce(env: Env, docs: Docs, after: Docs, keys: seq<GoValue>, key: GoValue,
    row: WriteRow,
    template: WriteRow)
    requires RewrittenAt(env, docs, after, keys, template) && key in docs && key !in keys
    requires Rewritten(env, docs[key], template, row)
    ensures RewrittenAt(env, docs, after[key := row], keys + [key], template)
  {
    hide Rewritten;
  }

  lemma {:induction false} UpsertedAt(env: Env, docs: Docs, keys: seq<GoValue>, template: WriteRow)
    requires env.Valid() && !env.pk.autoId && env.pk.name !in template && env.WellKept(docs) && Distinct(keys)
    requires forall k :: k in keys ==> k in docs
    requires forall i :: 0 <= i < |keys| ==> Acceptable(env, docs[keys[i]] + template)
    ensures RewrittenAt(env, docs, Upserted(env, docs, Overlaid(docs, keys, template)), keys, template)
    decreases |keys|
  {
    hide Env.Valid, Acceptable, StoredAs, CellOf, StoredRow, Rewritten, RewrittenAt, Env.WellKept, Overlaid;
    var rows := Overlaid(docs, keys, template);
    if keys == [] {
      NothingRewritten(env, docs, template);
    } else {
      var n := |keys| - 1;
      var key := keys[n];
      assert rows[..n] == Overlaid(docs, keys[..n], template);
      UpsertedAt(env, docs, keys[..n], template);
      KeptRow(env, docs, key);
      RowKeepsKey(env, docs[key], template, key);
      RowRewritten(env, docs[key], template, key);
      RewrittenOnce(env, docs, Upserted(env, docs, rows[..n]), keys[..n], key, StoredAs(env, rows[n], key), template);
      assert keys == keys[..n] + [key];
    }
  }

  lemma {:induction false} NothingRewritten(env: Env, docs: Docs, template: WriteRow)
    ensures RewrittenAt(env, docs, docs, [], template)
  {
  }

  lemma {:induction false} NothingUpserted(env: Env, docs: Docs, template: WriteRow)
    ensures Upserted(env, docs, Overlaid(docs, [], template)) == docs
  {
  }

  lemma {:induction false} KeptRow(env: Env, docs: Docs, key: GoValue)
    requires env.WellKept(docs) && key in docs
    ensures StoredRow(env.meta, docs[key], env.go) && env.pk.name in docs[key] && docs[key][env.pk.name] == key
  {
  }

  lemma {:induction false} RowKeepsKey(env: Env, stored: WriteRow, template: WriteRow, key: GoValue)
    requires env.Valid() && !env.pk.autoId && env.pk.name !in template && StoredRow(env.meta, stored, env.go)
    requires env.pk.name in stored && stored[env.pk.name] == key && Acceptable(env, stored + template)
    ensures CellOf(env.pk, stored + template, env.go) == key
  {
    hide Acceptable, CellOf, StoredRow, WriteValue;
    PkIsField(env);
    UnnamedCellStays(env, stored, template, env.pk);
  }

  lemma {:induction false} RowRewritten(env: Env, stored: WriteRow, template: WriteRow, key: GoValue)
    requires env.Valid() && StoredRow(env.meta, stored, env.go) && Acceptable(env, stored + template)
    ensures Rewritten(env, stored, template, StoredAs(env, stored + template, key))
  {
    hide Acceptable, CellOf, StoredRow, WriteValue, StoredAs, Env.Valid;
    MergedCells(env, stored, template, key);
  }

  /** UPDATE is a whole-row rewrite. If it is accepted and SET does not name the key: the keys stay, the
      first 10000 matches - all of them, if there are no more - become their old rows under the template,
      every other row is as it was, and the count is the number rewritten. If not, nothing changes. */
  lemma {:induction false} UpdateRewrites(env: Env, docs: Docs, keys: seq<GoValue>, template: WriteRow)
    requires env.Valid() && env.WellKept(docs) && env.pk.name !in template
    requires Distinct(keys) && forall k :: k in keys ==> k in docs
    ensures var (after, count) := UpdateResult(env, docs, keys, template);
      && (count.Err? ==> after == docs)
      && (count.Ok? ==>
           && count.value == |Scanned(keys)| && (|keys| <= UPDATE_SCAN_LIMIT ==> Scanned(keys) == keys)
           && RewrittenAt(env, docs, after, Scanned(keys), template))
  {
    hide Env.Valid, Accepts, Acceptable, RewrittenAt, Upserted, Env.WellKept;
    var hits := Scanned(keys);
    var rows := Overlaid(docs, hits, template);
    var (after, count) := UpdateResult(env, docs, keys, template);
    if count.Ok? {
      forall i | 0 <= i < |hits| ensures Acceptable(env, docs[hits[i]] + template) && !env.pk.autoId {
        RowAccepted(env, rows, i);
        KeptRow(env, docs, hits[i]);
        MergedKeyIsNotGenerated(env, docs[hits[i]] + template);
      }
      if hits == [] {
        NothingUpserted(env, docs, template);
        NothingRewritten(env, docs, template);
      } else {
        assert Acceptable(env, docs[hits[0]] + template) && !env.pk.autoId;
        UpsertedAt(env, docs, hits, template);
      }
    }
  }

  /** The cap is silent: every match is rewritten if and only if there are at most 10000. */
  lemma {:induction false} CapIsSilent(keys: seq<GoValue>)
    requires Distinct(keys)
    ensures (forall k :: k in keys ==> k in Scanned(keys)) <==> |keys| <= 10000
  {
    if |keys| > UPDATE_SCAN_LIMIT {
      assert keys[UPDATE_SCAN_LIMIT] in keys && keys[UPDATE_SCAN_LIMIT] !in Scanned(keys);
    }
  }

  lemma {:induction false} SelectDistinct(docs: Docs, order: seq<GoValue>, passes: WriteRow -> bool)
    requires Distinct(order) && forall k :: k in order ==> k in docs
    ensures Distinct(Select(docs, order, passes))
  {
    if order != [] {
      SelectDistinct(docs, order[1..], passes);
      assert order[0] !in order[1..];
    }
  }

  /** The whole statement, at most 10000 matches: the rows that pass the WHERE are rewritten, no other row
      changes, and the count is how many passed. */
  lemma {:induction false} UpdateStatement(env: Env, docs: Docs, order: seq<GoValue>, passes: WriteRow -> bool,
    template: WriteRow)
    requires env.Valid() && env.WellKept(docs) && env.pk.name !in template
    requires Distinct(order) && forall k :: k in order <==> k in docs
    requires |Select(docs, order, passes)| <= UPDATE_SCAN_LIMIT
    ensures var keys := Select(docs, order, passes);
      var (after, count) := UpdateResult(env, docs, keys, template);
      && (count.Err? ==> after == docs)
      && (count.Ok? ==>
           && count.value == |keys| && after.Keys == docs.Keys
           && forall k :: k in docs ==>
                if passes(docs[k]) then Rewritten(env, docs[k], template, after[k]) else after[k] == docs[k])
  {
    hide Env.Valid, Accepts, Upserted, Env.WellKept, Rewritten, Overlaid;
    SelectDistinct(docs, order, passes);
    UpdateRewrites(env, docs, Select(docs, order, passes), template);
  }

  /** When an UPDATE goes through: it matches nothing, or no key is generated, the template fits the schema,
      and it replaces every 8- and 16-bit integer of every row it rewrites. */
  lemma {:induction false} UpdateAcceptedWhen(env: Env, docs: Docs, keys: seq<GoValue>, template: WriteRow)
    requires env.Valid() && env.WellKept(docs) && forall k :: k in keys ==> k in docs
    ensures UpdateResult(env, docs, keys, template).1.Ok?
       <==> keys == [] || (!env.pk.autoId && RowFits(env.meta, template, env.go)
                           && forall k :: k in Scanned(keys) ==> ReplacesNarrow(env, docs[k], template))
  {
    hide Env.Valid, Accepts, Acceptable, StoredAs, CellOf, StoredRow, RowFits, ReplacesNarrow, Upserted;
    var hits := Scanned(keys);
    var rows := Overlaid(docs, hits, template);
    assert forall k :: k in hits ==> k in keys;
    RowsAccepted(env, rows);
    forall i | 0 <= i < |hits|
      ensures Acceptable(env, rows[i])
         <==> !env.pk.autoId && RowFits(env.meta, template, env.go) && ReplacesNarrow(env, docs[hits[i]], template)
    {
      OverlayAcceptedWhen(env, docs[hits[i]], template);
    }
    assert keys != [] ==> hits[0] in hits;
  }

  lemma {:induction false} RowsAccepted(env: Env, rows: seq<WriteRow>)
    ensures Accepts(env.meta, rows, env.go) <==> forall i :: 0 <= i < |rows| ==> Acceptable(env, rows[i])
  {
    hide RowFits;
    forall i | 0 <= i < |rows|
      ensures Acceptable(env, rows[i])
         <==> RowFits(env.meta, rows[i], env.go)
                && forall k :: 0 <= k < |env.meta.fields| && Required(env.meta.fields[k]) ==>
                     env.meta.fields[k].name in rows[i]
    {
      assert [rows[i]][0] == rows[i];
    }
  }

  // A stored row as a filter sees it. How the server reads a stored value is its own affair; it reads null
  // as no cell.
  function Seen(row: WriteRow, read: GoValue -> Milvus.Cell): Milvus.Row {
    f => if f in row && !row[f].Nil? then Some(read(row[f])) else None
  }

  // The rows the server selects when it is sent a plan's text.
  ghost function Selected(plan: Schema.Plan, server: Milvus.Server, read: GoValue -> Milvus.Cell): WriteRow -> bool {
    row => Emitted.TextSelects(plan, Seen(row, read), server)
  }

  // The whole statement: a text the server cannot read is an error before anything is written.
  ghost function StatementResult(env: Env, docs: Docs, order: seq<GoValue>, plan: Schema.Plan, server: Milvus.Server,
    read: GoValue -> Milvus.Cell, template: WriteRow): (Docs, Result<nat>)
    requires forall k :: k in order ==> k in docs
  {
    if Emitted.Understood(plan) then UpdateResult(env, docs, Select(docs, order, Selected(plan, server, read)),
      template)
    else (docs, Err(Internal))
  }

  // On which rows SQL takes a clause for true.
  ghost predicate Passes(p: PgWhere.Predicate, row: WriteRow, schema: Schema.Catalog, readers: Schema.Readers,
    server: Milvus.Server, read: GoValue -> Milvus.Cell)
  {
    PgExact.SqlTruth(p, Schema.World(Seen(row, read), server, schema, readers)).True?
  }

  /** UPDATE ... WHERE, at most 10000 matches and no harmful NULL. It goes through exactly when the server can
      read the literals of the clause and no row matches, or keys are not generated, the template fits the
      schema and replaces the narrow integers of every match. Then the rows rewritten are exactly those on
      which SQL takes the clause for true; otherwise nothing changes. */
  lemma {:induction false} UpdateWhere(env: Env, docs: Docs, order: seq<GoValue>, p: PgWhere.Predicate,
    schema: Schema.Catalog, readers: Schema.Readers, server: Milvus.Server, read: GoValue -> Milvus.Cell,
    template: WriteRow)
    requires env.Valid() && env.WellKept(docs) && env.pk.name !in template
    requires Distinct(order) && forall k :: k in order <==> k in docs
    requires PgExact.WellFormed(p) && PgExact.Harmless(p, true) && PgExact.PlanWhere(p, schema, readers).Ok?
    requires FiniteNumbers.Spellings(readers) && Emitted.Columned(PgWhere.Resolve(p).value)
    requires |Select(docs, order, Selected(PgExact.PlanWhere(p, schema, readers).value, server, read))|
          <= UPDATE_SCAN_LIMIT
    ensures var plan := PgExact.PlanWhere(p, schema, readers).value;
      var finite := FiniteNumbers.FiniteWhere(PgWhere.Fold(PgWhere.Resolve(p).value), schema, readers);
      var (after, count) := StatementResult(env, docs, order, plan, server, read, template);
      var fits := forall k :: k in docs && Passes(p, docs[k], schema, readers, server, read) ==>
        !env.pk.autoId && RowFits(env.meta, template, env.go) && ReplacesNarrow(env, docs[k], template);
      && (count.Ok? <==> finite && fits)
      && (count.Err? ==> after == docs)
      && (count.Ok? ==>
           && count.value == |Select(docs, order, Selected(plan, server, read))| && after.Keys == docs.Keys
           && forall k :: k in docs ==>
                if Passes(p, docs[k], schema, readers, server, read)
                then Rewritten(env, docs[k], template, after[k]) else after[k] == docs[k])
  {
    hide *;
    var plan := PgExact.PlanWhere(p, schema, readers).value;
    var keys := Select(docs, order, Selected(plan, server, read));
    PlanResolves(p, schema, readers);
    UpdateStatement(env, docs, order, Selected(plan, server, read), template);
    UpdateAcceptedWhen(env, docs, keys, template);
    ScannedWhole(keys);
    Emitted.SelectTextAnswers(p, Schema.World(_ => None, server, schema, readers));
    forall k | k in docs
      ensures Emitted.Understood(plan) ==>
        (Passes(p, docs[k], schema, readers, server, read) <==> Selected(plan, server, read)(docs[k]))
    {
      SelectedPasses(p, docs[k], schema, readers, server, read);
    }
    ResultIs(env, docs, order, plan, server, read, template);
    assert keys != [] ==> keys[0] in keys;
  }

  lemma {:induction false} ScannedWhole(keys: seq<GoValue>)
    ensures |keys| <= UPDATE_SCAN_LIMIT ==> Scanned(keys) == keys
  {
  }

  lemma {:induction false} ResultIs(env: Env, docs: Docs, order: seq<GoValue>, plan: Schema.Plan,
    server: Milvus.Server, read: GoValue -> Milvus.Cell, template: WriteRow)
    requires forall k :: k in order ==> k in docs
    ensures StatementResult(env, docs, order, plan, server, read, template)
         == if Emitted.Understood(plan)
            then UpdateResult(env, docs, Select(docs, order, Selected(plan, server, read)), template)
            else (docs, Err(Internal))
  {
  }

  // A row is selected by the text it is sent as exactly when SQL passes it.
  lemma {:induction false} SelectedPasses(p: PgWhere.Predicate, row: WriteRow, schema: Schema.Catalog,
    readers: Schema.Readers, server: Milvus.Server, read: GoValue -> Milvus.Cell)
    requires PgExact.WellFormed(p) && PgExact.Harmless(p, true) && PgExact.PlanWhere(p, schema, readers).Ok?
    requires PgWhere.Resolve(p).Ok? && Emitted.Columned(PgWhere.Resolve(p).value)
    requires FiniteNumbers.Spellings(readers)
    ensures var plan := PgExact.PlanWhere(p, schema, readers).value;
      Emitted.Understood(plan) ==>
        (Passes(p, row, schema, readers, server, read) <==> Selected(plan, server, read)(row))
  {
    hide PgExact.SqlTruth, PgExact.PlanWhere, PgExact.WellFormed, PgExact.Harmless, PgWhere.Resolve, Emitted.Columned,
      Emitted.TextSelects, Emitted.Understood, FiniteNumbers.FiniteWhere;
    Emitted.SelectTextAnswers(p, Schema.World(Seen(row, read), server, schema, readers));
  }

  lemma {:induction false} PlanResolves(p: PgWhere.Predicate, schema: Schema.Catalog, readers: Schema.Readers)
    requires PgExact.PlanWhere(p, schema, readers).Ok?
    ensures PgWhere.Resolve(p).Ok?
  {
  }

  /** Where the key is auto-generated, no UPDATE that matches a row goes through: the rows it writes back
      carry their keys. */
  lemma {:induction false} GeneratedKeysRefuseUpdate(env: Env, docs: Docs, keys: seq<GoValue>, template: WriteRow)
    requires env.Valid() && env.pk.autoId && env.WellKept(docs) && keys != []
    requires forall k :: k in keys ==> k in docs
    ensures UpdateResult(env, docs, keys, template) == (docs, Err(Illegal))
  {
    hide Env.Valid, Accepts, Acceptable, StoredAs, CellOf, StoredRow;
    var rows := Overlaid(docs, Scanned(keys), template);
    assert Scanned(keys)[0] in keys;
    if Accepts(env.meta, rows, env.go) {
      RowAccepted(env, rows, 0);
      MergedKeyIsNotGenerated(env, rows[0]);
    }
  }
}
