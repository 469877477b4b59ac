/** The store's side of a write: the columns it is sent, row by row. */
module StoredRows {
  import opened Wrappers
  import opened GoValues
  import opened StoreWrite
  import opened StoreColumns
  import opened DocumentApi

  function ColumnNamed(cols: seq<Column>, name: string): (r: Option<Column>)
    ensures r.Some? ==> r.value in cols && r.value.name == name
    ensures r.None? ==> forall c :: c in cols ==> c.name != name
  {
    if cols == [] then None
    else if cols[0].name == name then Some(cols[0])
    else ColumnNamed(cols[1..], name)
  }

  // Columns of n cells each.
  ghost predicate Tall(cols: seq<Column>, n: nat) {
    forall c :: c in cols ==> Decodable(c) && |Decode(c)| == n
  }

  // Row j as the store reads it off the columns: the given key for a generated one, null where no column came.
  function RowAt(env: Env, cols: seq<Column>, n: nat, j: nat, key: GoValue): WriteRow
    requires Tall(cols, n) && j < n
  {
    map name | name in env.Names() ::
      if env.pk.autoId && name == env.pk.name then key
      else match ColumnNamed(cols, name) case None => Nil case Some(c) => Decode(c)[j]
  }

  lemma {:induction false} SentAre(fields: seq<FieldMeta>)
    ensures forall f :: f in SentFields(fields) <==> f in fields && Sent(f)
  {
    if fields != [] {
      SentAre(fields[1..]);
    }
  }

  lemma {:induction false} CarriedAreTall(cols: seq<Column>, fields: seq<FieldMeta>, rows: seq<WriteRow>, go: Go)
    requires AllCarry(cols, fields, rows, go)
    ensures Tall(cols, |rows|)
  {
    hide Decode, Decodable;
  }

  /** Nothing is lost on the way: the row the store reads off the columns of an accepted write is the row's
      cells under its key. */
  lemma {:induction false} ColumnsHoldRows(env: Env, rows: seq<WriteRow>, cols: seq<Column>, j: nat, key: GoValue)
    requires env.Valid() && Accepts(env.meta, rows, env.go) && j < |rows|
    requires AllCarry(cols, SentFields(env.meta.fields), rows, env.go)
    ensures Tall(cols, |rows|) && RowAt(env, cols, |rows|, j, key) == StoredAs(env, rows[j], key)
  {
    hide Accepts, CellOf, Decode, Decodable, Env.Valid;
    CarriedAreTall(cols, SentFields(env.meta.fields), rows, env.go);
    var row := RowAt(env, cols, |rows|, j, key);
    forall name | name in env.Names() ensures row[name] == StoredAs(env, rows[j], key)[name] {
      var f := FieldNamed(env.meta.fields, name);
      if !(env.pk.autoId && name == env.pk.name) {
        CellArrives(env, rows, cols, f, j);
      }
    }
  }

  lemma {:induction false} CellArrives(env: Env, rows: seq<WriteRow>, cols: seq<Column>, f: FieldMeta, j: nat)
    requires env.Valid() && Accepts(env.meta, rows, env.go) && j < |rows| && f in env.meta.fields
    requires AllCarry(cols, SentFields(env.meta.fields), rows, env.go) && Tall(cols, |rows|)
    ensures CellOf(f, rows[j], env.go)
         == match ColumnNamed(cols, f.name) case None => Nil case Some(c) => Decode(c)[j]
  {
    hide Accepts, CellOf, Decode, Decodable, Go.Faithful;
    var sent := SentFields(env.meta.fields);
    SentAre(env.meta.fields);
    FieldIs(env, f);
    if Sent(f) {
      var i :| 0 <= i < |sent| && sent[i] == f;
      assert cols[i] in cols && cols[i].name == f.name;
    }
    match ColumnNamed(cols, f.name) {
      case Some(c) =>
        var i :| 0 <= i < |cols| && cols[i] == c;
        assert sent[i] in sent;
        FieldIs(env, sent[i]);
      case None =>
        UnsentIsEmpty(env.meta, rows, f, env.go);
        assert CellsOf(f, rows, env.go)[j] in CellsOf(f, rows, env.go);
    }
  }
}
