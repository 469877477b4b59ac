/** The handlers as they run: resolve the id, look the row up, validate, then call the store. */
module DocumentServer {
  import opened Wrappers
  import opened GoValues
  import opened StoreWrite
  import opened StoreColumns
  import opened StoredRows
  import opened NoopCheck
  import opened DocumentApi

  class Server {
    const env: Env
    var docs: Docs

    constructor (env: Env)
      ensures this.env == env && docs == map[]
    {
      this.env := env;
      docs := map[];
    }

    // Insert or Upsert of one row, under the key it is to be stored at.
    method Put(row: WriteRow, key: GoValue) returns (ok: bool)
      requires env.Valid()
      modifies this`docs
      ensures ok <==> Acceptable(env, row)
      ensures docs == if ok then old(docs)[key := StoredAs(env, row, key)] else old(docs)
    {
      var err, cols := WriteColumns(env.meta, [row], env.go);
      if err.Some? {
        return false;
      }
      ColumnsHoldRows(env, [row], cols, 0, key);
      docs := docs[key := RowAt(env, cols, 1, 0, key)];
      return true;
    }

    method Fetch(key: GoValue) returns (row: Option<WriteRow>)
      ensures row == if key in docs then Some(docs[key]) else None
    {
      return if key in docs then Some(docs[key]) else None;
    }

    // writeDocument
    method WriteDocument(c: Call) returns (outcome: Outcome)
      requires env.Valid() && c.Index?
      modifies this`docs
      ensures (docs, outcome) == IndexStep(env, old(docs), c)
    {
      hide Acceptable, StoredAs;
      if c.doc.None? {
        return Refused;
      }
      var row := c.doc.value;
      var id := ResolveDocumentId(env, row, c.urlId, c.generated);
      if id.Err? {
        return Refused;
      }
      if id.value.None? {
        var wrote := Put(row, c.freshKey);
        return if wrote then Created else Refused;
      }
      var key := id.value.value;
      var found := Fetch(key);
      var exists_ := found.Some?;
      if c.create && exists_ {
        return Conflict;
      }
      row := row[env.pk.name := key];
      var wrote := Put(row, key);
      return if !wrote then Refused else if exists_ then Updated else Created;
    }

    // updateDocument
    method UpdateDocument(c: Call) returns (outcome: Outcome)
      requires env.Valid() && c.Update?
      modifies this`docs
      ensures (docs, outcome) == UpdateStep(env, old(docs), c)
    {
      hide Acceptable, StoredAs, ValuesEqual, RowsEqual;
      if c.doc.None? {
        return Refused;
      }
      var docRow := c.doc.value;
      var parsed := ParseDocumentId(env, c.urlId);
      if parsed.Err? {
        return Refused;
      }
      if env.pk.name in docRow && !ValuesEqual(parsed.value, docRow[env.pk.name], env.go, env.decode) {
        return Refused;
      }
      var found := Fetch(parsed.value);
      if found.None? {
        return NotFound;
      }
      var merged := Overlay(found.value, docRow);
      var same := NoopCheck.CompareRows(found.value, merged, env.go, env.decode);
      if same {
        return Noop;
      }
      var wrote := Put(merged, CellOf(env.pk, merged, env.go));
      return if wrote then Updated else Refused;
    }
  }

  // The merge loops: the stored row, then the document's fields over it.
  method Overlay(stored: WriteRow, docRow: WriteRow) returns (merged: WriteRow)
    ensures merged == stored + docRow
  {
    merged := map[];
    merged := Assign(merged, stored);
    merged := Assign(merged, docRow);
    assert map[] + stored + docRow == stored + docRow;
  }

  method Assign(target: WriteRow, source: WriteRow) returns (merged: WriteRow)
    ensures merged == target + source
  {
    merged := target;
    var todo := source.Keys;
    while todo != {}
      invariant todo <= source.Keys
      invariant merged.Keys == target.Keys + (source.Keys - todo)
      invariant forall k :: k in merged ==>
        merged[k] == if k in source.Keys - todo then source[k] else target[k]
      decreases |todo|
    {
      var k :| k in todo;
      merged := merged[k := source[k]];
      todo := todo - {k};
    }
  }
}
