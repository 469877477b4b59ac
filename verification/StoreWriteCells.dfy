/** validateWriteCells and columnOf as they run: two matrices filled in place, row by row in whatever order
    a map hands out its keys, then one column per field. */
module StoreWriteCells {
  import opened Wrappers
  import opened GoValues
  import opened StoreWrite

  // Column r of the matrices says what the row supplied.
  ghost predicate Filled(meta: Meta, row: WriteRow, r: nat, cells: array2<GoValue>, present: array2<bool>, go: Go)
    requires cells.Length0 == present.Length0 == |meta.fields| && r < cells.Length1 == present.Length1
    reads cells, present
  {
    forall i :: 0 <= i < |meta.fields| ==>
      present[i, r] == (meta.fields[i].name in row) && cells[i, r] == CellOf(meta.fields[i], row, go)
  }

  method FillRow(meta: Meta, byName: map<string, nat>, row: WriteRow, r: nat, cells: array2<GoValue>,
                 present: array2<bool>, go: Go)
    returns (err: Option<Rejection>)
    requires meta.Valid()
    requires forall n :: n in byName <==> Known(meta, n)
    requires forall n :: n in byName ==> byName[n] < |meta.fields| && meta.fields[byName[n]].name == n
    requires cells.Length0 == present.Length0 == |meta.fields| && r < cells.Length1 == present.Length1
    requires forall i :: 0 <= i < |meta.fields| ==> !present[i, r] && cells[i, r] == Nil
    modifies cells, present
    ensures err.None? <==> RowFits(meta, row, go)
    ensures err.None? ==> Filled(meta, row, r, cells, present, go)
    ensures err.Some? ==> !err.value.reason.Missing? && RowJustifies(meta, row, err.value, go)
    ensures forall i, j :: 0 <= i < cells.Length0 && 0 <= j < cells.Length1 && j != r ==>
      cells[i, j] == old(cells[i, j]) && present[i, j] == old(present[i, j])
  {
    hide WriteValue, Known, CellOf, Fits, CellViolates;
    var todo := row.Keys;
    while todo != {}
      invariant todo <= row.Keys
      invariant forall n :: n in row.Keys - todo ==> Fits(meta, n, row[n], go)
      invariant forall i :: 0 <= i < |meta.fields| ==>
        if meta.fields[i].name in row.Keys - todo
        then present[i, r] && WriteValue(meta.fields[i], row[meta.fields[i].name], go) == Good(cells[i, r])
        else !present[i, r] && cells[i, r] == Nil
      invariant forall i, j :: 0 <= i < cells.Length0 && 0 <= j < cells.Length1 && j != r ==>
        cells[i, j] == old(cells[i, j]) && present[i, j] == old(present[i, j])
      decreases |todo|
    {
      var name :| name in todo;
      var i, checked := CheckCell(meta, byName, name, row[name], go);
      if checked.Bad? {
        return Some(Rejection(checked.reason, name));
      }
      cells[i, r], present[i, r] := checked.cell, true;
      todo := todo - {name};
    }
    FillDone(meta, row, r, cells, present, go);
    return None;
  }

  lemma FillDone(meta: Meta, row: WriteRow, r: nat, cells: array2<GoValue>, present: array2<bool>, go: Go)
    requires cells.Length0 == present.Length0 == |meta.fields| && r < cells.Length1 == present.Length1
    requires forall i :: 0 <= i < |meta.fields| ==>
      if meta.fields[i].name in row
      then present[i, r] && WriteValue(meta.fields[i], row[meta.fields[i].name], go) == Good(cells[i, r])
      else !present[i, r] && cells[i, r] == Nil
    ensures Filled(meta, row, r, cells, present, go)
  {
    hide WriteValue;
  }

  /** The verdict does not depend on the order the cells are visited in, and any rejection names a violation
      that is really there. Accepted rows leave what they supplied in the matrices. */
  method ValidateWriteCells(meta: Meta, rows: seq<WriteRow>, go: Go)
    returns (err: Option<Rejection>, cells: array2<GoValue>, present: array2<bool>)
    requires meta.Valid()
    ensures fresh(cells) && fresh(present)
    ensures cells.Length0 == present.Length0 == |meta.fields| && cells.Length1 == present.Length1 == |rows|
    ensures err.None? <==> Accepts(meta, rows, go)
    ensures err.Some? ==> Justified(meta, rows, err.value, go)
    ensures err.None? ==> forall r :: 0 <= r < |rows| ==> Filled(meta, rows[r], r, cells, present, go)
  {
    hide WriteValue, Known, RowFits, RowJustifies;
    var byName := IndexByName(meta);
    cells := new GoValue[|meta.fields|, |rows|]((_, _) => Nil);
    present := new bool[|meta.fields|, |rows|]((_, _) => false);
    for r := 0 to |rows|
      invariant forall k :: 0 <= k < r ==> RowFits(meta, rows[k], go) && Filled(meta, rows[k], k, cells, present, go)
      invariant forall i, j :: 0 <= i < |meta.fields| && r <= j < |rows| ==> !present[i, j] && cells[i, j] == Nil
    {
      err := FillRow(meta, byName, rows[r], r, cells, present, go);
      if err.Some? {
        return;
      }
    }
    err := FindMissing(meta, rows, cells, present, go);
  }

  method FindMissing(meta: Meta, rows: seq<WriteRow>, ghost cells: array2<GoValue>, present: array2<bool>, ghost go: Go)
    returns (err: Option<Rejection>)
    requires cells.Length0 == present.Length0 == |meta.fields| && cells.Length1 == present.Length1 == |rows|
    requires forall r :: 0 <= r < |rows| ==> RowFits(meta, rows[r], go) && Filled(meta, rows[r], r, cells, present, go)
    ensures err.None? <==> Accepts(meta, rows, go)
    ensures err.Some? ==> Justified(meta, rows, err.value, go)
  {
    hide WriteValue, Known, RowFits;
    for i := 0 to |meta.fields|
      invariant forall k, r :: 0 <= k < i && 0 <= r < |rows| && Required(meta.fields[k]) ==> present[k, r]
    {
      var f := meta.fields[i];
      if f.autoId {
        continue;
      }
      for r := 0 to |rows|
        invariant !f.nullable ==> forall k :: 0 <= k < r ==> present[i, k]
      {
        if !present[i, r] && !f.nullable {
          assert Filled(meta, rows[r], r, cells, present, go);
          assert Misses(meta, rows[r], f.name);
          assert RowJustifies(meta, rows[r], Rejection(Missing, f.name), go);
          return Some(Rejection(Missing, f.name));
        }
      }
    }
    forall i, r | 0 <= i < |meta.fields| && 0 <= r < |rows| && Required(meta.fields[i])
      ensures meta.fields[i].name in rows[r]
    {
      assert Filled(meta, rows[r], r, cells, present, go);
    }
    return None;
  }
}
