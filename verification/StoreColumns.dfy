/** columnOf, compact and writeColumns: the column form of the accepted rows loses nothing. */
module StoreColumns {
  import opened Wrappers
  import opened GoValues
  import opened StoreWrite
  import opened StoreWriteCells

  // A nullable column holds its non-null cells and a mask of where they belong; a plain one every cell.
  datatype Column = Column(name: string, native: Native, dim: nat, values: seq<GoValue>, valid: Option<seq<bool>>)

  function NonNil(cells: seq<GoValue>): (r: seq<GoValue>)
    ensures forall c :: c in r ==> !c.Nil? && c in cells
  {
    if cells == [] then [] else (if cells[0].Nil? then [] else [cells[0]]) + NonNil(cells[1..])
  }

  function Count(valid: seq<bool>): nat {
    if valid == [] then 0 else (if valid[0] then 1 else 0) + Count(valid[1..])
  }

  // Row by row, what a compact column stands for.
  function Expand(values: seq<GoValue>, valid: seq<bool>): seq<GoValue>
    requires |values| == Count(valid)
  {
    if valid == [] then []
    else if valid[0] then [values[0]] + Expand(values[1..], valid[1..])
    else [Nil] + Expand(values, valid[1..])
  }

  ghost predicate Decodable(c: Column) {
    c.valid.Some? ==> |c.values| == Count(c.valid.value)
  }

  function Decode(c: Column): seq<GoValue>
    requires Decodable(c)
  {
    if c.valid.None? then c.values else Expand(c.values, c.valid.value)
  }

  // The mask of the cells that are there.
  function Mask(cells: seq<GoValue>): (m: seq<bool>)
    ensures |m| == |cells| && forall i :: 0 <= i < |cells| ==> m[i] == !cells[i].Nil?
  {
    if cells == [] then [] else [!cells[0].Nil?] + Mask(cells[1..])
  }

  lemma NonNilStep(cells: seq<GoValue>)
    requires cells != []
    ensures cells[0].Nil? ==> NonNil(cells) == NonNil(cells[1..])
    ensures !cells[0].Nil? ==> NonNil(cells) == [cells[0]] + NonNil(cells[1..])
    ensures !cells[0].Nil? ==> NonNil(cells)[0] == cells[0] && NonNil(cells)[1..] == NonNil(cells[1..])
  {
    assert [] + NonNil(cells[1..]) == NonNil(cells[1..]);
  }

  /** Expanding the compact values by the mask gives back the cells in row order. */
  lemma {:induction false} ExpandInverts(cells: seq<GoValue>)
    ensures |NonNil(cells)| == Count(Mask(cells)) && Expand(NonNil(cells), Mask(cells)) == cells
  {
    if cells != [] {
      ExpandInverts(cells[1..]);
      NonNilStep(cells);
      assert Mask(cells)[1..] == Mask(cells[1..]);
      assert cells == [cells[0]] + cells[1..];
    }
  }

  lemma {:induction false} NothingDropped(cells: seq<GoValue>)
    requires forall c :: c in cells ==> !c.Nil?
    ensures NonNil(cells) == cells
  {
    if cells != [] {
      NothingDropped(cells[1..]);
      assert cells == [cells[0]] + cells[1..];
    }
  }

  lemma NoCells()
    ensures NonNil([]) == []
  {
  }

  // compact
  method Compact(cells: seq<GoValue>) returns (vals: seq<GoValue>)
    ensures vals == NonNil(cells)
  {
    hide NonNil;
    vals := [];
    NoCells();
    assert cells[0..] == cells && [] + NonNil(cells) == NonNil(cells);
    for i := 0 to |cells|
      invariant NonNil(cells) == vals + NonNil(cells[i..])
    {
      assert cells[i..][0] == cells[i] && cells[i..][1..] == cells[i + 1..];
      NonNilStep(cells[i..]);
      if !cells[i].Nil? {
        vals := vals + [cells[i]];
      }
    }
  }

  // The dimension a vector column is sent with.
  function SentDim(f: FieldMeta, values: seq<GoValue>): nat {
    if f.dim == 0 && |values| > 0 && values[0].Vector? then |values[0].xs| else f.dim
  }

  // A vector column has its field's dimension, or its vectors' where the field declares none.
  predicate DimFits(col: Column, f: FieldMeta) {
    f.native.TFloatVector? && (f.dim != 0 || col.values != []) ==>
      if f.dim != 0 then col.dim == f.dim else col.values[0].Vector? && col.dim == |col.values[0].xs|
  }

  lemma SentDimFits(f: FieldMeta, values: seq<GoValue>)
    requires forall v :: v in values ==> OfNative(v, f.native)
    ensures forall col: Column :: col.values == values && col.dim == SentDim(f, values) ==> DimFits(col, f)
  {
    assert values != [] ==> values[0] in values;
  }

  /** columnOf and plainColumnOf. Every value has the Go type the column is built from. */
  method ColumnOf(f: FieldMeta, cells: seq<GoValue>, present: seq<bool>) returns (col: Column)
    requires |present| == |cells| && !f.native.TOther?
    requires forall j :: 0 <= j < |cells| ==> cells[j].Nil? || (present[j] && OfNative(cells[j], f.native))
    requires !f.nullable ==> forall j :: 0 <= j < |cells| ==> !cells[j].Nil?
    ensures col.name == f.name && col.native == f.native && (col.valid.Some? <==> f.nullable)
    ensures Decodable(col) && Decode(col) == cells
    ensures f.nullable ==> col.valid == Some(Mask(cells))
    ensures !f.nullable ==> |col.values| == |cells|
    ensures forall v :: v in col.values ==> OfNative(v, f.native)
    ensures DimFits(col, f)
  {
    hide OfNative, SentDim, DimFits;
    var values := Compact(cells);
    SentDimFits(f, values);
    if !f.nullable {
      NothingDropped(cells);
      return Column(f.name, f.native, SentDim(f, values), values, None);
    }
    var valid := new bool[|present|];
    for i := 0 to |cells|
      invariant forall k :: 0 <= k < i ==> valid[k] == (present[k] && !cells[k].Nil?)
    {
      valid[i] := present[i] && !cells[i].Nil?;
    }
    assert valid[..] == Mask(cells);
    ExpandInverts(cells);
    return Column(f.name, f.native, SentDim(f, values), values, Some(valid[..]));
  }

  // ----- the columns of a write -----

  // Sent: every field but the generated key and those without a write encoding.
  predicate Sent(f: FieldMeta) {
    !f.autoId && !f.native.TOther?
  }

  function CellsOf(f: FieldMeta, rows: seq<WriteRow>, go: Go): (cells: seq<GoValue>)
    ensures |cells| == |rows| && forall j :: 0 <= j < |rows| ==> cells[j] == CellOf(f, rows[j], go)
  {
    seq(|rows|, j requires 0 <= j < |rows| => CellOf(f, rows[j], go))
  }

  ghost predicate Carries(col: Column, f: FieldMeta, rows: seq<WriteRow>, go: Go) {
    && col.name == f.name && col.native == f.native && (col.valid.Some? <==> f.nullable)
    && Decodable(col) && Decode(col) == CellsOf(f, rows, go)
    && (!f.nullable ==> |col.values| == |rows|) && DimFits(col, f)
    && forall v :: v in col.values ==> OfNative(v, f.native)
  }

  // The fields that are sent, in schema order.
  function SentFields(fields: seq<FieldMeta>): seq<FieldMeta> {
    if fields == [] then [] else (if Sent(fields[0]) then [fields[0]] else []) + SentFields(fields[1..])
  }

  ghost predicate AllCarry(cols: seq<Column>, fields: seq<FieldMeta>, rows: seq<WriteRow>, go: Go) {
    |cols| == |fields| && forall i :: 0 <= i < |cols| ==> Carries(cols[i], fields[i], rows, go)
  }

  /** A field without a write encoding that is not sent at all lost nothing: no accepted row has a value for it. */
  lemma UnsentIsEmpty(meta: Meta, rows: seq<WriteRow>, f: FieldMeta, go: Go)
    requires Accepts(meta, rows, go) && f in meta.fields && !Sent(f)
    ensures forall c :: c in CellsOf(f, rows, go) ==> c == Nil
  {
    var i :| 0 <= i < |meta.fields| && meta.fields[i] == f;
    forall j | 0 <= j < |rows| ensures CellOf(f, rows[j], go) == Nil {
      assert RowFits(meta, rows[j], go);
    }
  }

  lemma AcceptedCells(meta: Meta, rows: seq<WriteRow>, i: nat, go: Go)
    requires Accepts(meta, rows, go) && i < |meta.fields| && Sent(meta.fields[i])
    ensures forall j :: 0 <= j < |rows| ==>
      var f, c := meta.fields[i], CellOf(meta.fields[i], rows[j], go);
      && (c.Nil? ==> f.nullable)
      && (!c.Nil? ==> f.name in rows[j] && OfNative(c, f.native))
  {
    hide WriteValue, OfNative;
    forall j | 0 <= j < |rows|
      ensures var f, c := meta.fields[i], CellOf(meta.fields[i], rows[j], go);
        (c.Nil? ==> f.nullable) && (!c.Nil? ==> f.name in rows[j] && OfNative(c, f.native))
    {
      var f := meta.fields[i];
      assert RowFits(meta, rows[j], go);
      if f.name in rows[j] {
        AcceptedIsTyped(f, rows[j][f.name], go);
      }
    }
  }

  ghost predicate AllFilled(meta: Meta, rows: seq<WriteRow>, cells: array2<GoValue>, present: array2<bool>, go: Go)
    requires cells.Length0 == present.Length0 == |meta.fields| && cells.Length1 == present.Length1 == |rows|
    reads cells, present
  {
    forall r :: 0 <= r < |rows| ==> Filled(meta, rows[r], r, cells, present, go)
  }

  // The column of one field, from its line of each matrix.
  method FieldColumn(meta: Meta, ghost rows: seq<WriteRow>, i: nat, cells: array2<GoValue>, present: array2<bool>,
    ghost go: Go)
    returns (col: Column)
    requires cells.Length0 == present.Length0 == |meta.fields| && cells.Length1 == present.Length1 == |rows|
    requires Accepts(meta, rows, go) && AllFilled(meta, rows, cells, present, go)
    requires i < |meta.fields| && Sent(meta.fields[i])
    ensures Carries(col, meta.fields[i], rows, go)
  {
    hide Accepts, CellOf, Filled;
    var line := seq(cells.Length1, j requires 0 <= j < cells.Length1 reads cells => cells[i, j]);
    var there := seq(cells.Length1, j requires 0 <= j < cells.Length1 reads present => present[i, j]);
    LineIs(meta, rows, i, cells, present, line, there, go);
    AcceptedCells(meta, rows, i, go);
    col := ColumnOf(meta.fields[i], line, there);
    ColumnCarries(col, meta.fields[i], rows, go);
  }

  /** writeColumns: rejected rows send nothing; accepted ones send, for every field there is an encoding for,
      a column that decodes to the rows' cells. */
  method WriteColumns(meta: Meta, rows: seq<WriteRow>, go: Go) returns (err: Option<Rejection>, cols: seq<Column>)
    requires meta.Valid()
    ensures err.None? <==> Accepts(meta, rows, go)
    ensures err.Some? ==> Justified(meta, rows, err.value, go) && cols == []
    ensures err.None? ==> AllCarry(cols, SentFields(meta.fields), rows, go)
  {
    hide Accepts, Justified, Carries, SentFields, AllFilled, AllCarry;
    var cells, present;
    err, cells, present := ValidateWriteCells(meta, rows, go);
    cols := [];
    if err.Some? {
      return;
    }
    ghost var sent: seq<FieldMeta> := [];
    SentStart(meta, rows, cells, present, go);
    for i := 0 to |meta.fields|
      invariant SentFields(meta.fields) == sent + SentFields(meta.fields[i..])
      invariant AllCarry(cols, sent, rows, go) && AllFilled(meta, rows, cells, present, go)
    {
      var f := meta.fields[i];
      SentStep(meta.fields, i, sent);
      if f.autoId || f.native.TOther? {
        continue;
      }
      var col := FieldColumn(meta, rows, i, cells, present, go);
      CarryStep(cols, sent, col, f, rows, go);
      cols, sent := cols + [col], sent + [f];
    }
    SentEnd(meta.fields, sent);
  }

  lemma SentStart(meta: Meta, rows: seq<WriteRow>, cells: array2<GoValue>, present: array2<bool>, go: Go)
    requires cells.Length0 == present.Length0 == |meta.fields| && cells.Length1 == present.Length1 == |rows|
    requires forall r :: 0 <= r < |rows| ==> Filled(meta, rows[r], r, cells, present, go)
    ensures SentFields(meta.fields) == [] + SentFields(meta.fields[0..]) && AllCarry([], [], rows, go)
    ensures AllFilled(meta, rows, cells, present, go)
  {
    hide Filled;
    assert meta.fields[0..] == meta.fields && [] + SentFields(meta.fields) == SentFields(meta.fields);
  }

  lemma SentStep(fields: seq<FieldMeta>, i: nat, sent: seq<FieldMeta>)
    requires i < |fields| && SentFields(fields) == sent + SentFields(fields[i..])
    ensures SentFields(fields)
         == (if Sent(fields[i]) then sent + [fields[i]] else sent) + SentFields(fields[i + 1..])
  {
    assert fields[i..][0] == fields[i] && fields[i..][1..] == fields[i + 1..];
  }

  lemma CarryStep(cols: seq<Column>, sent: seq<FieldMeta>, col: Column, f: FieldMeta, rows: seq<WriteRow>, go: Go)
    requires AllCarry(cols, sent, rows, go) && Carries(col, f, rows, go)
    ensures AllCarry(cols + [col], sent + [f], rows, go)
  {
    hide Carries;
  }

  lemma SentEnd(fields: seq<FieldMeta>, sent: seq<FieldMeta>)
    requires SentFields(fields) == sent + SentFields(fields[|fields|..])
    ensures SentFields(fields) == sent
  {
  }

  lemma ColumnCarries(col: Column, f: FieldMeta, rows: seq<WriteRow>, go: Go)
    requires col.name == f.name && col.native == f.native && (col.valid.Some? <==> f.nullable)
    requires Decodable(col) && Decode(col) == CellsOf(f, rows, go) && (!f.nullable ==> |col.values| == |rows|)
    requires DimFits(col, f) && forall v :: v in col.values ==> OfNative(v, f.native)
    ensures Carries(col, f, rows, go)
  {
  }

  lemma LineIs(meta: Meta, rows: seq<WriteRow>, i: nat, cells: array2<GoValue>, present: array2<bool>,
               line: seq<GoValue>, there: seq<bool>, go: Go)
    requires cells.Length0 == present.Length0 == |meta.fields| && cells.Length1 == present.Length1 == |rows|
    requires i < |meta.fields| && |line| == |there| == |rows|
    requires AllFilled(meta, rows, cells, present, go)
    requires forall r :: 0 <= r < |rows| ==> line[r] == cells[i, r] && there[r] == present[i, r]
    ensures line == CellsOf(meta.fields[i], rows, go)
    ensures forall r :: 0 <= r < |rows| ==> there[r] == (meta.fields[i].name in rows[r])
  {
    hide CellOf;
    forall r | 0 <= r < |rows|
      ensures line[r] == CellOf(meta.fields[i], rows[r], go) && there[r] == (meta.fields[i].name in rows[r])
    {
      assert Filled(meta, rows[r], r, cells, present, go);
    }
  }
}
