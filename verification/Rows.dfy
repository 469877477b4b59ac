/** Fetched rows and the order a sort puts them in (internal/store/milvus.go). */
module Rows {
  import opened Wrappers
  import opened Milvus

  // A field that is absent was not fetched, or is null.
  type Record = map<string, Cell>

  function AsRow(r: Record): Row {
    f => if f in r then Some(r[f]) else None
  }

  datatype SortClause = SortClause(field: string, desc: bool)

  // What Go's runtime decides: an integer's nearest float64 and a cell's printed text.
  datatype Runtime = Runtime(nearest: int -> real, show: Cell -> string)

  // strings.Compare
  function CompareText(a: string, b: string): int {
    if a == "" && b == "" then 0
    else if a == "" then -1
    else if b == "" then 1
    else if a[0] < b[0] then -1
    else if a[0] > b[0] then 1
    else CompareText(a[1..], b[1..])
  }

  // compareFloat
  function CompareReal(a: real, b: real): int {
    if a < b then -1 else if a > b then 1 else 0
  }

  // compareScalar: natively among strings, 64-bit integers, doubles and booleans, else as printed text.
  function CompareCell(a: Cell, b: Cell, rt: Runtime): int {
    match (a, b)
    case (StrCell(x), StrCell(y)) => CompareText(x, y)
    case (IntCell(x), IntCell(y)) => if x < y then -1 else if x > y then 1 else 0
    case (IntCell(x), RealCell(y)) => CompareReal(rt.nearest(x), y)
    case (RealCell(x), RealCell(y)) => CompareReal(x, y)
    case (RealCell(x), IntCell(y)) => CompareReal(x, rt.nearest(y))
    case (BoolCell(x), BoolCell(y)) => if !x && y then -1 else if x && !y then 1 else 0
    case _ => CompareText(rt.show(a), rt.show(b))
  }

  // One clause of compareRows: a missing value sorts last either way.
  function CompareClause(a: Record, b: Record, c: SortClause, rt: Runtime): int {
    if c.field !in a && c.field !in b then 0
    else if c.field !in a then 1
    else if c.field !in b then -1
    else if c.desc then -CompareCell(a[c.field], b[c.field], rt)
    else CompareCell(a[c.field], b[c.field], rt)
  }

  // compareRows: the first clause that differs decides.
  function CompareRows(a: Record, b: Record, sorts: seq<SortClause>, rt: Runtime): int {
    if sorts == [] then 0
    else
      var first := CompareClause(a, b, sorts[0], rt);
      if first != 0 then first else CompareRows(a, b, sorts[1..], rt)
  }

  // ----- it is an order -----

  predicate SameKind(a: Cell, b: Cell) {
    || (a.StrCell? && b.StrCell?) || (a.IntCell? && b.IntCell?) || (a.RealCell? && b.RealCell?)
    || (a.BoolCell? && b.BoolCell?) || (a.OtherCell? && b.OtherCell?)
  }

  // The cells of a sorted column are all of one kind.
  ghost predicate Uniform(a: Record, b: Record, sorts: seq<SortClause>) {
    forall c :: c in sorts && c.field in a && c.field in b ==> SameKind(a[c.field], b[c.field])
  }

  ghost predicate Opposite(x: int, y: int) {
    (x < 0 <==> y > 0) && (x > 0 <==> y < 0)
  }

  lemma {:induction false} TextOpposite(a: string, b: string)
    ensures Opposite(CompareText(a, b), CompareText(b, a)) && (CompareText(a, b) == 0 <==> a == b)
  {
    if a != "" && b != "" && a[0] == b[0] {
      TextOpposite(a[1..], b[1..]);
      assert a == [a[0]] + a[1..] && b == [b[0]] + b[1..];
    }
  }

  // At most, and strictly if one of the two steps was.
  ghost predicate Chains(ab: int, bc: int, ac: int) {
    ab <= 0 && bc <= 0 ==> ac <= 0 && (ab < 0 || bc < 0 ==> ac < 0)
  }

  lemma {:induction false} TextChains(a: string, b: string, c: string)
    ensures Chains(CompareText(a, b), CompareText(b, c), CompareText(a, c))
  {
    if a != "" && b != "" && c != "" && a[0] == b[0] == c[0] {
      TextChains(a[1..], b[1..], c[1..]);
    }
  }

  lemma CellOpposite(a: Cell, b: Cell, rt: Runtime)
    requires SameKind(a, b)
    ensures Opposite(CompareCell(a, b, rt), CompareCell(b, a, rt))
  {
    match a {
      case StrCell(x) => TextOpposite(x, b.str);
      case OtherCell(_) => TextOpposite(rt.show(a), rt.show(b));
      case _ =>
    }
  }

  lemma CellChains(a: Cell, b: Cell, c: Cell, rt: Runtime)
    requires SameKind(a, b) && SameKind(b, c)
    ensures Chains(CompareCell(a, b, rt), CompareCell(b, c, rt), CompareCell(a, c, rt))
  {
    match a {
      case StrCell(x) => TextChains(x, b.str, c.str);
      case OtherCell(_) => TextChains(rt.show(a), rt.show(b), rt.show(c));
      case _ =>
    }
  }

  lemma ClauseOpposite(a: Record, b: Record, c: SortClause, rt: Runtime)
    requires Uniform(a, b, [c])
    ensures Opposite(CompareClause(a, b, c, rt), CompareClause(b, a, c, rt))
  {
    hide CompareCell;
    assert c in [c];
    if c.field in a && c.field in b {
      CellOpposite(a[c.field], b[c.field], rt);
    }
  }

  lemma ClauseChains(a: Record, b: Record, d: Record, c: SortClause, rt: Runtime)
    requires Uniform(a, b, [c]) && Uniform(b, d, [c]) && Uniform(a, d, [c])
    ensures Chains(CompareClause(a, b, c, rt), CompareClause(b, d, c, rt), CompareClause(a, d, c, rt))
  {
    hide CompareCell;
    assert c in [c];
    if c.field in a && c.field in b && c.field in d {
      var x, y, z := a[c.field], b[c.field], d[c.field];
      CellChains(x, y, z, rt);
      CellChains(z, y, x, rt);
      CellOpposite(x, y, rt);
      CellOpposite(y, z, rt);
      CellOpposite(x, z, rt);
    }
  }

  /** Among rows whose sorted columns are of one kind, compareRows is a total preorder: antisymmetric ... */
  lemma {:induction false} RowsOpposite(a: Record, b: Record, sorts: seq<SortClause>, rt: Runtime)
    requires Uniform(a, b, sorts)
    ensures Opposite(CompareRows(a, b, sorts, rt), CompareRows(b, a, sorts, rt))
  {
    hide CompareClause;
    if sorts != [] {
      ClauseOpposite(a, b, sorts[0], rt);
      RowsOpposite(a, b, sorts[1..], rt);
    }
  }

  /** ... and transitive, strictly where one step is strict. */
  lemma {:induction false} RowsChain(a: Record, b: Record, d: Record, sorts: seq<SortClause>, rt: Runtime)
    requires Uniform(a, b, sorts) && Uniform(b, d, sorts) && Uniform(a, d, sorts)
    ensures Chains(CompareRows(a, b, sorts, rt), CompareRows(b, d, sorts, rt), CompareRows(a, d, sorts, rt))
  {
    hide CompareClause;
    if sorts != [] {
      var c := sorts[0];
      ClauseChains(a, b, d, c, rt);
      ClauseChains(d, b, a, c, rt);
      ClauseOpposite(a, b, c, rt);
      ClauseOpposite(b, d, c, rt);
      ClauseOpposite(a, d, c, rt);
      RowsChain(a, b, d, sorts[1..], rt);
    }
  }
}
