/** The stable sort of the fetched rows, in place, and the one order it can produce. */
module RowSort {
  import opened Rows

  predicate Less(a: Record, b: Record, sorts: seq<SortClause>, rt: Runtime) {
    CompareRows(a, b, sorts, rt) < 0
  }

  // The row goes behind everything it is not less than.
  function Insert(rows: seq<Record>, x: Record, sorts: seq<SortClause>, rt: Runtime): seq<Record> {
    if rows == [] || !Less(x, rows[|rows| - 1], sorts, rt) then rows + [x]
    else Insert(rows[..|rows| - 1], x, sorts, rt) + [rows[|rows| - 1]]
  }

  function StableSort(rows: seq<Record>, sorts: seq<SortClause>, rt: Runtime): (r: seq<Record>)
    ensures |r| == |rows|
  {
    if rows == [] then []
    else
      InsertLength(StableSort(rows[..|rows| - 1], sorts, rt), rows[|rows| - 1], sorts, rt);
      Insert(StableSort(rows[..|rows| - 1], sorts, rt), rows[|rows| - 1], sorts, rt)
  }

  lemma {:induction false} InsertLength(rows: seq<Record>, x: Record, sorts: seq<SortClause>, rt: Runtime)
    ensures |Insert(rows, x, sorts, rt)| == |rows| + 1
  {
    if rows != [] {
      InsertLength(rows[..|rows| - 1], x, sorts, rt);
    }
  }

  /** sort.SliceStable on short slices: an insertion sort by adjacent swaps. */
  method SliceStable(a: array<Record>, sorts: seq<SortClause>, rt: Runtime)
    modifies a
    ensures a[..] == StableSort(old(a[..]), sorts, rt)
  {
    hide Less, Insert, StableSort;
    ghost var rows := a[..];
    SortedNothing(sorts, rt);
    for i := 0 to a.Length
      invariant a[..i] == StableSort(rows[..i], sorts, rt) && a[i..] == rows[i..]
    {
      SortedStep(rows, i, sorts, rt);
      SwapDown(a, i, sorts, rt);
    }
    assert a[..a.Length] == a[..] && rows[..a.Length] == rows;
  }

  lemma SortedNothing(sorts: seq<SortClause>, rt: Runtime)
    ensures StableSort([], sorts, rt) == []
  {
  }

  lemma SortedStep(rows: seq<Record>, i: nat, sorts: seq<SortClause>, rt: Runtime)
    requires i < |rows|
    ensures StableSort(rows[..i + 1], sorts, rt) == Insert(StableSort(rows[..i], sorts, rt), rows[i], sorts, rt)
  {
    assert rows[..i + 1][..i] == rows[..i];
  }

  // The inner loop: row i moves down to its place among the first i rows.
  method SwapDown(a: array<Record>, i: nat, sorts: seq<SortClause>, rt: Runtime)
    requires i < a.Length
    modifies a
    ensures a[..i + 1] == Insert(old(a[..i]), old(a[i]), sorts, rt)
    ensures a[i + 1..] == old(a[i + 1..])
  {
    hide Less, Insert;
    ghost var rows, x, rest := a[..i], a[i], a[i + 1..];
    var j := i;
    assert rows[..i] == rows && rows[i..] == [];
    assert Insert(rows, x, sorts, rt) + [] == Insert(rows, x, sorts, rt);
    while j > 0 && Less(a[j], a[j - 1], sorts, rt)
      invariant j <= i
      invariant a[..j] == rows[..j] && a[j] == x && a[j + 1..i + 1] == rows[j..] && a[i + 1..] == rest
      invariant Insert(rows, x, sorts, rt) == Insert(rows[..j], x, sorts, rt) + rows[j..]
    {
      InsertBelow(rows, j, x, sorts, rt);
      assert a[j - 1] == rows[j - 1];
      ghost var moved := a[j + 1..i + 1];
      a[j], a[j - 1] := a[j - 1], a[j];
      assert a[j..i + 1] == [rows[j - 1]] + moved;
      assert [rows[j - 1]] + rows[j..] == rows[j - 1..];
      assert a[..j - 1] == rows[..j - 1];
      j := j - 1;
    }
    InsertHere(rows[..j], x, sorts, rt);
    assert j > 0 ==> a[j - 1] == rows[..j][|rows[..j]| - 1];
    assert a[..i + 1] == a[..j] + [a[j]] + a[j + 1..i + 1];
  }

  lemma InsertBelow(rows: seq<Record>, j: nat, x: Record, sorts: seq<SortClause>, rt: Runtime)
    requires 0 < j <= |rows| && Less(x, rows[j - 1], sorts, rt)
    ensures Insert(rows[..j], x, sorts, rt) + rows[j..] == Insert(rows[..j - 1], x, sorts, rt) + rows[j - 1..]
  {
    hide Less;
    assert rows[..j][..j - 1] == rows[..j - 1];
    assert [rows[j - 1]] + rows[j..] == rows[j - 1..];
  }

  lemma InsertHere(rows: seq<Record>, x: Record, sorts: seq<SortClause>, rt: Runtime)
    requires rows == [] || !Less(x, rows[|rows| - 1], sorts, rt)
    ensures Insert(rows, x, sorts, rt) == rows + [x]
  {
  }

  // ----- the order by sort keys, then primary key -----

  ghost predicate KeyLess(a: Record, b: Record, pk: string, rt: Runtime) {
    pk in a && pk in b && SameKind(a[pk], b[pk]) && CompareCell(a[pk], b[pk], rt) < 0
  }

  ghost predicate Before(a: Record, b: Record, sorts: seq<SortClause>, pk: string, rt: Runtime) {
    CompareRows(a, b, sorts, rt) < 0 || (CompareRows(a, b, sorts, rt) == 0 && KeyLess(a, b, pk, rt))
  }

  ghost predicate InKeyOrder(rows: seq<Record>, pk: string, rt: Runtime) {
    forall i, j :: 0 <= i < j < |rows| ==> KeyLess(rows[i], rows[j], pk, rt)
  }

  ghost predicate Ordered(rows: seq<Record>, sorts: seq<SortClause>, pk: string, rt: Runtime) {
    forall i, j :: 0 <= i < j < |rows| ==> Before(rows[i], rows[j], sorts, pk, rt)
  }

  ghost predicate AllUniform(rows: seq<Record>, sorts: seq<SortClause>) {
    forall a, b :: a in rows && b in rows ==> Uniform(a, b, sorts)
  }

  ghost predicate AllBefore(rows: seq<Record>, x: Record, sorts: seq<SortClause>, pk: string, rt: Runtime) {
    forall r :: r in rows ==> Before(r, x, sorts, pk, rt)
  }

  lemma {:induction false} InsertKeeps(rows: seq<Record>, x: Record, sorts: seq<SortClause>, rt: Runtime)
    ensures multiset(Insert(rows, x, sorts, rt)) == multiset(rows) + multiset{x}
  {
    hide Less;
    if rows != [] && Less(x, rows[|rows| - 1], sorts, rt) {
      InsertKeeps(rows[..|rows| - 1], x, sorts, rt);
      assert rows == rows[..|rows| - 1] + [rows[|rows| - 1]];
    }
  }

  lemma {:induction false} SortKeeps(rows: seq<Record>, sorts: seq<SortClause>, rt: Runtime)
    ensures multiset(StableSort(rows, sorts, rt)) == multiset(rows)
  {
    hide Insert;
    if rows != [] {
      var n := |rows| - 1;
      SortKeeps(rows[..n], sorts, rt);
      InsertKeeps(StableSort(rows[..n], sorts, rt), rows[n], sorts, rt);
      assert rows == rows[..n] + [rows[n]];
    }
  }

  lemma SameElements(a: seq<Record>, b: seq<Record>)
    requires multiset(a) == multiset(b)
    ensures forall r :: r in a <==> r in b
  {
    assert forall r :: r in a <==> r in multiset(a);
    assert forall r :: r in b <==> r in multiset(b);
  }

  lemma AppendOrders(rows: seq<Record>, x: Record, sorts: seq<SortClause>, pk: string, rt: Runtime)
    requires Ordered(rows, sorts, pk, rt) && AllBefore(rows, x, sorts, pk, rt)
    ensures Ordered(rows + [x], sorts, pk, rt)
  {
    hide Before;
    var all := rows + [x];
    forall i, j | 0 <= i < j < |all| ensures Before(all[i], all[j], sorts, pk, rt) {
      if j == |rows| {
        assert all[i] == rows[i] && rows[i] in rows;
      }
    }
  }

  lemma FewerUniform(rows: seq<Record>, all: seq<Record>, sorts: seq<SortClause>)
    requires AllUniform(all, sorts) && forall r :: r in rows ==> r in all
    ensures AllUniform(rows, sorts)
  {
    hide Uniform;
  }

  // A row that its last equal is not behind, and that follows all in key order, comes after all.
  lemma BehindAll(rows: seq<Record>, x: Record, sorts: seq<SortClause>, pk: string, rt: Runtime)
    requires rows != [] && AllUniform(rows + [x], sorts) && Ordered(rows, sorts, pk, rt)
    requires (forall r :: r in rows ==> KeyLess(r, x, pk, rt)) && !Less(x, rows[|rows| - 1], sorts, rt)
    ensures AllBefore(rows, x, sorts, pk, rt)
  {
    hide CompareRows, KeyLess, Uniform;
    var n := |rows| - 1;
    var last := rows[n];
    forall r | r in rows ensures Before(r, x, sorts, pk, rt) {
      var i :| 0 <= i <= n && rows[i] == r;
      assert r in rows + [x] && last in rows + [x] && x in rows + [x];
      RowsOpposite(last, x, sorts, rt);
      if i < n {
        RowsChain(r, last, x, sorts, rt);
      }
    }
  }

  // The last row stays behind everything, the row inserted below it included.
  lemma LastStays(rows: seq<Record>, x: Record, sorts: seq<SortClause>, pk: string, rt: Runtime)
    requires rows != [] && Ordered(rows, sorts, pk, rt) && Less(x, rows[|rows| - 1], sorts, rt)
    ensures AllBefore(Insert(rows[..|rows| - 1], x, sorts, rt), rows[|rows| - 1], sorts, pk, rt)
  {
    hide CompareRows, KeyLess, Insert;
    var n := |rows| - 1;
    InsertKeeps(rows[..n], x, sorts, rt);
    SameElements(Insert(rows[..n], x, sorts, rt), rows[..n] + [x]);
    forall r | r in rows[..n] + [x] ensures Before(r, rows[n], sorts, pk, rt) {
      if r != x {
        var i :| 0 <= i < n && rows[i] == r;
      }
    }
  }

  /** A row that follows all others in key order is inserted behind its equals. */
  lemma {:induction false} InsertOrders(rows: seq<Record>, x: Record, sorts: seq<SortClause>, pk: string, rt: Runtime)
    requires AllUniform(rows + [x], sorts) && Ordered(rows, sorts, pk, rt)
    requires forall r :: r in rows ==> KeyLess(r, x, pk, rt)
    ensures Ordered(Insert(rows, x, sorts, rt), sorts, pk, rt)
  {
    hide Less, KeyLess, AllUniform, Before;
    if rows == [] || !Less(x, rows[|rows| - 1], sorts, rt) {
      if rows != [] {
        BehindAll(rows, x, sorts, pk, rt);
      }
      AppendOrders(rows, x, sorts, pk, rt);
    } else {
      var n := |rows| - 1;
      assert forall r :: r in rows[..n] ==> r in rows;
      FewerUniform(rows[..n] + [x], rows + [x], sorts);
      InsertOrders(rows[..n], x, sorts, pk, rt);
      LastStays(rows, x, sorts, pk, rt);
      AppendOrders(Insert(rows[..n], x, sorts, rt), rows[n], sorts, pk, rt);
    }
  }

  /** Sorting rows that came in key order puts them in the order by sort keys, missing last, then key. */
  lemma {:induction false} SortOrders(rows: seq<Record>, sorts: seq<SortClause>, pk: string, rt: Runtime)
    requires AllUniform(rows, sorts) && InKeyOrder(rows, pk, rt)
    ensures Ordered(StableSort(rows, sorts, rt), sorts, pk, rt)
  {
    hide CompareRows, KeyLess, Uniform, Insert, Before;
    if rows != [] {
      var n := |rows| - 1;
      var x := rows[n];
      var front := StableSort(rows[..n], sorts, rt);
      assert forall r :: r in rows[..n] ==> r in rows;
      SortOrders(rows[..n], sorts, pk, rt);
      SortKeeps(rows[..n], sorts, rt);
      SameElements(front, rows[..n]);
      assert forall r :: r in front + [x] ==> r in rows;
      InsertOrders(front, x, sorts, pk, rt);
    }
  }

  /** Two arrangements of the same rows in that order are the same. */
  lemma {:induction false} OrderIsUnique(a: seq<Record>, b: seq<Record>, sorts: seq<SortClause>, pk: string,
    rt: Runtime)
    requires multiset(a) == multiset(b) && AllUniform(a, sorts)
    requires Ordered(a, sorts, pk, rt) && Ordered(b, sorts, pk, rt)
    ensures a == b
  {
    hide CompareRows, Uniform, KeyLess;
    SameElements(a, b);
    assert |a| == |multiset(a)| == |b|;
    if a != [] {
      assert a[0] in b && b[0] in a;
      SameFirst(a, b, sorts, pk, rt);
      assert a == [a[0]] + a[1..] && b == [b[0]] + b[1..];
      assert multiset(a[1..]) == multiset(a) - multiset{a[0]};
      assert multiset(b[1..]) == multiset(b) - multiset{b[0]};
      assert forall r :: r in a[1..] ==> r in a;
      OrderIsUnique(a[1..], b[1..], sorts, pk, rt);
    }
  }

  // The first rows of two such arrangements cannot each come before the other.
  lemma SameFirst(a: seq<Record>, b: seq<Record>, sorts: seq<SortClause>, pk: string, rt: Runtime)
    requires a != [] && b != [] && a[0] in b && b[0] in a && AllUniform(a, sorts)
    requires Ordered(a, sorts, pk, rt) && Ordered(b, sorts, pk, rt)
    ensures a[0] == b[0]
  {
    var i :| 0 <= i < |a| && a[i] == b[0];
    var j :| 0 <= j < |b| && b[j] == a[0];
    if i > 0 && j > 0 {
      assert a[0] in a && a[i] in a;
      NotBothBefore(a[0], b[0], sorts, pk, rt);
    }
  }

  lemma NotBothBefore(a: Record, b: Record, sorts: seq<SortClause>, pk: string, rt: Runtime)
    requires Uniform(a, b, sorts)
    ensures !(Before(a, b, sorts, pk, rt) && Before(b, a, sorts, pk, rt))
  {
    hide CompareRows, Uniform, CompareCell;
    RowsOpposite(a, b, sorts, rt);
    if KeyLess(a, b, pk, rt) {
      CellOpposite(a[pk], b[pk], rt);
    }
  }
}
