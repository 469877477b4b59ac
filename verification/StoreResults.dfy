/** What a search result is worth: the one order its hits can have, when its total is the number of
    matches, and pages that tile. */
module StoreResults {
  import opened Milvus
  import opened Rows
  import opened RowSort
  import opened Store
  import opened StoreSearch

  /** The sorted matches are the matches in the order by sort keys, missing last, then primary key; and
      that order has only this one arrangement. */
  lemma SortedMatches(coll: Collection, e: Expr, sorts: seq<SortClause>, arranged: seq<Record>)
    requires coll.Valid() && AllUniform(coll.Matching(e), sorts)
    ensures (multiset(arranged) == multiset(coll.Matching(e)) && Ordered(arranged, sorts, coll.pk, coll.rt))
       <==> arranged == StableSort(coll.Matching(e), sorts, coll.rt)
  {
    hide InKeyOrder, AllUniform, Ordered, StableSort;
    var matches := coll.Matching(e);
    SelectInOrder(coll.rows, r => coll.Selects(e, r), coll.pk, coll.rt);
    SortOrders(matches, sorts, coll.pk, coll.rt);
    SortKeeps(matches, sorts, coll.rt);
    if multiset(arranged) == multiset(matches) && Ordered(arranged, sorts, coll.pk, coll.rt) {
      SameElements(arranged, matches);
      FewerUniform(arranged, matches, sorts);
      OrderIsUnique(arranged, StableSort(matches, sorts, coll.rt), sorts, coll.pk, coll.rt);
    }
  }

  /** A hit's id is its key: the string it is, or the digits of the number. */
  lemma {:induction false} HitIdIsKey(key: Cell, rt: Runtime)
    ensures key.StrCell? ==> HitId(key, rt) == key.str
    ensures key.IntCell? ==> IntegerOf(HitId(key, rt)) == key.number
  {
    if key.IntCell? {
      DecimalReads(key.number);
    }
  }

  /** So two hits of one search never share an id. */
  lemma {:induction false} HitIdsDiffer(coll: Collection, a: Record, b: Record)
    requires coll.Valid() && a in coll.rows && b in coll.rows && SameKind(a[coll.pk], b[coll.pk])
    ensures HitId(a[coll.pk], coll.rt) == HitId(b[coll.pk], coll.rt) ==> a[coll.pk] == b[coll.pk]
  {
    hide HitId;
    HitIdIsKey(a[coll.pk], coll.rt);
    HitIdIsKey(b[coll.pk], coll.rt);
  }

  /** The total is the number of matches if and only if: sorted, the request wants some row or nothing
      matches; unsorted, it wants no row or the offset is not past the end. */
  lemma TotalExactWhen(matches: seq<Record>, req: Request)
    ensures Total(|FetchedRows(matches, req)|, |matches|, req) == |matches| <==>
      if |req.sorts| > 0 then req.limit > 0 || matches == [] else req.limit == 0 || req.offset <= |matches|
  {
  }

  /** A page that brought something back, or started at the beginning, tells the exact total. */
  lemma SeenPageIsExact(matches: seq<Record>, req: Request)
    requires req.sorts == [] && (FetchedRows(matches, req) != [] || req.offset == 0)
    ensures Total(|FetchedRows(matches, req)|, |matches|, req) == |matches|
  {
    TotalExactWhen(matches, req);
  }

  /** Two windows that meet are one. */
  lemma WindowsMeet(rows: seq<Record>, offset: nat, first: nat, second: nat)
    ensures Window(rows, offset, first) + Window(rows, offset + first, second) == Window(rows, offset, first + second)
  {
  }

  // The first n pages of a size, one after another.
  function Pages(rows: seq<Record>, size: nat, n: nat): seq<Record> {
    if n == 0 then [] else Pages(rows, size, n - 1) + Window(rows, (n - 1) * size, size)
  }

  /** Pages leave no gap and overlap nowhere; enough of them are all the rows. */
  lemma {:induction false} PagesTile(rows: seq<Record>, size: nat, n: nat)
    ensures Pages(rows, size, n) == Window(rows, 0, n * size)
    ensures n * size >= |rows| ==> Pages(rows, size, n) == rows
  {
    hide Window;
    WholeWindow(rows, n * size);
    if n == 0 {
      assert Window(rows, 0, 0) == [] by { NoWindow(rows); }
    } else {
      PagesTile(rows, size, n - 1);
      var seen := (n - 1) * size;
      assert n * size == seen + size;
      WindowsMeet(rows, 0, seen, size);
    }
  }

  lemma NoWindow(rows: seq<Record>)
    ensures Window(rows, 0, 0) == []
  {
  }

  lemma WholeWindow(rows: seq<Record>, limit: nat)
    ensures limit >= |rows| ==> Window(rows, 0, limit) == rows
  {
  }

  /** Requests that differ only in their window share one order: consecutive pages are consecutive
      stretches of it. */
  lemma PagedSearchTiles(matches: seq<Record>, req: Request, rt: Runtime, more: nat)
    ensures Arranged(matches, req, rt) + Arranged(matches, req.(offset := req.offset + req.limit, limit := more), rt)
         == Arranged(matches, req.(limit := req.limit + more), rt)
  {
    WindowsMeet(if req.sorts == [] then matches else StableSort(matches, req.sorts, rt), req.offset, req.limit, more);
  }
}
