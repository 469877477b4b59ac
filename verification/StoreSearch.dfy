/** Search (internal/store/milvus.go): the primary-key cursor scan, the client-side sort, the window and
    the totals, against the order and the matches they stand for. */
module StoreSearch {
  import opened Wrappers
  import opened Arithmetic
  import opened Milvus
  import opened Schema
  import opened Rows
  import opened RowSort
  import opened Store
  import opened Render
  import RenderRead
  import RenderRoundTrip
  import Emitted
  import Projection

  const SCAN_BATCH_SIZE := 1000

  // ----- the filter of one step -----

  function JoinAnd(a: string, b: string): string {
    if a == "" then b else if b == "" then a else "(" + a + ") and (" + b + ")"
  }

  // A filter as the translators emit it.
  ghost predicate Emittable(e: Expr) {
    e.Nil? || Emitted.Clean(e)
  }

  // A text the server reads as a filter with the meaning of e.
  ghost predicate Says(text: string, e: Expr, server: Server) {
    && RenderRead.Read(text).Some?
    && forall row :: Passes(RenderRead.Read(text).value, row, server) == Passes(e, row, server)
  }

  // A text the server reads as the filter e, or cannot read because a number in e is none.
  ghost predicate Sends(text: string, e: Expr, server: Server) {
    if RenderRoundTrip.Finite(e) then Says(text, e, server) else RenderRead.Read(text).None?
  }

  lemma RenderSays(e: Expr, server: Server)
    requires Emittable(e)
    ensures RenderExpr(e).Ok? && Sends(RenderExpr(e).value, e, server)
  {
    hide RenderRead.Read, RenderExpr, Eval;
    RenderRoundTrip.RenderReadsBack(e);
  }

  lemma EmptyText(e: Expr, server: Server)
    requires Emittable(e) && RenderExpr(e) == Ok("")
    ensures forall row :: Passes(e, row, server)
  {
    hide RenderExpr, Eval;
    RenderRoundTrip.TextScans(e);
    RenderRoundTrip.ScanNothing();
    RenderRoundTrip.HollowIsEmpty(e);
  }

  lemma {:induction false} JoinUnfolds(cs: seq<Expr>, op: string)
    requires cs != [] && RenderExpr(cs[0]).Ok? && RenderJoin(cs[1..], op).Ok?
    ensures var rest := if |cs| == 1 then "" else op + RenderJoin(cs[1..], op).value;
      RenderJoin(cs, op) == Ok("(" + RenderExpr(cs[0]).value + ")" + rest)
  {
    hide RenderExpr;
  }

  lemma {:induction false} PairRenders(e: Expr, c: Expr)
    ensures RenderExpr(And([e, c])) == RenderJoin([e, c], " and ")
    ensures RenderJoin([], " and ") == Ok("")
  {
  }

  lemma {:induction false} JoinText(e: Expr, c: Expr)
    requires RenderExpr(e).Ok? && RenderExpr(c).Ok? && RenderExpr(e).value != "" && RenderExpr(c).value != ""
    ensures RenderExpr(And([e, c])) == Ok(JoinAnd(RenderExpr(e).value, RenderExpr(c).value))
  {
    hide RenderExpr, RenderJoin;
    var a, b := RenderExpr(e).value, RenderExpr(c).value;
    assert [e, c][1..] == [c] && [c][1..] == [];
    PairRenders(e, c);
    JoinUnfolds([c], " and ");
    JoinUnfolds([e, c], " and ");
    assert "(" + b + ")" + "" == "(" + b + ")";
    assert "(" + a + ")" + (" and " + ("(" + b + ")")) == "(" + a + ") and (" + b + ")";
  }

  /** Joining texts is conjunction: the step filter is read as the filter and the cursor. */
  lemma JoinAndSays(e: Expr, c: Expr, server: Server)
    requires Emittable(e) && Emitted.Clean(c) && RenderRoundTrip.Finite(e) && RenderRoundTrip.Finite(c)
    ensures RenderExpr(e).Ok? && RenderExpr(c).Ok?
    ensures Says(JoinAnd(RenderExpr(e).value, RenderExpr(c).value), And([e, c]), server)
  {
    hide RenderRead.Read, RenderExpr, Eval, Emitted.Clean, RenderRoundTrip.Finite;
    RenderSays(e, server);
    RenderSays(c, server);
    forall row ensures Passes(And([e, c]), row, server) == (Passes(e, row, server) && Passes(c, row, server)) {
      AndOfTwo(e, c, row, server);
    }
    if RenderExpr(e).value == "" {
      EmptyText(e, server);
    } else if RenderExpr(c).value == "" {
      EmptyText(c, server);
    } else {
      JoinText(e, c);
      assert Emitted.Clean(e) by { NilIsEmpty(e); }
      Emitted.GroupClean([e, c]);
      BothFinite(e, c);
      RenderSays(And([e, c]), server);
    }
  }

  lemma BothFinite(e: Expr, c: Expr)
    requires RenderRoundTrip.Finite(e) && RenderRoundTrip.Finite(c)
    ensures RenderRoundTrip.Finite(And([e, c]))
  {
  }

  lemma NilIsEmpty(e: Expr)
    requires Emittable(e) && RenderExpr(e).Ok? && RenderExpr(e).value != ""
    ensures Emitted.Clean(e)
  {
  }

  // ----- the cursor -----

  lemma {:induction false} SelectSame(rows: seq<Record>, keep: Record -> bool, same: Record -> bool)
    requires forall r :: r in rows ==> keep(r) == same(r)
    ensures Select(rows, keep) == Select(rows, same)
  {
    if rows != [] {
      SelectSame(rows[1..], keep, same);
    }
  }

  lemma {:induction false} SelectWithin(rows: seq<Record>, keep: Record -> bool)
    ensures forall r :: r in Select(rows, keep) <==> r in rows && keep(r)
    ensures |Select(rows, keep)| <= |rows|
  {
    if rows != [] {
      SelectWithin(rows[1..], keep);
      assert forall r :: r in rows <==> r == rows[0] || r in rows[1..];
    }
  }

  lemma KeyLessAsymmetric(a: Record, b: Record, pk: string, rt: Runtime)
    ensures !(KeyLess(a, b, pk, rt) && KeyLess(b, a, pk, rt))
  {
    if KeyLess(a, b, pk, rt) {
      CellOpposite(a[pk], b[pk], rt);
    }
  }

  lemma {:induction false} HeadFirst(rows: seq<Record>, pk: string, rt: Runtime)
    requires rows != [] && InKeyOrder(rows, pk, rt)
    ensures InKeyOrder(rows[1..], pk, rt)
    ensures rows[0] in rows && forall r :: r in rows[1..] ==> r in rows && KeyLess(rows[0], r, pk, rt)
  {
    hide KeyLess;
    forall r | r in rows[1..] ensures r in rows && KeyLess(rows[0], r, pk, rt) {
      var i :| 0 <= i < |rows| - 1 && rows[1..][i] == r;
      assert r == rows[i + 1];
    }
  }

  /** Past the k-th match in key order lie exactly the other matches. */
  lemma {:induction false} CursorSkips(rows: seq<Record>, keep: Record -> bool, both: Record -> bool, last: Record,
    k: nat,
                                       pk: string, rt: Runtime)
    requires InKeyOrder(rows, pk, rt) && k <= |Select(rows, keep)|
    requires forall r :: r in rows ==> both(r) == (keep(r) && KeyLess(last, r, pk, rt))
    requires if k > 0 then Select(rows, keep)[k - 1] == last else forall r :: r in rows ==> KeyLess(last, r, pk, rt)
    ensures Select(rows, both) == Select(rows, keep)[k..]
  {
    hide KeyLess, InKeyOrder;
    if rows != [] {
      var head, rest := rows[0], rows[1..];
      HeadFirst(rows, pk, rt);
      KeyLessAsymmetric(head, head, pk, rt);
      if k == 0 || !keep(head) {
        if k > 0 {
          SelectWithin(rest, keep);
          assert last in Select(rest, keep);
          KeyLessAsymmetric(head, last, pk, rt);
        }
        CursorSkips(rest, keep, both, last, k, pk, rt);
      } else {
        if k > 1 {
          SelectWithin(rest, keep);
          assert last == Select(rest, keep)[k - 2];
          KeyLessAsymmetric(head, last, pk, rt);
        }
        CursorSkips(rest, keep, both, last, k - 1, pk, rt);
      }
    }
  }

  lemma {:induction false} SelectInOrder(rows: seq<Record>, keep: Record -> bool, pk: string, rt: Runtime)
    requires InKeyOrder(rows, pk, rt)
    ensures InKeyOrder(Select(rows, keep), pk, rt)
  {
    hide KeyLess;
    if rows != [] {
      HeadFirst(rows, pk, rt);
      SelectInOrder(rows[1..], keep, pk, rt);
      SelectWithin(rows[1..], keep);
    }
  }

  function Cursor(pk: string, key: Cell, rt: Runtime): Expr {
    Compare(GT, pk, ScalarValue(key, rt))
  }

  lemma CursorIsClean(coll: Collection, r: Record)
    requires coll.Valid() && r in coll.rows
    ensures coll.pk in r && Emitted.Clean(Cursor(coll.pk, r[coll.pk], coll.rt))
    ensures RenderRoundTrip.Finite(Cursor(coll.pk, r[coll.pk], coll.rt))
  {
  }

  // What the scan asks for after its first k matches.
  function StepText(coll: Collection, expr: string, matches: seq<Record>, k: nat): string
    requires k <= |matches| && forall r :: r in matches ==> coll.pk in r
  {
    if k == 0 then expr else JoinAnd(expr, RenderExpr(Cursor(coll.pk, matches[k - 1][coll.pk], coll.rt)).GetOr(""))
  }

  lemma SaysMatching(coll: Collection, text: string, e: Expr)
    requires Says(text, e, coll.server)
    ensures coll.Answer(text) == Ok(coll.Matching(e))
  {
    hide RenderRead.Read, Eval;
    var read := RenderRead.Read(text).value;
    SelectSame(coll.rows, r => coll.Selects(read, r), r => coll.Selects(e, r));
  }

  // What the server makes of a rendered filter.
  lemma SendsAnswer(coll: Collection, e: Expr)
    requires Emittable(e)
    ensures RenderExpr(e).Ok?
    ensures coll.Answer(RenderExpr(e).value) == Answered(coll, e)
  {
    hide RenderRead.Read, RenderExpr, Eval, RenderRoundTrip.Finite;
    RenderSays(e, coll.server);
    if RenderRoundTrip.Finite(e) {
      SaysMatching(coll, RenderExpr(e).value, e);
    }
  }

  // The matches of a filter, or the error of one with a number that is none.
  ghost function Answered(coll: Collection, e: Expr): Result<seq<Record>> {
    if RenderRoundTrip.Finite(e) then Ok(coll.Matching(e)) else Err(Internal)
  }

  /** The cursor filter, once it is text, answers exactly the matches the scan has not seen. */
  lemma StepAnswer(coll: Collection, expr: string, e: Expr, k: nat)
    requires coll.Valid() && Emittable(e) && RenderExpr(e) == Ok(expr) && k <= |coll.Matching(e)|
    requires RenderRoundTrip.Finite(e)
    ensures forall r :: r in coll.Matching(e) ==> coll.pk in r
    ensures coll.Answer(StepText(coll, expr, coll.Matching(e), k)) == Ok(coll.Matching(e)[k..])
  {
    hide RenderRead.Read, RenderExpr, Eval, Emitted.Clean, JoinAnd, KeyLess, RenderRoundTrip.Finite;
    var matches := coll.Matching(e);
    SelectWithin(coll.rows, r => coll.Selects(e, r));
    if k == 0 {
      RenderSays(e, coll.server);
      SaysMatching(coll, expr, e);
    } else {
      var last := matches[k - 1];
      assert last in matches;
      var cursor := Cursor(coll.pk, last[coll.pk], coll.rt);
      CursorIsClean(coll, last);
      JoinAndSays(e, cursor, coll.server);
      SaysMatching(coll, StepText(coll, expr, matches, k), And([e, cursor]));
      StepSelects(coll, e, last);
      CursorSkips(coll.rows, r => coll.Selects(e, r), r => coll.Selects(And([e, cursor]), r), last, k, coll.pk,
        coll.rt);
    }
  }

  lemma StepSelects(coll: Collection, e: Expr, last: Record)
    requires coll.Valid() && last in coll.rows
    ensures forall r :: r in coll.rows ==>
      coll.Selects(And([e, Cursor(coll.pk, last[coll.pk], coll.rt)]), r) ==
      (coll.Selects(e, r) && KeyLess(last, r, coll.pk, coll.rt))
  {
    hide KeyLess, InKeyOrder;
    var cursor := Cursor(coll.pk, last[coll.pk], coll.rt);
    forall r: Record | r in coll.rows
      ensures coll.Selects(And([e, cursor]), r) == (coll.Selects(e, r) && KeyLess(last, r, coll.pk, coll.rt))
    {
      AndOfTwo(e, cursor, AsRow(r), coll.server);
      assert Passes(cursor, AsRow(r), coll.server) ==
        coll.server.Holds(GT, r[coll.pk], ReadBack(ScalarValue(last[coll.pk], coll.rt)));
    }
  }

  // n rows are q full batches.
  ghost predicate FullBatches(n: nat, b: nat, q: nat) {
    n == b * q
  }

  lemma NoBatch(b: nat)
    ensures FullBatches(0, b, 0)
  {
  }

  lemma OneMoreBatch(n: nat, b: nat, q: nat)
    requires FullBatches(n, b, q)
    ensures FullBatches(n + b, b, q + 1)
  {
  }

  lemma LastBatch(n: nat, b: nat, q: nat, r: nat)
    requires FullBatches(n, b, q) && r < b
    ensures (n + r) / b == q
  {
    QuotientIs(n + r, b, q, r);
  }

  lemma FetchedAppend(rows: seq<Record>, k: nat, m: nat, fetch: seq<string>)
    requires k <= m <= |rows|
    ensures AllFetched(rows[..k], fetch) + AllFetched(rows[k..m], fetch) == AllFetched(rows[..m], fetch)
  {
  }

  // One page of the scan, after the rows already read. The original's checks for a null key and for a
  // cursor that does not render cannot fail here.
  method NextBatch(coll: Collection, expr: string, ghost e: Expr, fetch: seq<string>, all: seq<Record>, batchSize: nat)
    returns (batch: Result<seq<Record>>)
    requires coll.Valid() && Emittable(e) && RenderExpr(e) == Ok(expr) && coll.pk in fetch && batchSize > 0
    requires |all| <= |coll.Matching(e)| && all == AllFetched(coll.Matching(e)[..|all|], fetch)
    requires all != [] ==> RenderRoundTrip.Finite(e)
    modifies coll`queries
    ensures coll.queries == old(coll.queries) + 1
    ensures var matches, k := coll.Matching(e), |all|;
      var m := if k + batchSize > |matches| then |matches| else k + batchSize;
      batch == if RenderRoundTrip.Finite(e) then Ok(AllFetched(matches[k..m], fetch)) else Err(Internal)
  {
    hide RenderExpr, Collection.Answer, Collection.Valid, Collection.Matching, Emittable, RenderRoundTrip.Finite;
    ghost var matches := coll.Matching(e);
    SendsAnswer(coll, e);
    if RenderRoundTrip.Finite(e) {
      StepAnswer(coll, expr, e, |all|);
      WindowOfRest(matches, |all|, batchSize);
    }
    var step := expr;
    if |all| > 0 {
      LastFetched(matches, |all|, fetch, coll.pk);
      var cursor := RenderExpr(Cursor(coll.pk, all[|all| - 1][coll.pk], coll.rt));
      step := JoinAnd(expr, cursor.GetOr(""));
    }
    batch := coll.QueryPage(step, fetch, 0, batchSize);
  }

  lemma LastFetched(matches: seq<Record>, k: nat, fetch: seq<string>, pk: string)
    requires 0 < k <= |matches| && pk in fetch && matches[k - 1] in matches && pk in matches[k - 1]
    ensures pk in AllFetched(matches[..k], fetch)[k - 1]
    ensures AllFetched(matches[..k], fetch)[k - 1][pk] == matches[k - 1][pk]
  {
    assert matches[..k][k - 1] == matches[k - 1];
  }

  // The rows read so far are the first matches.
  ghost predicate Scanned(all: seq<Record>, matches: seq<Record>, fetch: seq<string>) {
    |all| <= |matches| && all == AllFetched(matches[..|all|], fetch)
  }

  lemma ScannedMore(all: seq<Record>, matches: seq<Record>, fetch: seq<string>, m: nat)
    requires Scanned(all, matches, fetch) && |all| <= m <= |matches|
    ensures Scanned(all + AllFetched(matches[|all|..m], fetch), matches, fetch)
  {
    FetchedAppend(matches, |all|, m, fetch);
  }

  lemma ScannedAll(all: seq<Record>, matches: seq<Record>, fetch: seq<string>)
    requires Scanned(all, matches, fetch)
    ensures |all| == |matches| ==> all == AllFetched(matches, fetch)
  {
    assert matches[..|matches|] == matches;
  }

  /** scanAll: every match once, in key order, by one page query more than the full batches there are,
      whatever the batch size; a filter the server cannot read fails at the first query. */
  method ScanAll(coll: Collection, expr: string, ghost e: Expr, fetch: seq<string>, batchSize: nat)
    returns (r: Result<seq<Record>>)
    requires coll.Valid() && Emittable(e) && RenderExpr(e) == Ok(expr) && coll.pk in fetch && batchSize > 0
    modifies coll`queries
    ensures r == if RenderRoundTrip.Finite(e) then Ok(AllFetched(coll.Matching(e), fetch)) else Err(Internal)
    ensures coll.queries == old(coll.queries) + 1
              + if RenderRoundTrip.Finite(e) then |coll.Matching(e)| / batchSize else 0
  {
    hide RenderExpr, Collection.Valid, Collection.Matching, Emittable, FullBatches, AllFetched, RenderRoundTrip.Finite;
    NoBatch(batchSize);
    var all := [];
    ghost var matches, steps: nat := coll.Matching(e), 0;
    while true
      invariant Scanned(all, matches, fetch) && FullBatches(|all|, batchSize, steps)
      invariant coll.queries == old(coll.queries) + steps
      invariant steps > 0 || all != [] ==> RenderRoundTrip.Finite(e)
      decreases |matches| - |all|
    {
      ghost var m := if |all| + batchSize > |matches| then |matches| else |all| + batchSize;
      var batch := NextBatch(coll, expr, e, fetch, all, batchSize);
      if batch.Err? {
        return Err(batch.error);
      }
      ScannedMore(all, matches, fetch, m);
      all := all + batch.value;
      if |batch.value| < batchSize {
        ScannedAll(all, matches, fetch);
        LastBatch(|all| - |batch.value|, batchSize, steps, |batch.value|);
        return Ok(all);
      }
      OneMoreBatch(|all| - batchSize, batchSize, steps);
      steps := steps + 1;
    }
  }

  lemma WindowOfRest(rows: seq<Record>, k: nat, limit: nat)
    requires k <= |rows| && limit > 0
    ensures var m := if k + limit > |rows| then |rows| else k + limit; Window(rows[k..], 0, limit) == rows[k..m]
  {
  }

  // ----- sorting what was fetched -----

  ghost predicate SortsFetched(sorts: seq<SortClause>, fetch: seq<string>) {
    forall c :: c in sorts ==> c.field in fetch
  }

  lemma {:induction false} CompareFetched(a: Record, b: Record, sorts: seq<SortClause>, fetch: seq<string>, rt: Runtime)
    requires SortsFetched(sorts, fetch)
    ensures CompareRows(Fetched(a, fetch), Fetched(b, fetch), sorts, rt) == CompareRows(a, b, sorts, rt)
  {
    hide CompareCell;
    if sorts != [] {
      assert sorts[0] in sorts;
      assert CompareClause(Fetched(a, fetch), Fetched(b, fetch), sorts[0], rt) == CompareClause(a, b, sorts[0], rt);
      CompareFetched(a, b, sorts[1..], fetch, rt);
    }
  }

  lemma {:induction false} InsertFetched(rows: seq<Record>, x: Record, sorts: seq<SortClause>, fetch: seq<string>,
    rt: Runtime)
    requires SortsFetched(sorts, fetch)
    ensures Insert(AllFetched(rows, fetch), Fetched(x, fetch), sorts, rt)
      == AllFetched(Insert(rows, x, sorts, rt), fetch)
  {
    hide Fetched, CompareRows;
    InsertLength(rows, x, sorts, rt);
    if rows != [] {
      var n := |rows| - 1;
      CompareFetched(x, rows[n], sorts, fetch, rt);
      assert AllFetched(rows, fetch)[..n] == AllFetched(rows[..n], fetch);
      InsertFetched(rows[..n], x, sorts, fetch, rt);
    }
  }

  /** Sorting the fetched parts of rows is fetching parts of the sorted rows: the sort keys come along. */
  lemma {:induction false} SortFetched(rows: seq<Record>, sorts: seq<SortClause>, fetch: seq<string>, rt: Runtime)
    requires SortsFetched(sorts, fetch)
    ensures StableSort(AllFetched(rows, fetch), sorts, rt) == AllFetched(StableSort(rows, sorts, rt), fetch)
  {
    hide Fetched, Insert;
    if rows != [] {
      var n := |rows| - 1;
      assert AllFetched(rows, fetch)[..n] == AllFetched(rows[..n], fetch);
      SortFetched(rows[..n], sorts, fetch, rt);
      InsertFetched(StableSort(rows[..n], sorts, rt), rows[n], sorts, fetch, rt);
    }
  }

  lemma WindowFetched(rows: seq<Record>, offset: nat, limit: nat, fetch: seq<string>)
    ensures Window(AllFetched(rows, fetch), offset, limit) == AllFetched(Window(rows, offset, limit), fetch)
  {
  }

  // ----- the search -----

  datatype Request =
    Request(plan: Plan, offset: nat, limit: nat, sorts: seq<SortClause>, filter: Projection.SourceFilter)

  // A source holds the wanted fields, a null cell as JSON null.
  datatype Hit = Hit(id: string, source: map<string, Option<Cell>>)

  datatype Found = Found(total: nat, hits: seq<Hit>)

  // hitID
  function HitId(key: Cell, rt: Runtime): string {
    match key
    case StrCell(s) => s
    case IntCell(n) => Decimal(n)
    case _ => rt.show(key)
  }

  // The rows a request asks for, among its matches in key order.
  function Arranged(matches: seq<Record>, req: Request, rt: Runtime): seq<Record> {
    Window(if req.sorts == [] then matches else StableSort(matches, req.sorts, rt), req.offset, req.limit)
  }

  // totalMatches, from the number of rows fetched and a count the server would give.
  function Total(fetched: nat, count: nat, req: Request): nat {
    if |req.sorts| > 0 then fetched
    else if req.limit != 0 && fetched < req.limit then req.offset + fetched
    else count
  }

  // What Search fetches before it sorts: nothing for a count, one page, or every match.
  function FetchedRows(matches: seq<Record>, req: Request): seq<Record> {
    if req.limit == 0 then [] else if req.sorts == [] then Window(matches, req.offset, req.limit) else matches
  }

  function CellAt(r: Record, f: string): Option<Cell> {
    if f in r then Some(r[f]) else None
  }

  // row.project on a row that holds every field asked for, null or not.
  function Project(r: Record, keep: seq<string>): map<string, Option<Cell>> {
    map f | f in keep :: CellAt(r, f)
  }

  // How many pages a request costs: none for a count, one, or the scan in batches of a thousand.
  function PagesAsked(matches: nat, req: Request): nat {
    if req.limit == 0 then 0 else if req.sorts == [] then 1 else matches / 1000 + 1
  }

  // The wanted part of a row, its nulls included.
  ghost function Returned(r: Record, names: seq<string>, filter: Projection.SourceFilter): map<string, Option<Cell>> {
    map f | f in names && Projection.Wanted(f, filter) :: CellAt(r, f)
  }

  ghost predicate IsHit(h: Hit, r: Record, coll: Collection, names: seq<string>, filter: Projection.SourceFilter) {
    coll.pk in r && h == Hit(HitId(r[coll.pk], coll.rt), Returned(r, names, filter))
  }

  // totalMatches: the count is only asked for where the fetched rows do not settle it.
  method TotalMatches(coll: Collection, expr: string, ghost e: Expr, rows: seq<Record>, req: Request)
    returns (total: Result<nat>)
    requires coll.Answer(expr) == Answered(coll, e)
    ensures total.Ok? ==> total.value == Total(|rows|, |coll.Matching(e)|, req)
    ensures RenderRoundTrip.Finite(e) ==> total.Ok?
    ensures !RenderRoundTrip.Finite(e) && req.limit == 0 ==> (total.Ok? <==> req.sorts != [])
  {
    hide RenderRoundTrip.Finite;
    if |req.sorts| > 0 {
      return Ok(|rows|);
    } else if req.limit != 0 && |rows| < req.limit {
      return Ok(req.offset + |rows|);
    }
    total := coll.Count(expr);
  }

  // The fetch of Search: no page for a count, one page, or the whole scan.
  method FetchRows(coll: Collection, expr: string, ghost e: Expr, fetch: seq<string>, req: Request)
    returns (rows: Result<seq<Record>>)
    requires coll.Valid() && Emittable(e) && RenderExpr(e) == Ok(expr) && coll.pk in fetch
    requires coll.Answer(expr) == Answered(coll, e)
    modifies coll`queries
    ensures rows.Ok? <==> RenderRoundTrip.Finite(e) || req.limit == 0
    ensures rows.Ok? ==> rows.value == AllFetched(FetchedRows(coll.Matching(e), req), fetch)
    ensures rows.Ok? ==> coll.queries == old(coll.queries) + PagesAsked(|coll.Matching(e)|, req)
  {
    hide RenderExpr, Collection.Valid, Collection.Answer, Collection.Matching, Emittable, Window,
      RenderRoundTrip.Finite;
    if req.limit == 0 {
      return Ok([]);
    } else if |req.sorts| == 0 {
      rows := coll.QueryPage(expr, fetch, req.offset, req.limit);
      return;
    }
    rows := ScanAll(coll, expr, e, fetch, SCAN_BATCH_SIZE);
  }

  // sort.SliceStable on the fetched rows, in place, and the window of the result.
  method SortAndWindow(rows: seq<Record>, req: Request, rt: Runtime) returns (page: seq<Record>)
    ensures page == if |req.sorts| > 0 then Window(StableSort(rows, req.sorts, rt), req.offset, req.limit) else rows
  {
    if |req.sorts| == 0 {
      return rows;
    }
    var a := new Record[|rows|](i requires 0 <= i < |rows| => rows[i]);
    assert a[..] == rows;
    SliceStable(a, req.sorts, rt);
    return Window(a[..], req.offset, req.limit);
  }

  lemma SortedPage(matches: seq<Record>, req: Request, fetch: seq<string>, rt: Runtime)
    requires SortsFetched(req.sorts, fetch)
    ensures var rows := AllFetched(FetchedRows(matches, req), fetch);
      (if |req.sorts| > 0 then Window(StableSort(rows, req.sorts, rt), req.offset, req.limit) else rows)
      == AllFetched(Arranged(matches, req, rt), fetch)
  {
    hide StableSort, Fetched;
    if |req.sorts| > 0 && req.limit > 0 {
      SortFetched(matches, req.sorts, fetch, rt);
      WindowFetched(StableSort(matches, req.sorts, rt), req.offset, req.limit, fetch);
    }
  }

  method MakeHits(coll: Collection, page: seq<Record>, source: seq<string>) returns (hits: seq<Hit>)
    requires forall r :: r in page ==> coll.pk in r
    ensures |hits| == |page|
    ensures forall i :: 0 <= i < |page| ==> hits[i] == Hit(HitId(page[i][coll.pk], coll.rt), Project(page[i], source))
  {
    hits := [];
    for i := 0 to |page|
      invariant |hits| == i
      invariant forall j :: 0 <= j < i ==> hits[j] == Hit(HitId(page[j][coll.pk], coll.rt), Project(page[j], source))
    {
      hits := hits + [Hit(HitId(page[i][coll.pk], coll.rt), Project(page[i], source))];
    }
  }

  // A request that leaves the server unasked: it counts nothing and fetches nothing.
  predicate AsksNothing(req: Request) {
    req.limit == 0 && req.sorts != []
  }

  /** Search: the hits are the wanted parts of the window of the arranged matches, whatever was fetched
      to get there. The request is refused exactly when it sorts on a field that cannot be sorted or asks
      the server about a number that is none. */
  method Search(coll: Collection, names: seq<string>, sortable: set<string>, req: Request) returns (r: Result<Found>)
    requires coll.Valid() && (req.plan.Filter? ==> Emittable(req.plan.expr))
    modifies coll`queries
    ensures req.plan.NoMatch? ==> r == Ok(Found(0, []))
    ensures req.plan.Filter? ==> (r.Ok? <==>
      (forall c :: c in req.sorts ==> c.field in sortable)
      && (RenderRoundTrip.Finite(req.plan.expr) || AsksNothing(req)))
    ensures req.plan.Filter? && r.Ok? ==>
      var matches := coll.Matching(req.plan.expr);
      var page := Arranged(matches, req, coll.rt);
      && r.value.total == Total(|FetchedRows(matches, req)|, |matches|, req)
      && coll.queries == old(coll.queries) + PagesAsked(|matches|, req)
      && |r.value.hits| == |page|
      && forall i :: 0 <= i < |page| ==> IsHit(r.value.hits[i], page[i], coll, names, req.filter)
  {
    hide RenderRoundTrip.Finite, Arranged, IsHit;
    if req.plan.NoMatch? {
      return Ok(Found(0, []));
    }
    var p := Projection.BuildProjection(names, sortable, req.filter, req.sorts, coll.pk);
    if p.Err? {
      return Err(p.error);
    }
    r := SearchProjected(coll, names, req, p.value);
  }

  method SearchProjected(coll: Collection, ghost names: seq<string>, req: Request, p: Projection.Projection)
    returns (r: Result<Found>)
    requires coll.Valid() && req.plan.Filter? && Emittable(req.plan.expr)
    requires forall n :: n in p.source <==> n in names && Projection.Wanted(n, req.filter)
    requires coll.pk in p.fetch && SortsFetched(req.sorts, p.fetch) && forall n :: n in p.source ==> n in p.fetch
    modifies coll`queries
    ensures r.Ok? <==> RenderRoundTrip.Finite(req.plan.expr) || AsksNothing(req)
    ensures r.Ok? ==>
      var matches := coll.Matching(req.plan.expr);
      var page := Arranged(matches, req, coll.rt);
      && r.value.total == Total(|FetchedRows(matches, req)|, |matches|, req)
      && coll.queries == old(coll.queries) + PagesAsked(|matches|, req)
      && |r.value.hits| == |page|
      && forall i :: 0 <= i < |page| ==> IsHit(r.value.hits[i], page[i], coll, names, req.filter)
  {
    hide RenderExpr, Collection.Valid, Collection.Answer, Collection.Matching, Emittable, StableSort, Window, Fetched,
      RenderRead.Read, Says, Projection.Wanted, RenderRoundTrip.Finite;
    ghost var e, matches := req.plan.expr, coll.Matching(req.plan.expr);
    SendsAnswer(coll, e);
    var expr := RenderExpr(req.plan.expr);
    var rows := FetchRows(coll, expr.value, e, p.fetch, req);
    if rows.Err? {
      return Err(rows.error);
    }
    var total := TotalMatches(coll, expr.value, e, rows.value, req);
    if total.Err? {
      return Err(total.error);
    }
    var page := SortAndWindow(rows.value, req, coll.rt);
    SortedPage(matches, req, p.fetch, coll.rt);
    ghost var arranged := Arranged(matches, req, coll.rt);
    ArrangedKeyed(coll, e, req);
    forall i | 0 <= i < |arranged|
      ensures coll.pk in arranged[i] && coll.pk in page[i] && page[i][coll.pk] == arranged[i][coll.pk]
      ensures Project(page[i], p.source) == Returned(arranged[i], names, req.filter)
    {
      assert arranged[i] in arranged;
      FetchedTwice(arranged[i], p, coll.pk, names, req.filter);
    }
    var hits := MakeHits(coll, page, p.source);
    return Ok(Found(total.value, hits));
  }

  lemma FetchedTwice(r: Record, p: Projection.Projection, pk: string, names: seq<string>,
    filter: Projection.SourceFilter)
    requires pk in r && pk in p.fetch && forall n :: n in p.source ==> n in p.fetch
    requires forall n :: n in p.source <==> n in names && Projection.Wanted(n, filter)
    ensures pk in Fetched(r, p.fetch) && Fetched(r, p.fetch)[pk] == r[pk]
    ensures Project(Fetched(r, p.fetch), p.source) == Returned(r, names, filter)
  {
  }

  lemma WindowWithin(rows: seq<Record>, offset: nat, limit: nat)
    ensures forall r :: r in Window(rows, offset, limit) ==> r in rows
  {
  }

  lemma MatchesKeyed(coll: Collection, e: Expr)
    requires coll.Valid()
    ensures forall r :: r in coll.Matching(e) ==> coll.pk in r
  {
    hide InKeyOrder, KeyLess;
    SelectWithin(coll.rows, r => coll.Selects(e, r));
  }

  lemma ArrangedKeyed(coll: Collection, e: Expr, req: Request)
    requires coll.Valid()
    ensures forall r :: r in Arranged(coll.Matching(e), req, coll.rt) ==> coll.pk in r
  {
    hide Collection.Valid, Collection.Matching, Window, StableSort;
    var matches := coll.Matching(e);
    MatchesKeyed(coll, e);
    SortKeeps(matches, req.sorts, coll.rt);
    SameElements(StableSort(matches, req.sorts, coll.rt), matches);
    WindowWithin(if req.sorts == [] then matches else StableSort(matches, req.sorts, coll.rt), req.offset, req.limit);
  }
}
