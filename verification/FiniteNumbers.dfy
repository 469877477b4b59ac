/** Which queries and WHERE clauses send the server numbers it can read. A float column's string literal
    goes through a reader that also takes NaN and infinity, so it depends on the literals. */
module FiniteNumbers {
  import opened Wrappers
  import opened Milvus
  import opened Schema
  import opened RenderScan
  import opened RenderRoundTrip
  import EsQuery
  import EsFold
  import EsLower
  import PgWhere

  // The float reader answers with a number's digits or with one of the three spellings of no number.
  ghost predicate Spellings(readers: Readers) {
    forall s :: readers.float64(s).Some? ==> GoSpelled(Float(readers.float64(s).value))
  }

  ghost predicate AllFiniteExprs(es: seq<Expr>) {
    forall e :: e in es ==> Finite(e)
  }

  // ----- the Elasticsearch front -----

  // A literal that is no number, or a number written in digits.
  predicate FiniteReading(l: Literal) {
    l.NumberLiteral? ==> IsDecimal(l.digits)
  }

  lemma {:induction false} ReadBackFinite(v: Value)
    ensures FiniteReading(ReadBack(v)) <==> FiniteValue(v)
  {
    if v.Int? {
      DecimalIsDecimal(v.number);
    }
  }

  ghost predicate FiniteScalar(f: string, v: EsQuery.Scalar, schema: Catalog, readers: Readers) {
    forall l :: EsQuery.Denotes(schema.TypeOf(f), v, l, readers) ==> FiniteReading(l)
  }

  /** Every literal the query compares a field with stands, in the field's type, for a finite number or for no
      number at all. A match clause that only searches text compares nothing. */
  ghost predicate FiniteQuery(q: EsQuery.Query, schema: Catalog, readers: Readers) {
    match q
    case Bool(must, filter, should, mustNot, _) =>
      && FiniteQueries(must, schema, readers) && FiniteQueries(filter, schema, readers)
      && FiniteQueries(should, schema, readers) && FiniteQueries(mustNot, schema, readers)
    case Term(f, v) => FiniteScalar(f, v, schema, readers)
    case Terms(f, vs) => forall v :: v in vs ==> FiniteScalar(f, v, schema, readers)
    case Match(f, v, _) => schema.TypeOf(f) in {Keyword, Number, Boolean} ==> FiniteScalar(f, v, schema, readers)
    case Range(f, bounds) => forall b :: b in bounds ==> FiniteScalar(f, b.value, schema, readers)
    case _ => true
  }

  ghost predicate FiniteQueries(qs: seq<EsQuery.Query>, schema: Catalog, readers: Readers) {
    forall c :: c in qs ==> FiniteQuery(c, schema, readers)
  }

  lemma {:induction false} NegatedFinite(e: Expr, schema: Catalog)
    ensures Finite(EsLower.Negated(e, schema)) <==> Finite(e)
    decreases e, 1
  {
    hide Finite, AllFiniteExprs, EsLower.NegatedAll;
    match e {
      case And(cs) => NegatedAllFinite(cs, schema); GroupFinite(cs); GroupFinite(EsLower.NegatedAll(cs, schema));
      case Or(cs) => NegatedAllFinite(cs, schema); GroupFinite(cs); GroupFinite(EsLower.NegatedAll(cs, schema));
      case Not(c) => RescueFinite(c, "");
      case _ => RescueFinite(e, EsLower.FieldOf(e)); NullChecksFinite(e);
    }
  }

  lemma {:induction false} NullChecksFinite(e: Expr)
    ensures e.NotNull? || e.IsNull? ==> Finite(e) && Finite(IsNull(e.field)) && Finite(NotNull(e.field))
    ensures Finite(Never) && Finite(And([])) && Finite(Or([]))
  {
  }

  lemma {:induction false} GroupFinite(es: seq<Expr>)
    ensures (Finite(And(es)) <==> AllFiniteExprs(es)) && (Finite(Or(es)) <==> AllFiniteExprs(es))
    ensures es == [] ==> AllFiniteExprs(es) && Finite(Never)
  {
  }

  lemma {:induction false} RescueFinite(e: Expr, f: string)
    ensures Finite(Not(e)) <==> Finite(e)
    ensures Finite(Or([IsNull(f), Not(e)])) <==> Finite(e)
  {
    assert Finite(IsNull(f)) && (Finite(Not(e)) <==> Finite(e));
    assert Not(e) in [IsNull(f), Not(e)];
  }

  lemma {:induction false} NegatedAllFinite(es: seq<Expr>, schema: Catalog)
    ensures AllFiniteExprs(EsLower.NegatedAll(es, schema)) <==> AllFiniteExprs(es)
    decreases es, 0
  {
    var ns := EsLower.NegatedAll(es, schema);
    forall i | 0 <= i < |es| ensures es[i] in es && ns[i] in ns && (Finite(ns[i]) <==> Finite(es[i])) {
      NegatedFinite(es[i], schema);
    }
  }

  /** Lowering keeps the numbers: what a query becomes is free of non-finite numbers exactly when its
      literals are. */
  lemma {:induction false} LowerFinite(q: EsQuery.Query, schema: Catalog, readers: Readers)
    requires EsLower.Lower(q, schema, readers).Ok?
    ensures Finite(EsLower.Lower(q, schema, readers).value) <==> FiniteQuery(q, schema, readers)
    decreases q, 1
  {
    hide FiniteScalar, FiniteValue, EsQuery.Coerce;
    match q {
      case Bool(must, filter, should, mustNot, _) =>
        LowerAllFinite(must, schema, readers);
        LowerAllFinite(filter, schema, readers);
        LowerAllFinite(should, schema, readers);
        LowerAllFinite(mustNot, schema, readers);
        BoolFinite(q, schema, readers);
      case Range(_, _) => RangeFinite(q, schema, readers);
      case Terms(_, _) => TermsFinite(q, schema, readers);
      case Term(f, v) => ScalarFinite(f, v, schema, readers);
      case Match(f, v, _) => MatchFinite(q, schema, readers);
      case _ =>
    }
  }

  lemma {:induction false} ScalarFinite(f: string, v: EsQuery.Scalar, schema: Catalog, readers: Readers)
    ensures EsQuery.Coerce(f, v, schema, readers).Ok? ==>
      (FiniteScalar(f, v, schema, readers) <==> FiniteValue(EsQuery.Coerce(f, v, schema, readers).value))
  {
    hide EsQuery.Denotes, EsQuery.Coerce, FiniteReading, FiniteValue, ReadBack;
    EsQuery.CoerceDenotes(f, v, schema, readers);
    if EsQuery.Coerce(f, v, schema, readers).Ok? {
      var value := EsQuery.Coerce(f, v, schema, readers).value;
      ReadBackFinite(value);
      assert EsQuery.Denotes(schema.TypeOf(f), v, ReadBack(value), readers);
    }
  }

  lemma {:induction false} MatchFinite(q: EsQuery.Query, schema: Catalog, readers: Readers)
    requires q.Match? && EsLower.Lower(q, schema, readers).Ok?
    ensures Finite(EsLower.Lower(q, schema, readers).value) <==> FiniteQuery(q, schema, readers)
  {
    hide FiniteValue, FiniteScalar, EsQuery.Coerce;
    ScalarFinite(q.field, q.value, schema, readers);
    if !EsQuery.ComparesExactly(schema.TypeOf(q.field)) {
      var tokens := EsQuery.Tokenize(EsQuery.ScalarText(q.value));
      forall e | e in EsLower.EachToken(q.field, tokens) ensures Finite(e) {}
    }
  }

  lemma {:induction false} TermsFinite(q: EsQuery.Query, schema: Catalog, readers: Readers)
    requires q.Terms? && EsLower.Lower(q, schema, readers).Ok?
    ensures Finite(EsLower.Lower(q, schema, readers).value) <==> FiniteQuery(q, schema, readers)
  {
    hide FiniteScalar, FiniteValue, EsQuery.Coerce;
    var vs := EsLower.CoerceAll(q.field, q.values, schema, readers).value;
    forall i | 0 <= i < |vs|
      ensures vs[i] in vs && q.values[i] in q.values
      ensures FiniteValue(vs[i]) <==> FiniteScalar(q.field, q.values[i], schema, readers)
    {
      ScalarFinite(q.field, q.values[i], schema, readers);
    }
  }

  lemma {:induction false} RangeFinite(q: EsQuery.Query, schema: Catalog, readers: Readers)
    requires q.Range? && EsLower.Lower(q, schema, readers).Ok?
    ensures Finite(EsLower.Lower(q, schema, readers).value) <==> FiniteQuery(q, schema, readers)
  {
    hide FiniteScalar, FiniteValue, EsQuery.Coerce;
    var es := EsLower.LowerBounds(q.field, q.bounds, schema, readers).value;
    forall i | 0 <= i < |es|
      ensures es[i] in es && q.bounds[i] in q.bounds
      ensures Finite(es[i]) <==> FiniteScalar(q.field, q.bounds[i].value, schema, readers)
    {
      ScalarFinite(q.field, q.bounds[i].value, schema, readers);
    }
    assert AllFiniteExprs(es) <==> FiniteQuery(q, schema, readers);
  }

  lemma {:induction false} LowerAllFinite(qs: seq<EsQuery.Query>, schema: Catalog, readers: Readers)
    requires EsLower.LowerAll(qs, schema, readers).Ok?
    ensures AllFiniteExprs(EsLower.LowerAll(qs, schema, readers).value) <==> FiniteQueries(qs, schema, readers)
    decreases qs, 0
  {
    hide FiniteQuery, EsLower.Lower;
    if qs != [] {
      LowerFinite(qs[0], schema, readers);
      LowerAllFinite(qs[1..], schema, readers);
      assert forall c :: c in qs <==> c == qs[0] || c in qs[1..];
    }
  }

  lemma {:induction false} BoolFinite(q: EsQuery.Query, schema: Catalog, readers: Readers)
    requires q.Bool? && EsLower.Lower(q, schema, readers).Ok?
    requires AllFiniteExprs(EsLower.LowerAll(q.must, schema, readers).value) <==> FiniteQueries(q.must, schema, readers)
    requires AllFiniteExprs(EsLower.LowerAll(q.filter, schema, readers).value)
        <==> FiniteQueries(q.filter, schema, readers)
    requires AllFiniteExprs(EsLower.LowerAll(q.should, schema, readers).value)
        <==> FiniteQueries(q.should, schema, readers)
    requires AllFiniteExprs(EsLower.LowerAll(q.mustNot, schema, readers).value)
        <==> FiniteQueries(q.mustNot, schema, readers)
    ensures Finite(EsLower.Lower(q, schema, readers).value) <==> FiniteQuery(q, schema, readers)
  {
    hide Finite, AllFiniteExprs, FiniteQueries, EsLower.LowerAll, EsLower.NegatedAll, EsLower.Grouped,
      EsLower.Conjunction;
    var must := EsLower.LowerAll(q.must, schema, readers).value;
    var filter := EsLower.LowerAll(q.filter, schema, readers).value;
    var should := EsLower.LowerAll(q.should, schema, readers).value;
    var mustNot := EsLower.LowerAll(q.mustNot, schema, readers).value;
    NegatedAllFinite(mustNot, schema);
    BothFinite(must, filter);
    ConjunctionFinite(must + filter, should, EsLower.NegatedAll(mustNot, schema));
  }

  lemma {:induction false} BothFinite(es: seq<Expr>, fs: seq<Expr>)
    ensures AllFiniteExprs(es + fs) <==> AllFiniteExprs(es) && AllFiniteExprs(fs)
  {
    hide Finite;
    assert forall e :: e in es + fs <==> e in es || e in fs;
  }

  lemma {:induction false} ConjunctionFinite(all: seq<Expr>, any: seq<Expr>, none: seq<Expr>)
    ensures Finite(EsLower.Conjunction(EsLower.Grouped(all, true) + EsLower.Grouped(any, false) + none))
       <==> AllFiniteExprs(all) && AllFiniteExprs(any) && AllFiniteExprs(none)
  {
    hide AllFiniteExprs, Finite, EsLower.Conjunction, EsLower.Grouped;
    var alls, anys := EsLower.Grouped(all, true), EsLower.Grouped(any, false);
    GroupedFinite(all, true);
    GroupedFinite(any, false);
    BothFinite(alls, anys);
    BothFinite(alls + anys, none);
    JoinedFinite(alls + anys + none);
  }

  lemma {:induction false} GroupedFinite(es: seq<Expr>, all: bool)
    ensures AllFiniteExprs(EsLower.Grouped(es, all)) <==> AllFiniteExprs(es)
  {
    GroupFinite(es);
    assert forall e: Expr :: e in [And(es)] <==> e == And(es);
    assert forall e: Expr :: e in [Or(es)] <==> e == Or(es);
  }

  lemma {:induction false} JoinedFinite(es: seq<Expr>)
    ensures Finite(EsLower.Conjunction(es)) <==> AllFiniteExprs(es)
  {
    if |es| == 1 {
      assert es == [es[0]];
    } else if |es| > 1 {
      GroupFinite(es);
    }
  }

  /** Folding only drops literals. */
  lemma {:induction false} FoldFinite(q: EsQuery.Query, schema: Catalog, readers: Readers)
    requires FiniteQuery(q, schema, readers) && EsFold.Fold(q).Ok?
    ensures FiniteQuery(EsFold.Fold(q).value, schema, readers)
    decreases q, 1
  {
    hide FiniteScalar;
    if q.Bool? {
      FoldAllFinite(q.must, schema, readers);
      FoldAllFinite(q.filter, schema, readers);
      FoldAllFinite(q.should, schema, readers);
      FoldAllFinite(q.mustNot, schema, readers);
    }
  }

  lemma {:induction false} FoldAllFinite(qs: seq<EsQuery.Query>, schema: Catalog, readers: Readers)
    requires EsFold.FoldAll(qs).Ok? && FiniteQueries(qs, schema, readers)
    ensures FiniteQueries(EsFold.FoldAll(qs).value, schema, readers)
    decreases qs, 0
  {
    hide FiniteQuery, EsFold.Fold;
    if qs != [] {
      FoldFinite(qs[0], schema, readers);
      FoldAllFinite(qs[1..], schema, readers);
    }
  }

  // ----- the SQL front -----

  ghost predicate FiniteLiteral(c: string, l: PgWhere.SqlLiteral, schema: Catalog, readers: Readers) {
    forall d :: PgWhere.Denotes(schema.TypeOf(c), l, d, readers) ==> FiniteReading(d)
  }

  lemma {:induction false} LiteralFinite(c: string, l: PgWhere.SqlLiteral, schema: Catalog, readers: Readers)
    ensures PgWhere.Coerce(c, l, schema, readers).Ok? ==>
      (FiniteLiteral(c, l, schema, readers) <==> FiniteValue(PgWhere.Coerce(c, l, schema, readers).value))
  {
    hide PgWhere.Denotes, PgWhere.Coerce, FiniteReading, FiniteValue, ReadBack;
    PgWhere.CoerceDenotes(c, l, schema, readers);
    if PgWhere.Coerce(c, l, schema, readers).Ok? {
      var value := PgWhere.Coerce(c, l, schema, readers).value;
      ReadBackFinite(value);
      assert PgWhere.Denotes(schema.TypeOf(c), l, ReadBack(value), readers);
    }
  }

  /** Every literal the clause compares a column with stands, in the column's type, for a finite number or for
      no number at all. */
  ghost predicate FiniteWhere(w: PgWhere.Where, schema: Catalog, readers: Readers) {
    match w
    case WNot(c) => FiniteWhere(c, schema, readers)
    case WAnd(parts) => forall c :: c in parts ==> FiniteWhere(c, schema, readers)
    case WOr(parts) => forall c :: c in parts ==> FiniteWhere(c, schema, readers)
    case WCmp(_, c, l) => FiniteLiteral(c, l, schema, readers)
    case WIn(c, ls, _) => forall l :: l in ls ==> FiniteLiteral(c, l, schema, readers)
    case WBetween(c, lo, hi, _) => FiniteLiteral(c, lo, schema, readers) && FiniteLiteral(c, hi, schema, readers)
    case _ => true
  }

  lemma {:induction false} BuildFinite(w: PgWhere.Where, schema: Catalog, readers: Readers)
    requires PgWhere.Build(w, schema, readers).Ok?
    ensures Finite(PgWhere.Build(w, schema, readers).value) <==> FiniteWhere(w, schema, readers)
    decreases w, 1
  {
    hide PgWhere.Coerce, PgWhere.CoerceAll, FiniteLiteral;
    match w {
      case WCmp(_, c, l) => LiteralFinite(c, l, schema, readers);
      case WNot(c) => BuildFinite(c, schema, readers);
      case WAnd(parts) => BuildAllFinite(parts, schema, readers);
      case WOr(parts) => BuildAllFinite(parts, schema, readers);
      case WIn(c, ls, _) => InFinite(c, ls, schema, readers);
      case WBetween(c, lo, hi, _) => BetweenFinite(w, schema, readers);
      case _ =>
    }
  }

  lemma {:induction false} InFinite(c: string, ls: seq<PgWhere.SqlLiteral>, schema: Catalog, readers: Readers)
    requires PgWhere.CoerceAll(c, ls, schema, readers).Ok?
    ensures Finite(InList(c, PgWhere.CoerceAll(c, ls, schema, readers).value))
       <==> forall l :: l in ls ==> FiniteLiteral(c, l, schema, readers)
  {
    hide PgWhere.Coerce, FiniteLiteral, FiniteValue;
    var vs := PgWhere.CoerceAll(c, ls, schema, readers).value;
    forall i | 0 <= i < |vs|
      ensures vs[i] in vs && ls[i] in ls && (FiniteValue(vs[i]) <==> FiniteLiteral(c, ls[i], schema, readers))
    {
      LiteralFinite(c, ls[i], schema, readers);
    }
  }

  lemma {:induction false} BetweenFinite(w: PgWhere.Where, schema: Catalog, readers: Readers)
    requires w.WBetween? && PgWhere.Build(w, schema, readers).Ok?
    ensures Finite(PgWhere.Build(w, schema, readers).value) <==> FiniteWhere(w, schema, readers)
  {
    hide PgWhere.Coerce, FiniteLiteral, FiniteValue;
    LiteralFinite(w.col, w.lo, schema, readers);
    LiteralFinite(w.col, w.hi, schema, readers);
    var lo := Compare(GE, w.col, PgWhere.Coerce(w.col, w.lo, schema, readers).value);
    var hi := Compare(LE, w.col, PgWhere.Coerce(w.col, w.hi, schema, readers).value);
    assert lo in [lo, hi] && hi in [lo, hi];
    assert Finite(And([lo, hi])) <==> Finite(lo) && Finite(hi);
  }

  lemma {:induction false} BuildAllFinite(ws: seq<PgWhere.Where>, schema: Catalog, readers: Readers)
    requires PgWhere.BuildAll(ws, schema, readers).Ok?
    ensures AllFiniteExprs(PgWhere.BuildAll(ws, schema, readers).value)
       <==> forall c :: c in ws ==> FiniteWhere(c, schema, readers)
    decreases ws, 0
  {
    var es := PgWhere.BuildAll(ws, schema, readers).value;
    forall i | 0 <= i < |es|
      ensures es[i] in es && ws[i] in ws && (Finite(es[i]) <==> FiniteWhere(ws[i], schema, readers))
    {
      BuildFinite(ws[i], schema, readers);
    }
  }

  lemma {:induction false} FoldFiniteWhere(w: PgWhere.Where, schema: Catalog, readers: Readers)
    requires FiniteWhere(w, schema, readers)
    ensures FiniteWhere(PgWhere.Fold(w), schema, readers)
    decreases w, 1
  {
    match w {
      case WAnd(parts) => KeptFinite(parts, PgWhere.WTrue, schema, readers);
      case WOr(parts) => KeptFinite(parts, PgWhere.WFalse, schema, readers);
      case WNot(c) => FoldFiniteWhere(c, schema, readers);
      case _ =>
    }
  }

  lemma {:induction false} KeptFinite(ws: seq<PgWhere.Where>, identity: PgWhere.Where, schema: Catalog,
    readers: Readers)
    requires forall c :: c in ws ==> FiniteWhere(c, schema, readers)
    ensures forall c :: c in PgWhere.Kept(ws, identity) ==> FiniteWhere(c, schema, readers)
    decreases ws, 0
  {
    hide FiniteWhere, PgWhere.Fold;
    if ws != [] {
      FoldFiniteWhere(ws[0], schema, readers);
      KeptFinite(ws[1..], identity, schema, readers);
    }
  }
}
