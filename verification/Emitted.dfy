/** Everything both translators emit is printed and read back: from a query or a WHERE clause to the
    text the server is sent, and to the rows that text selects. */
module Emitted {
  import opened Wrappers
  import opened Milvus
  import opened Schema
  import opened Render
  import opened RenderRead
  import opened RenderScan
  import opened RenderRoundTrip
  import opened FiniteNumbers
  import EsQuery
  import EsFold
  import EsLower
  import EsTranslate
  import PgWhere
  import PgExact

  predicate IsName(f: string) {
    IsIdentifier(f) && f !in RESERVED
  }

  // An expression that is printed and, when its numbers are finite, read back.
  ghost predicate Clean(e: Expr) {
    Writable(e) && Solid(e)
  }

  ghost predicate AllClean(es: seq<Expr>) {
    forall e :: e in es ==> Clean(e)
  }

  lemma {:induction false} GroupClean(es: seq<Expr>)
    requires es != [] && AllClean(es)
    ensures Clean(And(es)) && Clean(Or(es))
  {
  }

  lemma {:induction false} PartsClean(es: seq<Expr>)
    requires Clean(And(es)) || Clean(Or(es))
    ensures es != [] && AllClean(es)
  {
    assert Solid(And(es)) || Solid(Or(es)) ==> AllSolid(es);
    assert Writable(And(es)) || Writable(Or(es)) ==> forall e :: e in es ==> Writable(e);
  }

  // ----- the Elasticsearch front -----

  ghost predicate Named(q: EsQuery.Query) {
    match q
    case MatchAll => true
    case MatchNone => true
    case Bool(must, filter, should, mustNot, _) =>
      forall c :: c in must || c in filter || c in should || c in mustNot ==> Named(c)
    case Range(f, bounds) => IsName(f) && bounds != [] && forall b :: b in bounds ==> IsCompareOp(b.op)
    case _ => IsName(q.field)
  }

  lemma {:induction false} NegatedClean(e: Expr, schema: Catalog)
    requires Clean(e)
    ensures Clean(EsLower.Negated(e, schema))
    decreases e, 1
  {
    match e {
      case And(cs) =>
        PartsClean(cs);
        NegatedAllClean(cs, schema);
        GroupClean(EsLower.NegatedAll(cs, schema));
      case Or(cs) =>
        PartsClean(cs);
        NegatedAllClean(cs, schema);
        GroupClean(EsLower.NegatedAll(cs, schema));
      case Compare(_, f, _) => RescueClean(e, f);
      case InList(f, _) => RescueClean(e, f);
      case TextMatch(f, _) => RescueClean(e, f);
      case _ =>
    }
  }

  lemma {:induction false} RescueClean(e: Expr, f: string)
    requires Clean(e) && IsName(f)
    ensures Clean(Not(e)) && Clean(Or([IsNull(f), Not(e)]))
  {
    assert Clean(Not(e)) && Clean(IsNull(f));
    GroupClean([IsNull(f), Not(e)]);
  }

  lemma {:induction false} NegatedAllClean(es: seq<Expr>, schema: Catalog)
    requires AllClean(es)
    ensures AllClean(EsLower.NegatedAll(es, schema))
    decreases es, 0
  {
    forall e | e in es ensures Clean(EsLower.Negated(e, schema)) {
      NegatedClean(e, schema);
    }
  }

  /** Lowering leaves no hole: any query, folded or not, becomes no expression or one that is printed
      without a hole, and that reads back when its numbers are finite. */
  lemma {:induction false} LowerClean(q: EsQuery.Query, schema: Catalog, readers: Readers)
    requires Named(q) && Spellings(readers) && EsLower.Lower(q, schema, readers).Ok?
    ensures var e := EsLower.Lower(q, schema, readers).value; e.Nil? || Clean(e)
    decreases q, 1
  {
    if q.Bool? {
      LowerAllClean(q.must, schema, readers);
      LowerAllClean(q.filter, schema, readers);
      LowerAllClean(q.should, schema, readers);
      LowerAllClean(q.mustNot, schema, readers);
      BoolClean(q, schema, readers);
    } else {
      LeafClean(q, schema, readers);
    }
  }

  lemma {:induction false} LeafClean(q: EsQuery.Query, schema: Catalog, readers: Readers)
    requires !q.Bool? && Named(q) && Spellings(readers) && EsLower.Lower(q, schema, readers).Ok?
    ensures var e := EsLower.Lower(q, schema, readers).value; e.Nil? || Clean(e)
  {
    hide EsQuery.Coerce, WritableValue, EsLower.LowerBounds, EsLower.CoerceAll;
    match q {
      case Match(f, _, _) => MatchClean(q, schema, readers);
      case Range(f, bounds) => RangeClean(q, schema, readers);
      case Terms(f, vs) => TermsClean(q, schema, readers);
      case Term(f, v) => ScalarWritable(f, v, schema, readers);
      case _ =>
    }
  }

  lemma {:induction false} ScalarWritable(f: string, v: EsQuery.Scalar, schema: Catalog, readers: Readers)
    requires Spellings(readers)
    ensures var r := EsQuery.Coerce(f, v, schema, readers); r.Ok? ==> WritableValue(r.value)
  {
  }

  lemma {:induction false} TermsClean(q: EsQuery.Query, schema: Catalog, readers: Readers)
    requires q.Terms? && Named(q) && Spellings(readers) && EsLower.Lower(q, schema, readers).Ok?
    ensures Clean(EsLower.Lower(q, schema, readers).value)
  {
    hide EsQuery.Coerce, WritableValue;
    var vs := EsLower.CoerceAll(q.field, q.values, schema, readers).value;
    forall i | 0 <= i < |vs| ensures WritableValue(vs[i]) {
      ScalarWritable(q.field, q.values[i], schema, readers);
    }
  }

  lemma {:induction false} RangeClean(q: EsQuery.Query, schema: Catalog, readers: Readers)
    requires q.Range? && Named(q) && Spellings(readers) && EsLower.Lower(q, schema, readers).Ok?
    ensures Clean(EsLower.Lower(q, schema, readers).value)
  {
    hide EsQuery.Coerce, WritableValue, IsCompareOp;
    var es := EsLower.LowerBounds(q.field, q.bounds, schema, readers).value;
    forall i | 0 <= i < |es| ensures Clean(es[i]) {
      ScalarWritable(q.field, q.bounds[i].value, schema, readers);
      assert q.bounds[i] in q.bounds;
    }
    GroupClean(es);
  }

  lemma {:induction false} BoolClean(q: EsQuery.Query, schema: Catalog, readers: Readers)
    requires q.Bool? && EsLower.Lower(q, schema, readers).Ok?
    requires AllClean(EsLower.LowerAll(q.must, schema, readers).value)
    requires AllClean(EsLower.LowerAll(q.filter, schema, readers).value)
    requires AllClean(EsLower.LowerAll(q.should, schema, readers).value)
    requires AllClean(EsLower.LowerAll(q.mustNot, schema, readers).value)
    ensures var e := EsLower.Lower(q, schema, readers).value; e.Nil? || Clean(e)
  {
    hide Clean, EsLower.LowerAll, EsLower.NegatedAll, EsLower.Grouped, EsLower.Conjunction;
    var mustNot := EsLower.LowerAll(q.mustNot, schema, readers).value;
    NegatedAllClean(mustNot, schema);
    ConjunctionClean(EsLower.LowerAll(q.must, schema, readers).value
      + EsLower.LowerAll(q.filter, schema, readers).value,
                     EsLower.LowerAll(q.should, schema, readers).value, EsLower.NegatedAll(mustNot, schema));
  }

  lemma {:induction false} LowerAllClean(qs: seq<EsQuery.Query>, schema: Catalog, readers: Readers)
    requires (forall c :: c in qs ==> Named(c)) && Spellings(readers) && EsLower.LowerAll(qs, schema, readers).Ok?
    ensures AllClean(EsLower.LowerAll(qs, schema, readers).value)
    decreases qs, 0
  {
    hide Clean, Named, EsLower.Lower;
    if qs != [] {
      assert qs[0] in qs;
      LowerClean(qs[0], schema, readers);
      LowerAllClean(qs[1..], schema, readers);
    }
  }

  lemma {:induction false} ConjunctionClean(all: seq<Expr>, any: seq<Expr>, none: seq<Expr>)
    requires AllClean(all) && AllClean(any) && AllClean(none)
    ensures var e := EsLower.Conjunction(EsLower.Grouped(all, true) + EsLower.Grouped(any, false) + none);
            e.Nil? || Clean(e)
  {
    if all != [] {
      GroupClean(all);
    }
    if any != [] {
      GroupClean(any);
    }
    var es := EsLower.Grouped(all, true) + EsLower.Grouped(any, false) + none;
    assert AllClean(es);
    if es != [] {
      GroupClean(es);
    }
  }

  lemma {:induction false} MatchClean(q: EsQuery.Query, schema: Catalog, readers: Readers)
    requires q.Match? && Named(q) && Spellings(readers) && EsLower.Lower(q, schema, readers).Ok?
    ensures Clean(EsLower.Lower(q, schema, readers).value)
  {
    if !EsQuery.ComparesExactly(schema.TypeOf(q.field)) {
      var tokens := EsQuery.Tokenize(EsQuery.ScalarText(q.value));
      if tokens != [] && q.operator == "and" {
        GroupClean(EsLower.EachToken(q.field, tokens));
      }
    }
  }

  lemma {:induction false} FoldNamed(q: EsQuery.Query)
    requires Named(q) && EsFold.Fold(q).Ok?
    ensures Named(EsFold.Fold(q).value)
    decreases q, 1
  {
    if q.Bool? {
      FoldAllNamed(q.must);
      FoldAllNamed(q.filter);
      FoldAllNamed(q.should);
      FoldAllNamed(q.mustNot);
    }
  }

  lemma {:induction false} FoldAllNamed(qs: seq<EsQuery.Query>)
    requires EsFold.FoldAll(qs).Ok? && forall c :: c in qs ==> Named(c)
    ensures forall c :: c in EsFold.FoldAll(qs).value ==> Named(c)
    decreases qs, 0
  {
    if qs != [] {
      FoldNamed(qs[0]);
      FoldAllNamed(qs[1..]);
    }
  }

  // What the server selects when it is sent a plan's text.
  ghost predicate TextSelects(plan: Plan, row: Row, server: Server) {
    && plan.Filter?
    && var text := RenderExpr(plan.expr);
    && text.Ok? && Read(text.value).Some? && Passes(Read(text.value).value, row, server)
  }

  // The server can read a plan's text.
  ghost predicate Understood(plan: Plan) {
    plan.Filter? ==> RenderExpr(plan.expr).Ok? && Read(RenderExpr(plan.expr).value).Some?
  }

  lemma {:induction false} TextAnswers(plan: Plan, row: Row, server: Server)
    requires plan.Filter? ==> plan.expr.Nil? || Clean(plan.expr)
    ensures plan.Filter? ==> RenderExpr(plan.expr).Ok?
    ensures Understood(plan) <==> (plan.Filter? ==> Finite(plan.expr))
    ensures TextSelects(plan, row, server) <==> Understood(plan) && Answers(plan, row, server)
  {
    hide RenderExpr, Read, Eval;
    if plan.Filter? {
      RenderReadsBack(plan.expr);
    }
  }

  /** From a query as written to the text on the wire: the server can read that text exactly when the
      literals left after folding are finite, and reading it selects exactly the rows Elasticsearch
      matches. */
  lemma {:induction false} QueryTextAnswers(q: EsTranslate.Written, w: World)
    requires EsTranslate.WellWritten(q) && Named(EsTranslate.Parse(q)) && Spellings(w.readers)
    requires w.schema.Describes(w.row)
    requires EsTranslate.Translate(EsTranslate.Parse(q), w.schema, w.readers).Ok?
    ensures var plan := EsTranslate.Translate(EsTranslate.Parse(q), w.schema, w.readers).value;
      && (plan.Filter? ==> RenderExpr(plan.expr).Ok?)
      && EsFold.Fold(EsTranslate.Parse(q)).Ok?
      && (Understood(plan) <==> FiniteQuery(EsFold.Fold(EsTranslate.Parse(q)).value, w.schema, w.readers))
      && (FiniteQuery(EsTranslate.Parse(q), w.schema, w.readers) ==> Understood(plan))
      && (TextSelects(plan, w.row, w.server) <==> Understood(plan) && EsTranslate.WrittenMatches(q, w))
  {
    hide TextSelects, Understood, RenderExpr, Read, EsTranslate.WrittenMatches, Clean, EsFold.Fold, EsLower.Lower,
      Named,
      Finite, FiniteQuery;
    var parsed := EsTranslate.Parse(q);
    var plan := EsTranslate.Translate(parsed, w.schema, w.readers).value;
    EsTranslate.QueryAnswers(q, w);
    FoldNamed(parsed);
    if FiniteQuery(parsed, w.schema, w.readers) {
      FoldFinite(parsed, w.schema, w.readers);
    }
    NoneIsFinite(w.schema, w.readers);
    if plan.Filter? {
      LowerClean(EsFold.Fold(parsed).value, w.schema, w.readers);
      LowerFinite(EsFold.Fold(parsed).value, w.schema, w.readers);
    }
    TextAnswers(plan, w.row, w.server);
  }

  /** The input that shows it: a float field compared with the string NaN is planned, and the server
      cannot read what it is sent. */
  lemma {:induction false} NotANumberIsSent(f: string, schema: Catalog, readers: Readers)
    requires IsName(f) && schema.TypeOf(f).Number? && readers.float64("NaN") == Some("NaN")
    ensures var plan := EsTranslate.Translate(EsQuery.Term(f, EsQuery.JsonString("NaN")), schema, readers);
      plan.Ok? && !Understood(plan.value)
  {
    hide Read, RenderExpr, IsIdentifier;
    var e := Compare(EQ, f, Float("NaN"));
    assert !IsDecimal("NaN");
    assert Writable(e) && !Finite(e);
    RenderReadsBack(e);
  }

  lemma {:induction false} NoneIsFinite(schema: Catalog, readers: Readers)
    ensures FiniteQuery(EsQuery.MatchNone, schema, readers)
  {
  }

  // ----- the SQL front -----

  ghost predicate Columned(w: PgWhere.Where) {
    match w
    case WTrue => true
    case WFalse => true
    case WNot(c) => Columned(c)
    case WAnd(parts) => forall c :: c in parts ==> Columned(c)
    case WOr(parts) => forall c :: c in parts ==> Columned(c)
    case _ => IsName(w.col)
  }

  // No group is empty and no part is constant true.
  ghost predicate Trimmed(w: PgWhere.Where) {
    match w
    case WTrue => false
    case WNot(c) => Trimmed(c)
    case WAnd(parts) => parts != [] && forall c :: c in parts ==> Trimmed(c)
    case WOr(parts) => parts != [] && forall c :: c in parts ==> Trimmed(c)
    case _ => true
  }

  lemma {:induction false} FoldTrims(w: PgWhere.Where)
    requires Columned(w)
    ensures Columned(PgWhere.Fold(w)) && (PgWhere.Fold(w).WTrue? || Trimmed(PgWhere.Fold(w)))
    decreases w, 1
  {
    match w {
      case WAnd(parts) => KeptTrimmed(parts, PgWhere.WTrue);
      case WOr(parts) => KeptTrimmed(parts, PgWhere.WFalse);
      case WNot(c) => FoldTrims(c);
      case _ =>
    }
  }

  lemma {:induction false} KeptTrimmed(ws: seq<PgWhere.Where>, identity: PgWhere.Where)
    requires forall c :: c in ws ==> Columned(c)
    ensures forall c :: c in PgWhere.Kept(ws, identity) ==> Columned(c)
    ensures identity.WTrue? || !PgWhere.AnyFolds(ws, PgWhere.WTrue) ==>
      forall c :: c in PgWhere.Kept(ws, identity) ==> Trimmed(c)
    decreases ws, 0
  {
    if ws != [] {
      FoldTrims(ws[0]);
      KeptTrimmed(ws[1..], identity);
    }
  }

  lemma {:induction false} BuildClean(w: PgWhere.Where, schema: Catalog, readers: Readers)
    requires Columned(w) && Trimmed(w) && Spellings(readers) && PgWhere.Build(w, schema, readers).Ok?
    ensures Clean(PgWhere.Build(w, schema, readers).value)
    decreases w, 1
  {
    hide PgWhere.Coerce, WritableValue, PgWhere.CoerceAll;
    match w {
      case WNot(c) => BuildClean(c, schema, readers);
      case WAnd(parts) =>
        BuildAllClean(parts, schema, readers);
        GroupClean(PgWhere.BuildAll(parts, schema, readers).value);
      case WOr(parts) =>
        BuildAllClean(parts, schema, readers);
        GroupClean(PgWhere.BuildAll(parts, schema, readers).value);
      case WBetween(_, _, _, _) => BetweenClean(w, schema, readers);
      case WIn(_, _, _) => InClean(w, schema, readers);
      case WCmp(_, c, l) => SqlWritable(c, l, schema, readers);
      case WCol(c) => FlagWritable();
      case _ =>
    }
  }

  lemma {:induction false} FlagWritable()
    ensures WritableValue(Flag(true))
  {
  }

  lemma {:induction false} SqlWritable(c: string, l: PgWhere.SqlLiteral, schema: Catalog, readers: Readers)
    requires Spellings(readers)
    ensures var r := PgWhere.Coerce(c, l, schema, readers); r.Ok? ==> WritableValue(r.value)
  {
  }

  lemma {:induction false} InClean(w: PgWhere.Where, schema: Catalog, readers: Readers)
    requires w.WIn? && IsName(w.col) && Spellings(readers) && PgWhere.Build(w, schema, readers).Ok?
    ensures Clean(PgWhere.Build(w, schema, readers).value)
  {
    hide PgWhere.Coerce, WritableValue;
    var vs := PgWhere.CoerceAll(w.col, w.vals, schema, readers).value;
    forall i | 0 <= i < |vs| ensures WritableValue(vs[i]) {
      SqlWritable(w.col, w.vals[i], schema, readers);
    }
    assert Clean(InList(w.col, vs));
  }

  lemma {:induction false} BetweenClean(w: PgWhere.Where, schema: Catalog, readers: Readers)
    requires w.WBetween? && IsName(w.col) && Spellings(readers) && PgWhere.Build(w, schema, readers).Ok?
    ensures Clean(PgWhere.Build(w, schema, readers).value)
  {
    var lo := Compare(GE, w.col, PgWhere.Coerce(w.col, w.lo, schema, readers).value);
    var hi := Compare(LE, w.col, PgWhere.Coerce(w.col, w.hi, schema, readers).value);
    assert Clean(lo) && Clean(hi);
    GroupClean([lo, hi]);
  }

  lemma {:induction false} BuildAllClean(ws: seq<PgWhere.Where>, schema: Catalog, readers: Readers)
    requires forall c :: c in ws ==> Columned(c) && Trimmed(c)
    requires Spellings(readers) && PgWhere.BuildAll(ws, schema, readers).Ok?
    ensures AllClean(PgWhere.BuildAll(ws, schema, readers).value)
    decreases ws, 0
  {
    var es := PgWhere.BuildAll(ws, schema, readers).value;
    forall i | 0 <= i < |es| ensures Clean(es[i]) {
      BuildClean(ws[i], schema, readers);
    }
  }

  /** The same for the tree the parser hands on: the text it is sent as can be read exactly when the
      literals left after folding are finite, and selects exactly the rows the tree is true on. */
  lemma {:induction false} WhereTextAnswers(e: PgWhere.Where, w: World)
    requires Columned(e) && Spellings(w.readers) && PgExact.PlanOf(e, w.schema, w.readers).Ok?
    ensures var plan := PgExact.PlanOf(e, w.schema, w.readers).value;
      && (plan.Filter? ==> RenderExpr(plan.expr).Ok?)
      && (Understood(plan) <==> FiniteWhere(PgWhere.Fold(e), w.schema, w.readers))
      && (FiniteWhere(e, w.schema, w.readers) ==> Understood(plan))
      && (TextSelects(plan, w.row, w.server) <==> Understood(plan) && PgExact.WhereTruth(e, w) == True)
  {
    hide TextSelects, Understood, RenderExpr, Read, PgExact.WhereTruth, Clean, Finite, FiniteWhere, PgWhere.Build;
    var plan := PgExact.PlanOf(e, w.schema, w.readers).value;
    var folded := PgWhere.Fold(e);
    PgExact.PlanOfKeepsTruth(e, w);
    FoldTrims(e);
    if FiniteWhere(e, w.schema, w.readers) {
      FoldFiniteWhere(e, w.schema, w.readers);
    }
    if plan.Filter? {
      TrueBuilds(w.schema, w.readers);
      if !folded.WTrue? {
        BuildClean(folded, w.schema, w.readers);
      }
      BuildFinite(folded, w.schema, w.readers);
    }
    FalseIsFinite(w.schema, w.readers);
    TextAnswers(plan, w.row, w.server);
  }

  /** From a WHERE clause to the text on the wire: the server can read that text exactly when the
      literals left after folding are finite, and reading it selects exactly the rows SQL passes. */
  lemma {:induction false} SelectTextAnswers(p: PgWhere.Predicate, w: World)
    requires PgExact.WellFormed(p) && PgExact.Harmless(p, true) && Spellings(w.readers)
    requires PgWhere.Resolve(p).Ok? && Columned(PgWhere.Resolve(p).value)
    requires PgExact.PlanWhere(p, w.schema, w.readers).Ok?
    ensures var plan := PgExact.PlanWhere(p, w.schema, w.readers).value;
      && (plan.Filter? ==> RenderExpr(plan.expr).Ok?)
      && (Understood(plan) <==> FiniteWhere(PgWhere.Fold(PgWhere.Resolve(p).value), w.schema, w.readers))
      && (FiniteWhere(PgWhere.Resolve(p).value, w.schema, w.readers) ==> Understood(plan))
      && (TextSelects(plan, w.row, w.server) <==> Understood(plan) && PgExact.SqlTruth(p, w) == True)
  {
    hide TextSelects, Understood, RenderExpr, PgExact.SqlTruth, PgExact.WhereTruth, FiniteWhere, PgExact.PlanOf,
      PgWhere.Resolve;
    WhereTextAnswers(PgWhere.Resolve(p).value, w);
    PgExact.ResolveKeepsVerdict(p, true, w);
  }

  lemma {:induction false} TrueBuilds(schema: Catalog, readers: Readers)
    ensures PgWhere.Build(PgWhere.WTrue, schema, readers) == Ok(Nil)
  {
  }

  lemma {:induction false} FalseIsFinite(schema: Catalog, readers: Readers)
    ensures FiniteWhere(PgWhere.WFalse, schema, readers)
  {
  }
}
