/** Which WHERE clauses are planned and which are refused (internal/translate/pg/expr.go, parser.go), and
    what boolean literals come to. */
module PgAccept {
  import opened Wrappers
  import opened Milvus
  import opened Schema
  import opened PgWhere
  import opened PgExact
  import PgGrammar
  import Emitted
  import FiniteNumbers

  // ----- the forms that are carried -----

  /** A comparison has one column and one literal, unless it mentions NULL and passes nothing; a list, a range
      and a null check are about a column; what stands alone is a column, TRUE, FALSE or NULL. */
  ghost predicate Supported(p: Predicate) {
    match p
    case Comparison(l, _, r) =>
      l == Constant(SqlLiteral.Null) || r == Constant(SqlLiteral.Null) || l.Column? != r.Column?
    case InTail(l, _, _) => l.Column?
    case BetweenTail(l, _, _, _) => l.Column?
    case NullTest(l, _) => l.Column?
    case Bare(v) => v.Column? || v.literal.Boolean? || v.literal.Null?
    case Negation(c) => Supported(c)
    case Conjunction(parts) => forall c :: c in parts ==> Supported(c)
    case Disjunction(parts) => forall c :: c in parts ==> Supported(c)
  }

  lemma {:induction false} ResolveAccepts(p: Predicate)
    ensures Resolve(p).Ok? <==> Supported(p)
    decreases p, 1
  {
    match p {
      case Negation(c) => ResolveAccepts(c);
      case Conjunction(parts) => ResolveAllAccepts(parts);
      case Disjunction(parts) => ResolveAllAccepts(parts);
      case _ =>
    }
  }

  lemma {:induction false} ResolveAllAccepts(ps: seq<Predicate>)
    ensures ResolveAll(ps).Ok? <==> forall c :: c in ps ==> Supported(c)
    decreases ps, 0
  {
    hide Resolve, Supported;
    if ps != [] {
      ResolveAccepts(ps[0]);
      ResolveAllAccepts(ps[1..]);
      assert forall c :: c in ps <==> c == ps[0] || c in ps[1..];
    }
  }

  // ----- the literals that have a reading -----

  ghost predicate AllStand(col: string, ls: seq<SqlLiteral>, schema: Catalog, readers: Readers) {
    forall l :: l in ls ==> Stands(schema.TypeOf(col), l, readers)
  }

  /** Every literal a column is compared with has a reading in the column's type. */
  ghost predicate Encodable(w: Where, schema: Catalog, readers: Readers) {
    match w
    case WNot(c) => Encodable(c, schema, readers)
    case WAnd(parts) => forall c :: c in parts ==> Encodable(c, schema, readers)
    case WOr(parts) => forall c :: c in parts ==> Encodable(c, schema, readers)
    case WCmp(op, c, l) => PgGrammar.IsCompareOp(op) && AllStand(c, [l], schema, readers)
    case WIn(c, ls, _) => AllStand(c, ls, schema, readers)
    case WBetween(c, lo, hi, _) => AllStand(c, [lo, hi], schema, readers)
    case _ => true
  }

  lemma {:induction false} BuildAccepts(w: Where, schema: Catalog, readers: Readers)
    ensures Build(w, schema, readers).Ok? <==> Encodable(w, schema, readers)
    decreases w, 1
  {
    hide Coerce, Stands;
    match w {
      case WNot(c) => BuildAccepts(c, schema, readers);
      case WAnd(parts) => BuildAllAccepts(parts, schema, readers);
      case WOr(parts) => BuildAllAccepts(parts, schema, readers);
      case WCmp(op, c, l) => CoerceStands(c, l, schema, readers);
      case WIn(c, ls, _) => CoerceAllStand(c, ls, schema, readers);
      case WBetween(c, lo, hi, _) =>
        CoerceStands(c, lo, schema, readers);
        CoerceStands(c, hi, schema, readers);
        assert lo in [lo, hi] && hi in [lo, hi];
      case _ =>
    }
  }

  lemma {:induction false} BuildAllAccepts(ws: seq<Where>, schema: Catalog, readers: Readers)
    ensures BuildAll(ws, schema, readers).Ok? <==> forall c :: c in ws ==> Encodable(c, schema, readers)
    decreases ws, 0
  {
    hide Build, Encodable;
    if ws != [] {
      BuildAccepts(ws[0], schema, readers);
      BuildAllAccepts(ws[1..], schema, readers);
      assert forall c :: c in ws <==> c == ws[0] || c in ws[1..];
    }
  }

  lemma {:induction false} CoerceAllStand(col: string, ls: seq<SqlLiteral>, schema: Catalog, readers: Readers)
    ensures CoerceAll(col, ls, schema, readers).Ok? <==> AllStand(col, ls, schema, readers)
  {
    hide Coerce, Stands;
    if ls != [] {
      CoerceStands(col, ls[0], schema, readers);
      CoerceAllStand(col, ls[1..], schema, readers);
      assert forall l :: l in ls <==> l == ls[0] || l in ls[1..];
    }
  }

  /** A clause is planned exactly when it has a form that is carried and, unless it folds to FALSE, the literals
      that are left have readings. */
  lemma {:induction false} PlanAccepts(p: Predicate, schema: Catalog, readers: Readers)
    ensures Resolve(p).Ok? <==> Supported(p)
    ensures PlanWhere(p, schema, readers).Ok?
       <==> Supported(p) && (Fold(Resolve(p).value).WFalse? || Encodable(Fold(Resolve(p).value), schema, readers))
  {
    hide Resolve, Supported, Fold, Encodable, Build;
    ResolveAccepts(p);
    if Resolve(p).Ok? {
      BuildAccepts(Fold(Resolve(p).value), schema, readers);
    }
  }

  // ----- before folding -----

  lemma {:induction false} FoldEncodable(w: Where, schema: Catalog, readers: Readers)
    requires Encodable(w, schema, readers)
    ensures Encodable(Fold(w), schema, readers)
    decreases w, 1
  {
    match w {
      case WAnd(parts) => KeptEncodable(parts, WTrue, schema, readers);
      case WOr(parts) => KeptEncodable(parts, WFalse, schema, readers);
      case WNot(c) => FoldEncodable(c, schema, readers);
      case _ =>
    }
  }

  lemma {:induction false} KeptEncodable(ws: seq<Where>, identity: Where, schema: Catalog, readers: Readers)
    requires forall c :: c in ws ==> Encodable(c, schema, readers)
    ensures forall c :: c in Kept(ws, identity) ==> Encodable(c, schema, readers)
    decreases ws, 0
  {
    hide Encodable, Fold;
    if ws != [] {
      FoldEncodable(ws[0], schema, readers);
      KeptEncodable(ws[1..], identity, schema, readers);
    }
  }

  // The literals of a clause as written, NULLs apart.
  ghost predicate LiteralsStand(p: Predicate, schema: Catalog, readers: Readers) {
    match p
    case Comparison(Column(c), op, Constant(l)) => PgGrammar.IsCompareOp(op) && Reads(c, [l], schema, readers)
    case Comparison(Constant(l), op, Column(c)) => PgGrammar.IsCompareOp(op) && Reads(c, [l], schema, readers)
    case InTail(Column(c), ls, _) => Reads(c, ls, schema, readers)
    case BetweenTail(Column(c), lo, hi, _) => Reads(c, [lo, hi], schema, readers)
    case Negation(c) => LiteralsStand(c, schema, readers)
    case Conjunction(parts) => forall c :: c in parts ==> LiteralsStand(c, schema, readers)
    case Disjunction(parts) => forall c :: c in parts ==> LiteralsStand(c, schema, readers)
    case _ => true
  }

  ghost predicate Reads(col: string, ls: seq<SqlLiteral>, schema: Catalog, readers: Readers) {
    forall l :: l in ls && !l.Null? ==> Stands(schema.TypeOf(col), l, readers)
  }

  lemma {:induction false} ResolveEncodable(p: Predicate, schema: Catalog, readers: Readers)
    requires Supported(p) && LiteralsStand(p, schema, readers)
    ensures Resolve(p).Ok? && Encodable(Resolve(p).value, schema, readers)
    decreases p, 1
  {
    hide Stands;
    ResolveAccepts(p);
    match p {
      case Negation(c) => ResolveEncodable(c, schema, readers);
      case Conjunction(parts) => ResolveAllEncodable(parts, schema, readers);
      case Disjunction(parts) => ResolveAllEncodable(parts, schema, readers);
      case BetweenTail(l, lo, hi, _) => assert lo in [lo, hi] && hi in [lo, hi];
      case Comparison(l, op, r) =>
        assert l.Constant? ==> l.literal in [l.literal];
        assert r.Constant? ==> r.literal in [r.literal];
      case _ =>
    }
  }

  lemma {:induction false} ResolveAllEncodable(ps: seq<Predicate>, schema: Catalog, readers: Readers)
    requires forall c :: c in ps ==> Supported(c) && LiteralsStand(c, schema, readers)
    ensures ResolveAll(ps).Ok? && forall w :: w in ResolveAll(ps).value ==> Encodable(w, schema, readers)
    decreases ps, 0
  {
    hide Encodable, Supported, LiteralsStand, Resolve;
    if ps != [] {
      ResolveEncodable(ps[0], schema, readers);
      ResolveAllEncodable(ps[1..], schema, readers);
    }
  }

  /** With nothing assumed of the compiler: a clause of the subset whose NULLs are harmless and whose literals
      have finite readings is planned, the server can read the text it is sent, and selects exactly the rows
      SQL passes. */
  lemma {:induction false} WrittenWhereAnswered(p: Predicate, w: World)
    requires WellFormed(p) && Harmless(p, true) && FiniteNumbers.Spellings(w.readers)
    requires Supported(p) && LiteralsStand(p, w.schema, w.readers)
    requires Resolve(p).Ok? ==>
      Emitted.Columned(Resolve(p).value) && FiniteNumbers.FiniteWhere(Resolve(p).value, w.schema, w.readers)
    ensures var plan := PlanWhere(p, w.schema, w.readers);
      plan.Ok? && Emitted.Understood(plan.value)
      && (Emitted.TextSelects(plan.value, w.row, w.server) <==> SqlTruth(p, w) == True)
  {
    hide Resolve, Supported, LiteralsStand, Encodable, Fold, PlanWhere, WellFormed, Harmless, SqlTruth,
      Emitted.TextSelects, Emitted.Understood, FiniteNumbers.FiniteWhere, Emitted.Columned;
    ResolveEncodable(p, w.schema, w.readers);
    FoldEncodable(Resolve(p).value, w.schema, w.readers);
    PlanAccepts(p, w.schema, w.readers);
    Emitted.SelectTextAnswers(p, w);
  }

  // ----- boolean literals -----

  /** On a boolean column, comparing with TRUE is the column itself, and comparing with FALSE is comparing the
      cell with the dialect's false. */
  lemma {:induction false} BooleanComparisons(col: string, w: World)
    requires w.schema.TypeOf(col).Boolean?
    ensures SqlTruth(Comparison(Column(col), "=", Constant(SqlLiteral.Boolean("true"))), w)
      == SqlTruth(Bare(Column(col)), w)
    ensures SqlTruth(Comparison(Column(col), "=", Constant(SqlLiteral.Boolean("false"))), w)
         == if w.row(col).None? then Unknown else FromBool(w.server.Holds(EQ, w.row(col).value, TruthLiteral(false)))
  {
    var t := w.schema.TypeOf(col);
    assert Denotes(t, SqlLiteral.Boolean("true"), TruthLiteral(true), w.readers);
    assert Denotes(t, SqlLiteral.Boolean("false"), TruthLiteral(false), w.readers);
  }
}
