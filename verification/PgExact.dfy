/** What a WHERE clause means in SQL, and where the plan keeps that meaning. Folding and lowering keep
    the three-valued value on every row; what the parser does to NULL keeps it only by polarity. */
module PgExact {
  import opened Wrappers
  import opened Milvus
  import opened Schema
  import opened PgWhere

  // ----- SQL's three-valued logic (SQL-92, section 8) -----

  predicate SqlSatisfies(op: string, o: Order) {
    match op
    case "=" => o.Equal?
    case "<>" => !o.Equal?
    case "!=" => !o.Equal?
    case "<" => o.Less?
    case "<=" => o.Less? || o.Equal?
    case ">" => o.Greater?
    case ">=" => o.Greater? || o.Equal?
    case _ => false
  }

  function Mirrored(o: Order): Order {
    match o case Less => Greater case Greater => Less case _ => o
  }

  // How a column's cell compares with a literal; None when either is null or the literal stands for nothing.
  ghost function Ordering(col: string, l: SqlLiteral, w: World): Option<Order> {
    if w.row(col).Some? && Stands(w.schema.TypeOf(col), l, w.readers) then
      var d :| Denotes(w.schema.TypeOf(col), l, d, w.readers);
      Some(w.server.order(w.row(col).value, d))
    else None
  }

  lemma {:induction false} OrderingCoerced(col: string, l: SqlLiteral, w: World)
    ensures var coerced := Coerce(col, l, w.schema, w.readers);
      Ordering(col, l, w)
      == if w.row(col).None? || coerced.Err? then None
         else Some(w.server.order(w.row(col).value, ReadBack(coerced.value)))
    ensures l.Null? ==> Ordering(col, l, w) == None
  {
    hide Denotes, ReadBack, Coerce;
    CoerceDenotes(col, l, w.schema, w.readers);
    CoerceStands(col, l, w.schema, w.readers);
  }

  ghost function Compared(op: string, o: Option<Order>): Truth {
    if o.None? then Unknown else FromBool(SqlSatisfies(op, o.value))
  }

  ghost function SqlComparison(left: Operand, op: string, right: Operand, w: World): Truth {
    match (left, right)
    case (Column(c), Constant(l)) => Compared(op, Ordering(c, l, w))
    case (Constant(l), Column(c)) =>
      var o := Ordering(c, l, w);
      Compared(op, if o.None? then None else Some(Mirrored(o.value)))
    case _ => Unknown // two constants or two columns: not in the subset
  }

  ghost function Conjoined(a: Truth, b: Truth): Truth {
    if a.False? || b.False? then False else if a.Unknown? || b.Unknown? then Unknown else True
  }

  ghost function Signed(t: Truth, negated: bool): Truth {
    if negated then t.Negate() else t
  }

  // Section 8.4: IN is a disjunction of equalities.
  ghost function SqlIn(col: string, ls: seq<SqlLiteral>, w: World): Truth {
    if exists l :: l in ls && Compared("=", Ordering(col, l, w)) == True then True
    else if exists l :: l in ls && Compared("=", Ordering(col, l, w)) == Unknown then Unknown
    else False
  }

  // Section 8.3: BETWEEN is a conjunction of two comparisons.
  ghost function SqlBetween(col: string, lo: SqlLiteral, hi: SqlLiteral, w: World): Truth {
    Conjoined(Compared(">=", Ordering(col, lo, w)), Compared("<=", Ordering(col, hi, w)))
  }

  ghost function SqlTruth(p: Predicate, w: World): Truth {
    match p
    case Comparison(l, op, r) => SqlComparison(l, op, r, w)
    case InTail(l, vs, negated) => if l.Constant? then Unknown else Signed(SqlIn(l.name, vs, w), negated)
    case BetweenTail(l, lo, hi, negated) => if l.Constant? then Unknown
      else Signed(SqlBetween(l.name, lo, hi, w), negated)
    case NullTest(l, negated) => if l.Constant? then Unknown else FromBool(w.row(l.name).None? != negated)
    case Bare(Column(c)) => if w.row(c).None? then Unknown
      else FromBool(w.server.Holds(EQ, w.row(c).value, TruthLiteral(true)))
    case Bare(Constant(Boolean(text))) => FromBool(text == "true")
    case Bare(Constant(_)) => Unknown
    case Negation(c) => SqlTruth(c, w).Negate()
    case Conjunction(parts) =>
      if exists c :: c in parts && SqlTruth(c, w) == False then False
      else if exists c :: c in parts && SqlTruth(c, w) == Unknown then Unknown
      else True
    case Disjunction(parts) =>
      if exists c :: c in parts && SqlTruth(c, w) == True then True
      else if exists c :: c in parts && SqlTruth(c, w) == Unknown then Unknown
      else False
  }

  // The same logic on the tree the parser hands on.
  ghost function WhereTruth(e: Where, w: World): Truth {
    match e
    case WTrue => True
    case WFalse => False
    case WCol(c) => if w.row(c).None? then Unknown else FromBool(w.server.Holds(EQ, w.row(c).value, TruthLiteral(true)))
    case WNot(c) => WhereTruth(c, w).Negate()
    case WAnd(parts) =>
      if exists c :: c in parts && WhereTruth(c, w) == False then False
      else if exists c :: c in parts && WhereTruth(c, w) == Unknown then Unknown
      else True
    case WOr(parts) =>
      if exists c :: c in parts && WhereTruth(c, w) == True then True
      else if exists c :: c in parts && WhereTruth(c, w) == Unknown then Unknown
      else False
    case WCmp(op, c, l) => Compared(op, Ordering(c, l, w))
    case WIn(c, ls, negated) => if w.row(c).None? then Unknown else Signed(SqlIn(c, ls, w), negated)
    case WBetween(c, lo, hi, negated) => Signed(SqlBetween(c, lo, hi, w), negated)
    case WNull(c, negated) => FromBool(w.row(c).None? != negated)
  }

  // ----- fold keeps the value -----

  ghost predicate SomePart(ws: seq<Where>, t: Truth, w: World) {
    exists c :: c in ws && WhereTruth(c, w) == t
  }

  lemma {:induction false} FoldKeepsTruth(e: Where, w: World)
    ensures WhereTruth(Fold(e), w) == WhereTruth(e, w)
    decreases e, 1
  {
    match e {
      case WAnd(parts) =>
        KeptTruth(parts, WTrue, w);
        GroupTruth(parts, w);
        GroupTruth(Kept(parts, WTrue), w);
        AnyFoldsTruth(parts, WFalse, w);
        Regrouped(Kept(parts, WTrue), w);
      case WOr(parts) =>
        KeptTruth(parts, WFalse, w);
        GroupTruth(parts, w);
        GroupTruth(Kept(parts, WFalse), w);
        AnyFoldsTruth(parts, WTrue, w);
        Regrouped(Kept(parts, WFalse), w);
      case WNot(c) => FoldKeepsTruth(c, w);
      case _ =>
    }
  }

  // A group that is left with no part or one.
  lemma {:induction false} Regrouped(keep: seq<Where>, w: World)
    ensures |keep| == 1 ==> WhereTruth(WAnd(keep), w) == WhereTruth(WOr(keep), w) == WhereTruth(keep[0], w)
    ensures |keep| == 0 ==> WhereTruth(WAnd(keep), w) == True && WhereTruth(WOr(keep), w) == False
  {
    GroupTruth(keep, w);
    if |keep| == 1 {
      assert keep[0] in keep && forall c :: c in keep ==> c == keep[0];
      assert forall t: Truth :: SomePart(keep, t, w) <==> WhereTruth(keep[0], w) == t;
    }
  }

  lemma {:induction false} GroupTruth(ws: seq<Where>, w: World)
    ensures WhereTruth(WAnd(ws), w) == if SomePart(ws, False, w) then False
      else if SomePart(ws, Unknown, w) then Unknown else True
    ensures WhereTruth(WOr(ws), w) == if SomePart(ws, True, w) then True
      else if SomePart(ws, Unknown, w) then Unknown else False
  {
  }

  lemma {:induction false} KeptTruth(ws: seq<Where>, identity: Where, w: World)
    requires identity.WTrue? || identity.WFalse?
    ensures forall t: Truth :: t != WhereTruth(identity, w) ==>
      (SomePart(Kept(ws, identity), t, w) <==> SomePart(ws, t, w))
    decreases ws, 0
  {
    if ws != [] {
      FoldKeepsTruth(ws[0], w);
      KeptTruth(ws[1..], identity, w);
      assert forall c :: c in ws <==> c == ws[0] || c in ws[1..];
      forall t: Truth | t != WhereTruth(identity, w)
        ensures SomePart(Kept(ws, identity), t, w) <==> SomePart(ws, t, w)
      {
        assert SomePart(ws, t, w) <==> WhereTruth(ws[0], w) == t || SomePart(ws[1..], t, w);
      }
    }
  }

  lemma {:induction false} AnyFoldsTruth(ws: seq<Where>, constant: Where, w: World)
    ensures AnyFolds(ws, constant) ==> SomePart(ws, WhereTruth(constant, w), w)
    decreases ws, 0
  {
    if ws != [] {
      FoldKeepsTruth(ws[0], w);
      AnyFoldsTruth(ws[1..], constant, w);
    }
  }

  // ----- lowering keeps the value -----

  // No group is empty: an empty disjunction would render as "match everything".
  ghost predicate NoEmptyGroup(e: Where) {
    match e
    case WNot(c) => NoEmptyGroup(c)
    case WAnd(parts) => parts != [] && forall c :: c in parts ==> NoEmptyGroup(c)
    case WOr(parts) => parts != [] && forall c :: c in parts ==> NoEmptyGroup(c)
    case _ => true
  }

  lemma {:induction false} FoldLeavesNoEmptyGroup(e: Where)
    ensures NoEmptyGroup(Fold(e))
    decreases e, 1
  {
    match e {
      case WAnd(parts) => KeptNoEmptyGroup(parts, WTrue);
      case WOr(parts) => KeptNoEmptyGroup(parts, WFalse);
      case WNot(c) => FoldLeavesNoEmptyGroup(c);
      case _ =>
    }
  }

  lemma {:induction false} KeptNoEmptyGroup(ws: seq<Where>, identity: Where)
    ensures forall c :: c in Kept(ws, identity) ==> NoEmptyGroup(c)
    decreases ws, 0
  {
    if ws != [] {
      FoldLeavesNoEmptyGroup(ws[0]);
      KeptNoEmptyGroup(ws[1..], identity);
    }
  }

  lemma {:induction false} BuildKeepsTruth(e: Where, w: World)
    requires NoEmptyGroup(e) && Build(e, w.schema, w.readers).Ok?
    ensures Eval(Build(e, w.schema, w.readers).value, w.row, w.server) == WhereTruth(e, w)
    decreases e
  {
    match e {
      case WNot(c) => BuildKeepsTruth(c, w);
      case WAnd(parts) =>
        BuildAllKeepsTruth(parts, w);
        SameGroup(parts, BuildAll(parts, w.schema, w.readers).value, w);
      case WOr(parts) =>
        BuildAllKeepsTruth(parts, w);
        SameGroup(parts, BuildAll(parts, w.schema, w.readers).value, w);
      case WCmp(op, c, l) => OperatorMeaning(op); OrderingCoerced(c, l, w);
      case WIn(c, ls, _) => InKeepsTruth(c, ls, w);
      case WBetween(c, lo, hi, _) => BetweenKeepsTruth(c, lo, hi, w);
      case _ =>
    }
  }

  lemma {:induction false} BuildAllKeepsTruth(ws: seq<Where>, w: World)
    requires (forall c :: c in ws ==> NoEmptyGroup(c)) && BuildAll(ws, w.schema, w.readers).Ok?
    ensures var es := BuildAll(ws, w.schema, w.readers).value;
            forall t: Truth :: (exists d :: d in es && Eval(d, w.row, w.server) == t) <==> SomePart(ws, t, w)
    decreases ws
  {
    var es := BuildAll(ws, w.schema, w.readers).value;
    forall i | 0 <= i < |ws|
      ensures ws[i] in ws && es[i] in es && Eval(es[i], w.row, w.server) == WhereTruth(ws[i], w)
    {
      BuildKeepsTruth(ws[i], w);
    }
  }

  lemma {:induction false} SameGroup(ws: seq<Where>, es: seq<Expr>, w: World)
    requires ws != [] && |es| == |ws|
    requires forall t: Truth :: (exists d :: d in es && Eval(d, w.row, w.server) == t) <==> SomePart(ws, t, w)
    ensures Eval(And(es), w.row, w.server) == WhereTruth(WAnd(ws), w)
    ensures Eval(Or(es), w.row, w.server) == WhereTruth(WOr(ws), w)
  {
    GroupTruth(ws, w);
  }

  lemma {:induction false} OperatorMeaning(op: string)
    ensures MilvusOp(op).Some? ==> forall o :: OrderSatisfies(MilvusOp(op).value, o) == SqlSatisfies(op, o)
  {
  }

  lemma {:induction false} InKeepsTruth(col: string, ls: seq<SqlLiteral>, w: World)
    requires CoerceAll(col, ls, w.schema, w.readers).Ok?
    ensures var list := InList(col, CoerceAll(col, ls, w.schema, w.readers).value);
            Eval(list, w.row, w.server) == if w.row(col).None? then Unknown else SqlIn(col, ls, w)
  {
    hide Coerce, Ordering;
    var vs := CoerceAll(col, ls, w.schema, w.readers).value;
    if w.row(col).Some? {
      forall i | 0 <= i < |ls|
        ensures ls[i] in ls && vs[i] in vs
        ensures Compared("=", Ordering(col, ls[i], w))
          == FromBool(w.server.Holds(EQ, w.row(col).value, ReadBack(vs[i])))
      {
        OrderingCoerced(col, ls[i], w);
      }
    }
  }

  lemma {:induction false} BetweenKeepsTruth(col: string, lo: SqlLiteral, hi: SqlLiteral, w: World)
    requires Coerce(col, lo, w.schema, w.readers).Ok? && Coerce(col, hi, w.schema, w.readers).Ok?
    ensures var l, h := Coerce(col, lo, w.schema, w.readers).value, Coerce(col, hi, w.schema, w.readers).value;
            Eval(And([Compare(GE, col, l), Compare(LE, col, h)]), w.row, w.server) == SqlBetween(col, lo, hi, w)
  {
    hide Coerce, Ordering;
    var l, h := Coerce(col, lo, w.schema, w.readers).value, Coerce(col, hi, w.schema, w.readers).value;
    OrderingCoerced(col, lo, w);
    OrderingCoerced(col, hi, w);
    var bounds := [Compare(GE, col, l), Compare(LE, col, h)];
    assert bounds[0] in bounds && bounds[1] in bounds;
    assert forall e :: e in bounds <==> e == bounds[0] || e == bounds[1];
  }

  // ----- what resolving NULL keeps -----

  // The shapes the grammar produces.
  ghost predicate WellFormed(p: Predicate) {
    match p
    case InTail(_, vs, _) => vs != []
    case Negation(c) => WellFormed(c)
    case Conjunction(parts) => parts != [] && forall c :: c in parts ==> WellFormed(c)
    case Disjunction(parts) => parts != [] && forall c :: c in parts ==> WellFormed(c)
    case _ => true
  }

  predicate IsAtom(p: Predicate) {
    !p.Negation? && !p.Conjunction? && !p.Disjunction?
  }

  predicate MentionsNull(p: Predicate) {
    match p
    case Comparison(l, _, r) => IsNullConstant(l) || IsNullConstant(r)
    case InTail(_, vs, _) => SqlLiteral.Null in vs
    case BetweenTail(_, lo, hi, _) => lo.Null? || hi.Null?
    case Bare(v) => IsNullConstant(v)
    case _ => false
  }

  // NOT BETWEEN with one NULL bound still holds outside the other bound.
  predicate HalfOpen(p: Predicate) {
    p.BetweenTail? && p.negated && p.lo.Null? != p.hi.Null?
  }

  /** Every NULL sits under an even number of NOTs, counted from a place of the given sign, and none
      is the one bound of a NOT BETWEEN. */
  predicate Harmless(p: Predicate, positive: bool) {
    match p
    case Negation(c) => Harmless(c, !positive)
    case Conjunction(parts) => forall c :: c in parts ==> Harmless(c, positive)
    case Disjunction(parts) => forall c :: c in parts ==> Harmless(c, positive)
    case _ => !MentionsNull(p) || (positive && !HalfOpen(p))
  }

  predicate NoNulls(p: Predicate) {
    match p
    case Negation(c) => NoNulls(c)
    case Conjunction(parts) => forall c :: c in parts ==> NoNulls(c)
    case Disjunction(parts) => forall c :: c in parts ==> NoNulls(c)
    case _ => !MentionsNull(p)
  }

  // The verdict a place of each sign passes up.
  function Decisive(positive: bool): Truth {
    if positive then True else False
  }

  lemma {:induction false} AtomKeepsTruth(p: Predicate, w: World)
    requires IsAtom(p) && WellFormed(p) && !MentionsNull(p) && Resolve(p).Ok?
    ensures WhereTruth(Resolve(p).value, w) == SqlTruth(p, w)
  {
    hide SqlIn, SqlBetween, Ordering;
    if p.InTail? {
      NoNullIn(p.values);
      InOnNull(p.left.name, p.values, w);
    }
  }

  lemma {:induction false} InOnNull(col: string, ls: seq<SqlLiteral>, w: World)
    ensures w.row(col).None? && ls != [] ==> SqlIn(col, ls, w) == Unknown
  {
    if ls != [] {
      assert ls[0] in ls;
    }
  }

  lemma {:induction false} NoNullIn(vs: seq<SqlLiteral>)
    requires SqlLiteral.Null !in vs
    ensures NonNull(vs) == vs
  {
    if vs != [] {
      NoNullIn(vs[1..]);
    }
  }

  lemma {:induction false} NullAtomKeepsTrue(p: Predicate, w: World)
    requires IsAtom(p) && WellFormed(p) && MentionsNull(p) && !HalfOpen(p) && Resolve(p).Ok?
    ensures WhereTruth(Resolve(p).value, w) == True <==> SqlTruth(p, w) == True
  {
    if p.InTail? {
      assert Compared("=", Ordering(p.left.name, SqlLiteral.Null, w)) == Unknown;
    }
  }

  lemma {:induction false} ResolveKeepsVerdict(p: Predicate, positive: bool, w: World)
    requires WellFormed(p) && Harmless(p, positive) && Resolve(p).Ok?
    ensures WhereTruth(Resolve(p).value, w) == Decisive(positive) <==> SqlTruth(p, w) == Decisive(positive)
    decreases p, 1
  {
    if p.Negation? {
      ResolveKeepsVerdict(p.child, !positive, w);
    } else if p.Conjunction? || p.Disjunction? {
      ResolveAllKeepVerdict(p.parts, positive, w);
      GroupVerdict(p.parts, ResolveAll(p.parts).value, positive, w);
    } else if MentionsNull(p) {
      NullAtomKeepsTrue(p, w);
    } else {
      AtomKeepsTruth(p, w);
    }
  }

  ghost predicate SomeSql(ps: seq<Predicate>, t: Truth, w: World) {
    exists c :: c in ps && SqlTruth(c, w) == t
  }

  lemma {:induction false} GroupSql(ps: seq<Predicate>, w: World)
    ensures SqlTruth(Conjunction(ps), w) == if SomeSql(ps, False, w) then False
      else if SomeSql(ps, Unknown, w) then Unknown else True
    ensures SqlTruth(Disjunction(ps), w) == if SomeSql(ps, True, w) then True
      else if SomeSql(ps, Unknown, w) then Unknown else False
  {
  }

  lemma {:induction false} GroupVerdict(ps: seq<Predicate>, ws: seq<Where>, positive: bool, w: World)
    requires SomePart(ws, Decisive(positive), w) <==> SomeSql(ps, Decisive(positive), w)
    requires (forall d :: d in ws ==> WhereTruth(d, w) == Decisive(positive))
      <==> (forall c :: c in ps ==> SqlTruth(c, w) == Decisive(positive))
    ensures WhereTruth(WAnd(ws), w) == Decisive(positive) <==> SqlTruth(Conjunction(ps), w) == Decisive(positive)
    ensures WhereTruth(WOr(ws), w) == Decisive(positive) <==> SqlTruth(Disjunction(ps), w) == Decisive(positive)
  {
    GroupSql(ps, w);
    GroupTruth(ws, w);
  }

  lemma {:induction false} ResolveAllKeepVerdict(ps: seq<Predicate>, positive: bool, w: World)
    requires forall c :: c in ps ==> WellFormed(c) && Harmless(c, positive)
    requires ResolveAll(ps).Ok?
    ensures var ws := ResolveAll(ps).value;
      && (SomePart(ws, Decisive(positive), w) <==> SomeSql(ps, Decisive(positive), w))
      && ((forall d :: d in ws ==> WhereTruth(d, w) == Decisive(positive)) <==>
          (forall c :: c in ps ==> SqlTruth(c, w) == Decisive(positive)))
    decreases ps, 0
  {
    var ws := ResolveAll(ps).value;
    forall i | 0 <= i < |ps|
      ensures ps[i] in ps && ws[i] in ws
      ensures WhereTruth(ws[i], w) == Decisive(positive) <==> SqlTruth(ps[i], w) == Decisive(positive)
    {
      ResolveKeepsVerdict(ps[i], positive, w);
    }
  }

  /** Without NULL literals nothing is lost: the value is the same on every row. */
  lemma {:induction false} ResolveKeepsTruth(p: Predicate, w: World)
    requires WellFormed(p) && NoNulls(p) && Resolve(p).Ok?
    ensures WhereTruth(Resolve(p).value, w) == SqlTruth(p, w)
    decreases p
  {
    if p.Negation? {
      ResolveKeepsTruth(p.child, w);
    } else if p.Conjunction? || p.Disjunction? {
      var ws := ResolveAll(p.parts).value;
      forall i | 0 <= i < |ws|
        ensures p.parts[i] in p.parts && ws[i] in ws && WhereTruth(ws[i], w) == SqlTruth(p.parts[i], w)
      {
        ResolveKeepsTruth(p.parts[i], w);
      }
      assert forall t: Truth :: SomePart(ws, t, w) <==> SomeSql(p.parts, t, w);
      GroupSql(p.parts, w);
      GroupTruth(ws, w);
    } else {
      AtomKeepsTruth(p, w);
    }
  }

  // ----- the plan -----

  // The filter side of Select.Plan and Update.Lower, from the clause as written.
  function PlanWhere(p: Predicate, schema: Catalog, readers: Readers): Result<Plan> {
    var resolved :- Resolve(p);
    PlanOf(resolved, schema, readers)
  }

  // From the tree the parser hands on.
  function PlanOf(w: Where, schema: Catalog, readers: Readers): Result<Plan> {
    var folded := Fold(w);
    if folded.WFalse? then Ok(NoMatch)
    else
      var e :- Build(folded, schema, readers);
      Ok(Filter(e))
  }

  ghost function PlanTruth(plan: Plan, w: World): Truth {
    if plan.NoMatch? then False else Eval(plan.expr, w.row, w.server)
  }

  lemma {:induction false} PlanOfKeepsTruth(e: Where, w: World)
    requires PlanOf(e, w.schema, w.readers).Ok?
    ensures PlanTruth(PlanOf(e, w.schema, w.readers).value, w) == WhereTruth(e, w)
  {
    FoldKeepsTruth(e, w);
    FoldLeavesNoEmptyGroup(e);
    if !Fold(e).WFalse? {
      BuildKeepsTruth(Fold(e), w);
    }
  }

  lemma {:induction false} PlanKeepsTruth(p: Predicate, w: World)
    requires PlanWhere(p, w.schema, w.readers).Ok?
    ensures PlanTruth(PlanWhere(p, w.schema, w.readers).value, w) == WhereTruth(Resolve(p).value, w)
  {
    PlanOfKeepsTruth(Resolve(p).value, w);
  }

  /** A WHERE clause whose NULLs are harmless returns exactly the rows SQL passes. */
  lemma {:induction false} SelectAnswers(p: Predicate, w: World)
    requires WellFormed(p) && Harmless(p, true) && PlanWhere(p, w.schema, w.readers).Ok?
    ensures Answers(PlanWhere(p, w.schema, w.readers).value, w.row, w.server) <==> SqlTruth(p, w) == True
  {
    PlanKeepsTruth(p, w);
    ResolveKeepsVerdict(p, true, w);
  }

  /** Without NULL literals the plan has SQL's three-valued value on every row. */
  lemma {:induction false} SelectKeepsTruth(p: Predicate, w: World)
    requires WellFormed(p) && NoNulls(p) && PlanWhere(p, w.schema, w.readers).Ok?
    ensures PlanTruth(PlanWhere(p, w.schema, w.readers).value, w) == SqlTruth(p, w)
  {
    PlanKeepsTruth(p, w);
    ResolveKeepsTruth(p, w);
  }

  // ----- where NULL is lost -----

  function Nots(n: nat, p: Predicate): Predicate {
    if n == 0 then p else Negation(Nots(n - 1, p))
  }

  function Flipped(n: nat, t: Truth): Truth {
    if n % 2 == 0 then t else t.Negate()
  }

  lemma {:induction false} NotsTruth(n: nat, p: Predicate, w: World)
    requires Resolve(p).Ok?
    ensures Resolve(Nots(n, p)).Ok? && WellFormed(Nots(n, p)) == WellFormed(p)
    ensures SqlTruth(Nots(n, p), w) == Flipped(n, SqlTruth(p, w))
    ensures WhereTruth(Resolve(Nots(n, p)).value, w) == Flipped(n, WhereTruth(Resolve(p).value, w))
  {
    NotsSql(n, p, w);
    NotsWhere(n, p, w);
  }

  lemma {:induction false} NegationMeans(c: Predicate, w: World)
    ensures SqlTruth(Negation(c), w) == SqlTruth(c, w).Negate() && WellFormed(Negation(c)) == WellFormed(c)
  {
  }

  lemma {:induction false} NotMeans(e: Where, w: World)
    ensures WhereTruth(WNot(e), w) == WhereTruth(e, w).Negate()
  {
  }

  lemma {:induction false} NegationResolves(c: Predicate)
    ensures Resolve(Negation(c)) == if Resolve(c).Ok? then Ok(WNot(Resolve(c).value)) else Resolve(c)
  {
  }

  lemma {:induction false} NotsSql(n: nat, p: Predicate, w: World)
    ensures SqlTruth(Nots(n, p), w) == Flipped(n, SqlTruth(p, w)) && WellFormed(Nots(n, p)) == WellFormed(p)
  {
    hide SqlTruth, WellFormed;
    if n > 0 {
      NotsSql(n - 1, p, w);
      NegationMeans(Nots(n - 1, p), w);
    }
  }

  lemma {:induction false} NotsWhere(n: nat, p: Predicate, w: World)
    requires Resolve(p).Ok?
    ensures Resolve(Nots(n, p)).Ok?
    ensures WhereTruth(Resolve(Nots(n, p)).value, w) == Flipped(n, WhereTruth(Resolve(p).value, w))
  {
    hide Resolve, WhereTruth;
    if n > 0 {
      NotsWhere(n - 1, p, w);
      NegationResolves(Nots(n - 1, p));
      NotMeans(Resolve(Nots(n - 1, p)).value, w);
    }
  }

  lemma {:induction false} NotsHarmless(n: nat, p: Predicate, positive: bool)
    ensures Harmless(Nots(n, p), positive) == Harmless(p, positive == (n % 2 == 0))
  {
    if n > 0 {
      NotsHarmless(n - 1, p, !positive);
    }
  }

  // The literals a predicate holds besides NULL fit their column.
  ghost predicate LiteralsFit(p: Predicate, schema: Catalog, readers: Readers) {
    match p
    case InTail(Column(c), vs, _) => forall v :: v in vs ==> v.Null? || Stands(schema.TypeOf(c), v, readers)
    case BetweenTail(Column(c), lo, hi, _) =>
      && (lo.Null? || Stands(schema.TypeOf(c), lo, readers))
      && (hi.Null? || Stands(schema.TypeOf(c), hi, readers))
    case _ => true
  }

  // No cell null, and all cells ordered one way against every literal.
  function OrderedWorld(o: Order, schema: Catalog, readers: Readers): World {
    World(_ => Some(BoolCell(true)), Server((_, _) => o, (_, _) => false), schema, readers)
  }

  // On which side of its one bound a row has to lie for plan and SQL to disagree on it.
  function Side(n: nat, p: Predicate): Order {
    if p.BetweenTail? && (if HalfOpen(p) && n % 2 == 0 then p.lo.Null? else p.hi.Null?) then Greater else Less
  }

  // A world in which the plan and SQL disagree.
  function Disagreement(n: nat, p: Predicate, schema: Catalog, readers: Readers): World {
    OrderedWorld(Side(n, p), schema, readers)
  }

  lemma {:induction false} DisagreementOn(n: nat, p: Predicate, schema: Catalog, readers: Readers)
    requires IsAtom(p) && WellFormed(p) && Resolve(p).Ok? && LiteralsFit(p, schema, readers)
    requires MentionsNull(p) && (n % 2 == 1 || HalfOpen(p))
    ensures var w := Disagreement(n, p, schema, readers);
      (Flipped(n, SqlTruth(p, w)) == True) != (Flipped(n, WhereTruth(Resolve(p).value, w)) == True)
  {
    hide Ordering, Stands;
    var w := Disagreement(n, p, schema, readers);
    forall c: string, l: SqlLiteral ensures l.Null? ==> Ordering(c, l, w) == None
      ensures Stands(schema.TypeOf(c), l, readers) ==> Ordering(c, l, w) == Some(Side(n, p))
    {
      OrderedOrdering(c, l, Side(n, p), schema, readers);
    }
    if p.InTail? {
      assert Compared("=", Ordering(p.left.name, SqlLiteral.Null, w)) == Unknown;
    }
  }

  lemma {:induction false} OrderedOrdering(c: string, l: SqlLiteral, o: Order, schema: Catalog, readers: Readers)
    ensures var w := OrderedWorld(o, schema, readers);
      && (l.Null? ==> Ordering(c, l, w) == None)
      && (Stands(schema.TypeOf(c), l, readers) ==> Ordering(c, l, w) == Some(o))
  {
    hide Ordering, Stands, Coerce;
    OrderingCoerced(c, l, OrderedWorld(o, schema, readers));
    CoerceStands(c, l, schema, readers);
  }

  /** NULL under NOT. A single predicate under n NOTs returns the rows SQL passes, whatever the server and
      whichever row the schema describes, if and only if it mentions no NULL, or n is even and it is no NOT
      BETWEEN with one NULL bound.
      NOT (x = NULL) is the plainest case that fails: SQL passes no row, the plan every row. */
  lemma {:induction false} AtomExactWhen(n: nat, p: Predicate, schema: Catalog, readers: Readers)
    requires IsAtom(p) && WellFormed(p) && Resolve(p).Ok? && LiteralsFit(p, schema, readers)
    requires PlanWhere(Nots(n, p), schema, readers).Ok? && "" !in schema.nulls
    ensures (!MentionsNull(p) || (n % 2 == 0 && !HalfOpen(p))) <==>
      forall w: World | w.schema == schema && w.readers == readers && schema.Describes(w.row) ::
        Answers(PlanWhere(Nots(n, p), schema, readers).value, w.row, w.server) <==> SqlTruth(Nots(n, p), w) == True
  {
    if !MentionsNull(p) || (n % 2 == 0 && !HalfOpen(p)) {
      forall w: World | w.schema == schema && w.readers == readers
        ensures Answers(PlanWhere(Nots(n, p), schema, readers).value, w.row, w.server)
          <==> SqlTruth(Nots(n, p), w) == True
      {
        NotsTruth(n, p, w);
        NotsHarmless(n, p, true);
        SelectAnswers(Nots(n, p), w);
      }
    } else {
      var w := Disagreement(n, p, schema, readers);
      assert schema.Describes(w.row);
      NotsTruth(n, p, w);
      PlanKeepsTruth(Nots(n, p), w);
      DisagreementOn(n, p, schema, readers);
    }
  }

  /** The whole failing family of a negated comparison with NULL, row by row: the plan passes every
      row and SQL passes none. */
  lemma {:induction false} NegatedNullComparison(left: Operand, op: string, right: Operand, w: World)
    requires IsNullConstant(left) || IsNullConstant(right)
    ensures var p := Negation(Comparison(left, op, right));
      && PlanWhere(p, w.schema, w.readers) == Ok(Filter(Nil))
      && Answers(Filter(Nil), w.row, w.server) && SqlTruth(p, w) != True
  {
    assert Resolve(Negation(Comparison(left, op, right))) == Ok(WNot(WFalse));
    assert Fold(WNot(WFalse)) == WTrue;
  }

  /** The other failing family, row by row: a NOT BETWEEN with one NULL bound is planned as matching
      nothing, and SQL passes the rows that lie beyond the other bound. */
  lemma {:induction false} HalfOpenMatchesNothing(col: string, lo: SqlLiteral, hi: SqlLiteral, w: World)
    requires lo.Null? != hi.Null?
    ensures var p := BetweenTail(Column(col), lo, hi, true);
      var kept := if hi.Null? then Compared(">=", Ordering(col, lo, w)) else Compared("<=", Ordering(col, hi, w));
      PlanWhere(p, w.schema, w.readers) == Ok(NoMatch) && (SqlTruth(p, w) == True <==> kept == False)
  {
    hide Coerce;
    var p := BetweenTail(Column(col), lo, hi, true);
    assert Resolve(p) == Ok(WFalse) && Fold(WFalse) == WFalse;
  }
}
