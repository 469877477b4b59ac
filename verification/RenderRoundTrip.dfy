/** What printing keeps: which rendered expressions the dialect's grammar reads back, and that what
    it reads has the printed expression's value on every row. */
module RenderRoundTrip {
  import opened Wrappers
  import opened Milvus
  import opened Render
  import opened RenderRead
  import opened RenderScan

  // ----- what renders -----

  // Every float is spelled as Go spells floats.
  ghost predicate Spoken(e: Expr) {
    match e
    case Compare(_, _, v) => GoSpelled(v)
    case InList(_, vs) => forall v :: v in vs ==> GoSpelled(v)
    case Not(c) => Spoken(c)
    case And(cs) => forall c :: c in cs ==> Spoken(c)
    case Or(cs) => forall c :: c in cs ==> Spoken(c)
    case _ => true
  }

  /** Whatever its numbers, Render accepts exactly the writable expressions: it never lets an unknown
      operator, a field name that is no identifier or an unset literal through. */
  lemma {:induction false} RendersExactlyWritable(e: Expr)
    requires Spoken(e)
    ensures RenderExpr(e).Ok? <==> Writable(e)
    decreases e, 1
  {
    match e {
      case InList(f, vs) => LiteralsRender(vs);
      case Not(c) => RendersExactlyWritable(c);
      case And(cs) => JoinRenders(cs, " and ");
      case Or(cs) => JoinRenders(cs, " or ");
      case _ =>
    }
  }

  lemma {:induction false} LiteralsRender(vs: seq<Value>)
    ensures RenderLiterals(vs).Ok? <==> forall v :: v in vs ==> !v.Unset?
  {
    if vs != [] {
      LiteralsRender(vs[1..]);
      assert forall v :: v in vs <==> v == vs[0] || v in vs[1..];
    }
  }

  lemma {:induction false} JoinRenders(cs: seq<Expr>, op: string)
    requires forall c :: c in cs ==> Spoken(c)
    ensures RenderJoin(cs, op).Ok? <==> forall c :: c in cs ==> Writable(c)
    ensures |cs| == 1 ==> (RenderExpr(cs[0]).Ok? <==> Writable(cs[0]))
    decreases cs, 0
  {
    if cs != [] {
      assert cs[0] in cs;
      RendersExactlyWritable(cs[0]);
      JoinRenders(cs[1..], op);
      assert forall c :: c in cs <==> c == cs[0] || c in cs[1..];
    }
  }

  // ----- what reads back -----

  /** No missing child, no empty join, no field named like a keyword. */
  ghost predicate Solid(e: Expr) {
    match e
    case Nil => false
    case Never => true
    case Compare(_, f, _) => f !in RESERVED
    case InList(f, _) => f !in RESERVED
    case TextMatch(f, _) => f !in RESERVED
    case NotNull(f) => f !in RESERVED
    case IsNull(f) => f !in RESERVED
    case Not(c) => Solid(c)
    case And(cs) => cs != [] && AllSolid(cs)
    case Or(cs) => cs != [] && AllSolid(cs)
  }

  ghost predicate AllSolid(cs: seq<Expr>) {
    forall c :: c in cs ==> Solid(c)
  }

  predicate FiniteValue(v: Value) {
    v.Float? ==> IsDecimal(v.text)
  }

  // Every number in the tree is one.
  ghost predicate Finite(e: Expr) {
    match e
    case Compare(_, _, v) => FiniteValue(v)
    case InList(_, vs) => forall v :: v in vs ==> FiniteValue(v)
    case Not(c) => Finite(c)
    case And(cs) => forall c :: c in cs ==> Finite(c)
    case Or(cs) => forall c :: c in cs ==> Finite(c)
    case _ => true
  }

  // Solid and finite, in one recursion.
  ghost predicate Readable(e: Expr) {
    match e
    case Not(c) => Readable(c)
    case And(cs) => cs != [] && AllReadable(cs)
    case Or(cs) => cs != [] && AllReadable(cs)
    case _ => Solid(e) && Finite(e)
  }

  ghost predicate AllReadable(cs: seq<Expr>) {
    forall c :: c in cs ==> Readable(c)
  }

  lemma {:induction false} ReadableIs(e: Expr)
    ensures Readable(e) <==> Solid(e) && Finite(e)
  {
    match e {
      case Not(c) => ReadableIs(c);
      case And(cs) =>
        forall c | c in cs ensures Readable(c) <==> Solid(c) && Finite(c) {
          ReadableIs(c);
        }
      case Or(cs) =>
        forall c | c in cs ensures Readable(c) <==> Solid(c) && Finite(c) {
          ReadableIs(c);
        }
      case _ =>
    }
  }

  // What is written as no text at all.
  predicate Hollow(e: Expr) {
    match e
    case Nil => true
    case And(cs) => cs == [] || (|cs| == 1 && Hollow(cs[0]))
    case Or(cs) => cs == [] || (|cs| == 1 && Hollow(cs[0]))
    case _ => false
  }

  function Spelled(v: Value): Value {
    if v.Int? then Float(Decimal(v.number)) else v
  }

  function SpelledAll(vs: seq<Value>): (r: seq<Value>)
    ensures |r| == |vs| && forall i :: 0 <= i < |vs| ==> r[i] == Spelled(vs[i])
  {
    if vs == [] then [] else [Spelled(vs[0])] + SpelledAll(vs[1..])
  }

  /** The tree the text spells: an integer is just its digits, a join of one is its member, a negated
      null check the opposite one. */
  function Spelt(e: Expr): Expr
    decreases e, 1
  {
    match e
    case Compare(op, f, v) => Compare(op, f, Spelled(v))
    case InList(f, vs) => InList(f, SpelledAll(vs))
    case Not(NotNull(f)) => IsNull(f)
    case Not(c) => Not(Spelt(c))
    case And(cs) => if |cs| == 1 then Spelt(cs[0]) else And(SpeltAll(cs))
    case Or(cs) => if |cs| == 1 then Spelt(cs[0]) else Or(SpeltAll(cs))
    case _ => e
  }

  function SpeltAll(es: seq<Expr>): (r: seq<Expr>)
    ensures |r| == |es| && forall i :: 0 <= i < |es| ==> r[i] == Spelt(es[i])
    decreases es, 0
  {
    if es == [] then [] else [Spelt(es[0])] + SpeltAll(es[1..])
  }

  lemma {:induction false} SpeltKeepsValue(e: Expr, row: Row, server: Server)
    ensures Eval(Spelt(e), row, server) == Eval(e, row, server)
    decreases e
  {
    hide SpeltAll, SpelledAll;
    match e {
      case InList(f, vs) => ListKeepsValue(f, vs, row, server);
      case Not(c) =>
        SpeltKeepsValue(c, row, server);
        NotKeepsValue(c, row, server);
      case And(cs) => JoinKeepsValue(e, cs, row, server);
      case Or(cs) => JoinKeepsValue(e, cs, row, server);
      case _ =>
    }
  }

  lemma {:induction false} ListKeepsValue(f: string, vs: seq<Value>, row: Row, server: Server)
    ensures Eval(InList(f, SpelledAll(vs)), row, server) == Eval(InList(f, vs), row, server)
  {
    hide ReadBack, Spelled;
    forall i | 0 <= i < |vs| ensures ReadBack(SpelledAll(vs)[i]) == ReadBack(vs[i]) {
      SpelledReadsSame(vs[i]);
    }
    if row(f).Some? {
      ListedCarries(row(f).value, vs, SpelledAll(vs), server);
      ListedCarries(row(f).value, SpelledAll(vs), vs, server);
    }
  }

  // Some value of the list holds of the cell.
  ghost predicate Listed(cell: Cell, vs: seq<Value>, server: Server) {
    exists v :: v in vs && server.Holds(EQ, cell, ReadBack(v))
  }

  lemma {:induction false} ListedCarries(cell: Cell, vs: seq<Value>, us: seq<Value>, server: Server)
    requires |us| == |vs| && forall i :: 0 <= i < |vs| ==> ReadBack(us[i]) == ReadBack(vs[i])
    ensures Listed(cell, vs, server) ==> Listed(cell, us, server)
  {
    hide ReadBack;
    if Listed(cell, vs, server) {
      var v :| v in vs && server.Holds(EQ, cell, ReadBack(v));
      var i :| 0 <= i < |vs| && vs[i] == v;
      assert us[i] in us && server.Holds(EQ, cell, ReadBack(us[i]));
    }
  }

  lemma {:induction false} SpelledReadsSame(v: Value)
    ensures ReadBack(Spelled(v)) == ReadBack(v)
  {
  }

  lemma {:induction false} NotKeepsValue(c: Expr, row: Row, server: Server)
    requires Eval(Spelt(c), row, server) == Eval(c, row, server)
    ensures Eval(Spelt(Not(c)), row, server) == Eval(Not(c), row, server)
  {
    hide SpeltAll, SpelledAll;
    assert c.NotNull? || Spelt(Not(c)) == Not(Spelt(c));
  }

  lemma {:induction false} JoinKeepsValue(e: Expr, cs: seq<Expr>, row: Row, server: Server)
    requires e == And(cs) || e == Or(cs)
    ensures Eval(Spelt(e), row, server) == Eval(e, row, server)
    decreases e, 0
  {
    hide Eval;
    forall i | 0 <= i < |cs| ensures Eval(SpeltAll(cs)[i], row, server) == Eval(cs[i], row, server) {
      assert cs[i] in cs;
      SpeltKeepsValue(cs[i], row, server);
    }
    if |cs| == 1 {
      assert cs == [cs[0]];
      JoinOfOne(cs[0], row, server);
    } else {
      SameJoins(cs, SpeltAll(cs), row, server);
    }
  }

  // Some member has the value t.
  ghost predicate Has(cs: seq<Expr>, t: Truth, row: Row, server: Server) {
    exists c :: c in cs && Eval(c, row, server) == t
  }

  lemma {:induction false} HasCarries(cs: seq<Expr>, ds: seq<Expr>, t: Truth, row: Row, server: Server)
    requires |ds| == |cs| && forall i :: 0 <= i < |cs| ==> Eval(ds[i], row, server) == Eval(cs[i], row, server)
    ensures Has(cs, t, row, server) ==> Has(ds, t, row, server)
  {
    hide Eval;
    if Has(cs, t, row, server) {
      var c :| c in cs && Eval(c, row, server) == t;
      var i :| 0 <= i < |cs| && cs[i] == c;
      assert ds[i] in ds && Eval(ds[i], row, server) == t;
    }
  }

  lemma {:induction false} SameJoins(cs: seq<Expr>, ds: seq<Expr>, row: Row, server: Server)
    requires |ds| == |cs| && forall i :: 0 <= i < |cs| ==> Eval(ds[i], row, server) == Eval(cs[i], row, server)
    ensures Eval(And(ds), row, server) == Eval(And(cs), row, server)
    ensures Eval(Or(ds), row, server) == Eval(Or(cs), row, server)
  {
    hide Eval;
    forall t: Truth ensures Has(cs, t, row, server) <==> Has(ds, t, row, server) {
      HasCarries(cs, ds, t, row, server);
      HasCarries(ds, cs, t, row, server);
    }
    JoinValue(cs, row, server);
    JoinValue(ds, row, server);
  }

  lemma {:induction false} JoinValue(cs: seq<Expr>, row: Row, server: Server)
    ensures Eval(And(cs), row, server)
         == if Has(cs, False, row, server) then False else if Has(cs, Unknown, row, server) then Unknown else True
    ensures Eval(Or(cs), row, server)
         == if cs == [] || Has(cs, True, row, server) then True
            else if Has(cs, Unknown, row, server) then Unknown else False
  {
  }

  lemma {:induction false} JoinOfOne(c: Expr, row: Row, server: Server)
    ensures Eval(And([c]), row, server) == Eval(c, row, server) == Eval(Or([c]), row, server)
  {
    assert c in [c];
  }

  // Where an expression's text ends: at a closing parenthesis or at the end.
  predicate Closed(rest: seq<Token>) {
    rest == [] || rest[0] == Symbol(")")
  }

  ghost function Expected(e: Expr, rest: seq<Token>): Option<Reading<Expr>> {
    if Readable(e) then Some(Reading(Spelt(e), rest)) else None
  }

  ghost function ExpectedAll(cs: seq<Expr>, rest: seq<Token>): Option<Reading<seq<Expr>>> {
    if AllReadable(cs) then Some(Reading(SpeltAll(cs), rest)) else None
  }

  // ----- leaves -----

  lemma {:induction false} LiteralReads(v: Value, rest: seq<Token>)
    requires WritableValue(v)
    ensures ReadLiteral(LiteralTokens(v) + rest) == if FiniteValue(v) then Some(Reading(Spelled(v), rest)) else None
  {
    var ts := LiteralTokens(v);
    assert (ts + rest)[0] == ts[0];
    if FiniteValue(v) {
      assert (ts + rest)[1..] == rest;
    }
  }

  ghost predicate AllFinite(vs: seq<Value>) {
    forall v :: v in vs ==> FiniteValue(v)
  }

  lemma {:induction false} ListReads(vs: seq<Value>, rest: seq<Token>)
    requires vs != [] && forall v :: v in vs ==> WritableValue(v)
    ensures ReadList(ListTokens(vs) + [Symbol("]")] + rest)
         == if AllFinite(vs) then Some(Reading(SpelledAll(vs), rest)) else None
  {
    hide ReadLiteral, LiteralTokens, Spelled, FiniteValue;
    var ts := ListTokens(vs) + [Symbol("]")] + rest;
    assert AllFinite(vs) <==> FiniteValue(vs[0]) && AllFinite(vs[1..]) by {
      assert forall v :: v in vs <==> v == vs[0] || v in vs[1..];
    }
    assert SpelledAll(vs) == [Spelled(vs[0])] + SpelledAll(vs[1..]);
    if |vs| == 1 {
      assert SpelledAll(vs) == [Spelled(vs[0])];
      assert ts == LiteralTokens(vs[0]) + ([Symbol("]")] + rest);
      LiteralReads(vs[0], [Symbol("]")] + rest);
      assert ([Symbol("]")] + rest)[1..] == rest;
    } else {
      var more := ListTokens(vs[1..]) + [Symbol("]")] + rest;
      assert ts == LiteralTokens(vs[0]) + ([Symbol(",")] + more);
      LiteralReads(vs[0], [Symbol(",")] + more);
      ListReads(vs[1..], rest);
      assert ([Symbol(",")] + more)[1..] == more;
    }
  }

  ghost predicate IsLeaf(e: Expr) {
    !e.Nil? && !e.And? && !e.Or? && (e.Not? ==> e.child.NotNull?)
  }

  lemma {:induction false} LeafReads(e: Expr, rest: seq<Token>)
    requires Writable(e) && IsLeaf(e)
    ensures ReadNot(Tokens(e) + rest) == Expected(e, rest)
  {
    hide ReadNot, ListTokens;
    match e {
      case Compare(op, f, v) => CompareReads(op, f, v, rest);
      case InList(f, vs) => InListReads(f, vs, rest);
      case TextMatch(f, query) => TextMatchReads(f, query, rest);
      case NotNull(f) => NotNullReads(f, rest);
      case IsNull(f) => NullReads(f, rest);
      case Not(c) => NullReads(c.field, rest); NotNullSpelt(c.field, rest);
      case Never => NeverReads(rest);
    }
  }

  lemma {:induction false} NotNullSpelt(f: string, rest: seq<Token>)
    ensures Tokens(Not(NotNull(f))) == [Word(f), Word("is"), Word("null")]
    ensures Expected(Not(NotNull(f)), rest) == Expected(IsNull(f), rest)
  {
    assert Readable(Not(NotNull(f))) <==> Readable(NotNull(f));
    assert Spelt(Not(NotNull(f))) == IsNull(f);
  }

  // What starts with a name is a predicate on that field; what starts with a keyword is nothing.
  lemma {:induction false} FieldReads(f: string, more: seq<Token>)
    requires more != [] && (more[0] == Word("is") || more[0] == Word("in") || (more[0].Symbol? && more[0].text != "("))
    ensures ReadNot([Word(f)] + more) == if f in RESERVED then None else ReadFieldPredicate(f, more)
  {
    var ts := [Word(f)] + more;
    assert ts[1..] == more;
    if f == "not" {
      NotAnOperand(more);
    } else {
      assert ReadNot(ts) == ReadPrimary(ts);
    }
  }

  lemma {:induction false} NotAnOperand(ts: seq<Token>)
    requires ts != [] && (ts[0] == Word("is") || ts[0] == Word("in") || (ts[0].Symbol? && ts[0].text != "("))
    ensures ReadNot(ts) == None
  {
    assert ReadPrimary(ts) == None;
  }

  lemma {:induction false} NullReads(f: string, rest: seq<Token>)
    ensures ReadNot([Word(f), Word("is"), Word("null")] + rest) == Expected(IsNull(f), rest)
  {
    hide ReadOr, ReadList, ReadLiteral, ReadNot;
    var more := [Word("is"), Word("null")] + rest;
    assert [Word(f), Word("is"), Word("null")] + rest == [Word(f)] + more;
    FieldReads(f, more);
    assert more[2..] == rest;
  }

  lemma {:induction false} NotNullReads(f: string, rest: seq<Token>)
    ensures ReadNot(Tokens(NotNull(f)) + rest) == Expected(NotNull(f), rest)
  {
    hide ReadOr, ReadList, ReadLiteral, ReadNot;
    var more := [Word("is"), Word("not"), Word("null")] + rest;
    assert Tokens(NotNull(f)) + rest == [Word(f)] + more;
    FieldReads(f, more);
    assert more[3..] == rest;
  }

  lemma {:induction false} TextMatchReads(f: string, query: string, rest: seq<Token>)
    ensures ReadNot(Tokens(TextMatch(f, query)) + rest) == Expected(TextMatch(f, query), rest)
  {
    hide ReadOr, ReadFieldPredicate;
    var ts := Tokens(TextMatch(f, query)) + rest;
    assert ts[6..] == rest;
    assert ReadNot(ts) == ReadPrimary(ts);
  }

  lemma {:induction false} NeverReads(rest: seq<Token>)
    ensures ReadNot(Tokens(Never) + rest) == Expected(Never, rest)
  {
    hide ReadOr, ReadFieldPredicate;
    var ts := Tokens(Never) + rest;
    assert ts[3..] == rest;
    assert ReadNot(ts) == ReadPrimary(ts);
  }

  lemma {:induction false} CompareReads(op: string, f: string, v: Value, rest: seq<Token>)
    requires IsCompareOp(op) && WritableValue(v)
    ensures ReadNot(Tokens(Compare(op, f, v)) + rest) == Expected(Compare(op, f, v), rest)
  {
    hide ReadNot, ReadList, ReadLiteral;
    var more := [Symbol(op)] + (LiteralTokens(v) + rest);
    assert Tokens(Compare(op, f, v)) + rest == [Word(f)] + more;
    FieldReads(f, more);
    assert more[1..] == LiteralTokens(v) + rest;
    LiteralReads(v, rest);
  }

  lemma {:induction false} InListReads(f: string, vs: seq<Value>, rest: seq<Token>)
    requires forall v :: v in vs ==> WritableValue(v)
    ensures ReadNot(Tokens(InList(f, vs)) + rest) == Expected(InList(f, vs), rest)
  {
    hide ReadNot, ReadList, ListTokens;
    var list := ListTokens(vs) + [Symbol("]")] + rest;
    var more := [Word("in"), Symbol("[")] + list;
    assert Tokens(InList(f, vs)) + rest == [Word(f)] + more;
    FieldReads(f, more);
    assert more[2..] == list;
    if vs == [] {
      NoList(vs, rest);
      assert more[3..] == rest;
    } else {
      ListStarts(vs, rest);
      ListReads(vs, rest);
    }
  }

  lemma {:induction false} NoList(vs: seq<Value>, rest: seq<Token>)
    requires vs == []
    ensures ListTokens(vs) + [Symbol("]")] + rest == [Symbol("]")] + rest && SpelledAll(vs) == []
  {
  }

  lemma {:induction false} ListStarts(vs: seq<Value>, rest: seq<Token>)
    requires vs != [] && forall v :: v in vs ==> WritableValue(v)
    ensures !At(ListTokens(vs) + [Symbol("]")] + rest, Symbol("]"))
  {
    assert WritableValue(vs[0]);
    assert LiteralTokens(vs[0]) != [] && !LiteralTokens(vs[0])[0].Symbol?;
    assert (ListTokens(vs) + [Symbol("]")] + rest)[0] == LiteralTokens(vs[0])[0];
  }

  // ----- from the inside out -----

  // A reading of a not-operand followed by no connective is the reading of the whole.
  lemma {:induction false} Lift(ts: seq<Token>)
    requires ReadNot(ts).Some? ==> Closed(ReadNot(ts).value.rest)
    ensures ReadOr(ts) == ReadNot(ts)
  {
    LiftToAnd(ts);
    OrIsAnd(ts);
  }

  lemma {:induction false} OrIsAnd(ts: seq<Token>)
    requires ReadAnd(ts).Some? ==> !At(ReadAnd(ts).value.rest, Word("or"))
    ensures ReadOr(ts) == ReadAnd(ts)
  {
    hide ReadAnd;
    assert ReadOrs(ts) == match ReadAnd(ts) case None => None case Some(Reading(e, rest)) => Some(Reading([e], rest));
  }

  lemma {:induction false} LiftToAnd(ts: seq<Token>)
    requires ReadNot(ts).Some? ==> !At(ReadNot(ts).value.rest, Word("and"))
    ensures ReadAnd(ts) == ReadNot(ts)
  {
    hide ReadNot;
    assert ReadAnds(ts) == match ReadNot(ts) case None => None case Some(Reading(e, rest)) => Some(Reading([e], rest));
  }

  lemma {:induction false} MemberReads(c: Expr, ts: seq<Token>, rest: seq<Token>)
    requires ReadOr(ts + ([Symbol(")")] + rest)) == Expected(c, [Symbol(")")] + rest)
    ensures ReadNot([Symbol("(")] + ts + [Symbol(")")] + rest) == Expected(c, rest)
  {
    hide ReadOr, Readable, Spelt;
    var all := [Symbol("(")] + ts + [Symbol(")")] + rest;
    assert all[1..] == ts + ([Symbol(")")] + rest);
    assert ([Symbol(")")] + rest)[1..] == rest;
  }

  /** The grammar reads the tokens of an expression back to the tree they spell, and where the
      expression has a hole or a keyword for a field it reads nothing. */
  lemma {:induction false} TokensRead(e: Expr, rest: seq<Token>)
    requires Writable(e) && Closed(rest)
    ensures ReadOr(Tokens(e) + rest) == Expected(e, rest)
    decreases e, 2
  {
    hide ReadNot, ReadOr, Tokens, Spelt, JoinTokens, RESERVED;
    if IsLeaf(e) {
      LeafReads(e, rest);
      Lift(Tokens(e) + rest);
    } else if e.Not? {
      TokensRead(e.child, [Symbol(")")] + rest);
      NotReads(e.child, rest);
      Lift(Tokens(e) + rest);
    } else if e.Nil? || e.children == [] {
      EmptyReads(e, rest);
    } else if |e.children| == 1 {
      TokensRead(e.children[0], rest);
      SingleReads(e, rest);
    } else if e.And? {
      AndsRead(e.children, rest);
      AndReads(e.children, rest);
    } else {
      OrsRead(e.children, rest);
      OrReads(e.children, rest);
    }
  }

  lemma {:induction false} NotReads(c: Expr, rest: seq<Token>)
    requires !c.NotNull?
    requires ReadOr(Tokens(c) + ([Symbol(")")] + rest)) == Expected(c, [Symbol(")")] + rest)
    ensures ReadNot(Tokens(Not(c)) + rest) == Expected(Not(c), rest)
  {
    hide ReadOr, ReadPrimary, JoinTokens, SpeltAll;
    MemberReads(c, Tokens(c), rest);
    var member := [Symbol("(")] + Tokens(c) + [Symbol(")")] + rest;
    assert (Tokens(Not(c)) + rest)[1..] == member;
  }

  lemma {:induction false} EmptyReads(e: Expr, rest: seq<Token>)
    requires e.Nil? || ((e.And? || e.Or?) && e.children == [])
    requires Closed(rest)
    ensures ReadOr(Tokens(e) + rest) == None && !Readable(e)
  {
    assert Tokens(e) + rest == rest;
    NothingReads(rest);
    Lift(rest);
  }

  lemma {:induction false} NothingReads(rest: seq<Token>)
    requires Closed(rest)
    ensures ReadNot(rest) == None
  {
    assert ReadPrimary(rest) == None;
  }

  lemma {:induction false} SingleReads(e: Expr, rest: seq<Token>)
    requires (e.And? || e.Or?) && |e.children| == 1
    ensures Tokens(e) == Tokens(e.children[0]) && Expected(e, rest) == Expected(e.children[0], rest)
  {
    assert e.children == [e.children[0]];
    assert Readable(e) <==> Readable(e.children[0]);
  }

  lemma {:induction false} AndReads(cs: seq<Expr>, rest: seq<Token>)
    requires |cs| > 1 && Closed(rest)
    requires ReadAnds(JoinTokens(cs, "and") + rest) == ExpectedAll(cs, rest)
    ensures ReadOr(Tokens(And(cs)) + rest) == Expected(And(cs), rest)
  {
    hide ReadAnds, JoinTokens, SpeltAll, ReadOr, AllReadable;
    JoinSpelt(cs);
    OrIsAnd(JoinTokens(cs, "and") + rest);
  }

  lemma {:induction false} OrReads(cs: seq<Expr>, rest: seq<Token>)
    requires |cs| > 1
    requires ReadOrs(JoinTokens(cs, "or") + rest) == ExpectedAll(cs, rest)
    ensures ReadOr(Tokens(Or(cs)) + rest) == Expected(Or(cs), rest)
  {
    hide ReadOrs, JoinTokens, SpeltAll, AllReadable;
    JoinSpelt(cs);
  }

  lemma {:induction false} JoinSpelt(cs: seq<Expr>)
    requires |cs| > 1
    ensures |SpeltAll(cs)| == |cs| && Spelt(And(cs)) == And(SpeltAll(cs)) && Spelt(Or(cs)) == Or(SpeltAll(cs))
    ensures Tokens(And(cs)) == JoinTokens(cs, "and") && Tokens(Or(cs)) == JoinTokens(cs, "or")
  {
  }

  // What follows the first member of a join.
  function After(cs: seq<Expr>, word: string, rest: seq<Token>): seq<Token>
    requires cs != []
  {
    (if |cs| == 1 then [] else [Word(word)] + JoinTokens(cs[1..], word)) + rest
  }

  lemma {:induction false} JoinStarts(cs: seq<Expr>, word: string, rest: seq<Token>)
    requires cs != []
    ensures JoinTokens(cs, word) + rest
         == [Symbol("(")] + Tokens(cs[0]) + [Symbol(")")] + After(cs, word, rest)
    ensures |cs| > 1 ==> After(cs, word, rest) == [Word(word)] + (JoinTokens(cs[1..], word) + rest)
    ensures |cs| > 1 ==> After(cs, word, rest)[1..] == JoinTokens(cs[1..], word) + rest
    ensures |cs| == 1 ==> After(cs, word, rest) == rest
  {
    hide Tokens, JoinTokens;
    var head := [Symbol("(")] + Tokens(cs[0]) + [Symbol(")")];
    JoinIs(cs, word);
    if |cs| == 1 {
      assert head + [] == head && [] + rest == rest;
    } else {
      var tail := JoinTokens(cs[1..], word);
      assert head + ([Word(word)] + tail) + rest == head + ([Word(word)] + tail + rest);
      assert [Word(word)] + tail + rest == [Word(word)] + (tail + rest);
    }
  }

  lemma {:induction false} JoinIs(cs: seq<Expr>, word: string)
    requires cs != []
    ensures JoinTokens(cs, word) == [Symbol("(")] + Tokens(cs[0]) + [Symbol(")")]
      + (if |cs| == 1 then [] else [Word(word)] + JoinTokens(cs[1..], word))
  {
  }

  lemma {:induction false} AllExpected(cs: seq<Expr>, rest: seq<Token>)
    requires cs != []
    ensures AllReadable(cs) <==> Readable(cs[0]) && AllReadable(cs[1..])
    ensures SpeltAll(cs) == [Spelt(cs[0])] + SpeltAll(cs[1..])
  {
    hide Readable;
    assert forall c :: c in cs <==> c == cs[0] || c in cs[1..];
  }

  lemma {:induction false} AndsRead(cs: seq<Expr>, rest: seq<Token>)
    requires cs != [] && (forall c :: c in cs ==> Writable(c)) && Closed(rest)
    ensures ReadAnds(JoinTokens(cs, "and") + rest) == ExpectedAll(cs, rest)
    decreases cs, 1
  {
    hide ReadNot, ReadOr, Tokens, Spelt, SpeltAll, JoinTokens, Readable, AllReadable, Writable, ReadAnds;
    assert cs[0] in cs;
    var after := After(cs, "and", rest);
    TokensRead(cs[0], [Symbol(")")] + after);
    MemberReads(cs[0], Tokens(cs[0]), after);
    if |cs| > 1 {
      AndsRead(cs[1..], rest);
    }
    JoinStarts(cs, "and", rest);
    AndsStep(cs, JoinTokens(cs, "and") + rest, after, rest);
  }

  lemma {:induction false} AndsUnfold(ts: seq<Token>)
    ensures ReadAnds(ts) == match ReadNot(ts)
      case None => None
      case Some(Reading(e, rest)) =>
        if !At(rest, Word("and")) then Some(Reading([e], rest))
        else match ReadAnds(rest[1..]) case None => None case Some(Reading(es, more)) => Some(Reading([e] + es, more))
  {
    hide ReadNot;
  }

  lemma {:induction false} AndsStep(cs: seq<Expr>, ts: seq<Token>, after: seq<Token>, rest: seq<Token>)
    requires cs != [] && Closed(rest) && ReadNot(ts) == Expected(cs[0], after)
    requires |cs| == 1 ==> after == rest
    requires |cs| > 1 ==> At(after, Word("and")) && ReadAnds(after[1..]) == ExpectedAll(cs[1..], rest)
    ensures ReadAnds(ts) == ExpectedAll(cs, rest)
  {
    hide ReadNot, ReadAnds, SpeltAll, Readable, AllReadable, Spelt;
    AllExpected(cs, rest);
    AndsUnfold(ts);
    if |cs| == 1 {
      NoneLeft(cs[1..]);
      assert [Spelt(cs[0])] + [] == [Spelt(cs[0])];
    }
  }

  lemma {:induction false} NoneLeft(cs: seq<Expr>)
    requires cs == []
    ensures AllReadable(cs) && SpeltAll(cs) == []
  {
  }

  lemma {:induction false} OrsRead(cs: seq<Expr>, rest: seq<Token>)
    requires cs != [] && (forall c :: c in cs ==> Writable(c)) && Closed(rest)
    ensures ReadOrs(JoinTokens(cs, "or") + rest) == ExpectedAll(cs, rest)
    decreases cs, 1
  {
    hide ReadNot, ReadOr, Tokens, Spelt, SpeltAll, JoinTokens, Readable, AllReadable, Writable, ReadOrs;
    assert cs[0] in cs;
    var after := After(cs, "or", rest);
    TokensRead(cs[0], [Symbol(")")] + after);
    MemberReads(cs[0], Tokens(cs[0]), after);
    if |cs| > 1 {
      OrsRead(cs[1..], rest);
    }
    JoinStarts(cs, "or", rest);
    LiftToAnd(JoinTokens(cs, "or") + rest);
    OrsStep(cs, JoinTokens(cs, "or") + rest, after, rest);
  }

  lemma {:induction false} OrsUnfold(ts: seq<Token>)
    ensures ReadOrs(ts) == match ReadAnd(ts)
      case None => None
      case Some(Reading(e, rest)) =>
        if !At(rest, Word("or")) then Some(Reading([e], rest))
        else match ReadOrs(rest[1..]) case None => None case Some(Reading(es, more)) => Some(Reading([e] + es, more))
  {
    hide ReadAnd;
  }

  lemma {:induction false} OrsStep(cs: seq<Expr>, ts: seq<Token>, after: seq<Token>, rest: seq<Token>)
    requires cs != [] && Closed(rest) && ReadAnd(ts) == Expected(cs[0], after)
    requires |cs| == 1 ==> after == rest
    requires |cs| > 1 ==> At(after, Word("or")) && ReadOrs(after[1..]) == ExpectedAll(cs[1..], rest)
    ensures ReadOrs(ts) == ExpectedAll(cs, rest)
  {
    hide ReadAnd, ReadOrs, SpeltAll, Readable, AllReadable, Spelt;
    AllExpected(cs, rest);
    OrsUnfold(ts);
    if |cs| == 1 {
      NoneLeft(cs[1..]);
      assert [Spelt(cs[0])] + [] == [Spelt(cs[0])];
    }
  }

  // ----- the round trip -----

  lemma {:induction false} HollowIsEmpty(e: Expr)
    requires Writable(e)
    ensures Hollow(e) <==> Tokens(e) == []
    ensures Hollow(e) ==> Finite(e) && forall row, server :: Eval(e, row, server) == True
  {
    if (e.And? || e.Or?) && |e.children| == 1 {
      assert e.children == [e.children[0]];
      HollowIsEmpty(e.children[0]);
      forall row, server ensures Eval(e, row, server) == Eval(e.children[0], row, server) {
        JoinOfOne(e.children[0], row, server);
      }
    }
  }

  lemma {:induction false} ScanNothing()
    ensures Scan("") == Some([])
  {
  }

  /** What Render writes is read back exactly when every number in it is one and the expression has no
      hole below the root and no field named like a keyword; and what is read back has the value of what
      was printed on every row. */
  lemma {:induction false} RenderReadsBack(e: Expr)
    requires Writable(e)
    ensures RenderExpr(e).Ok?
    ensures Read(RenderExpr(e).value).Some? <==> Finite(e) && (Solid(e) || Hollow(e))
    ensures Read(RenderExpr(e).value).Some? ==>
      forall row, server :: Eval(Read(RenderExpr(e).value).value, row, server) == Eval(e, row, server)
  {
    hide *;
    TextScans(e);
    EndIsClosed();
    TokensRead(e, []);
    assert Tokens(e) + [] == Tokens(e);
    HollowIsEmpty(e);
    ReadUnfolds(RenderExpr(e).value, Tokens(e));
    ExpectedMeans(e);
    ReadableIs(e);
    forall row, server ensures Eval(Spelt(e), row, server) == Eval(e, row, server) {
      SpeltKeepsValue(e, row, server);
    }
    NilIsTrue();
  }

  lemma {:induction false} EndIsClosed()
    ensures Closed([])
  {
  }

  lemma {:induction false} TextScans(e: Expr)
    requires Writable(e)
    ensures RenderExpr(e).Ok? && Scan(RenderExpr(e).value) == Some(Tokens(e))
  {
    hide RenderExpr, Tokens, Writable;
    ExprScans(e, "");
    assert RenderExpr(e).value + "" == RenderExpr(e).value;
    assert Tokens(e) + [] == Tokens(e);
  }

  lemma {:induction false} ReadUnfolds(text: string, ts: seq<Token>)
    requires Scan(text) == Some(ts)
    ensures ts == [] ==> Read(text) == Some(Nil)
    ensures ts != [] ==>
      Read(text) == match ReadOr(ts) case None => None case Some(Reading(e, rest)) => if rest == [] then Some(e)
        else None
  {
    hide Scan, ReadOr;
  }

  lemma {:induction false} ExpectedMeans(e: Expr)
    ensures Expected(e, []) == if Readable(e) then Some(Reading(Spelt(e), [])) else None
  {
  }

  lemma {:induction false} NilIsTrue()
    ensures forall row, server :: Eval(Nil, row, server) == True
  {
  }

  /** A number that is not finite is where printing does lose, wherever in the tree it stands: Render
      writes it, nothing reads the text back. */
  lemma {:induction false} NonFiniteIsUnread(e: Expr)
    requires Writable(e) && !Finite(e)
    ensures RenderExpr(e).Ok? && Read(RenderExpr(e).value) == None
  {
    hide *;
    RenderReadsBack(e);
  }
}
