/** The WHERE parser inverts its grammar: a predicate printed with the fewest parentheses is read back
    as itself, OR binding looser than AND, AND looser than NOT, and BETWEEN owning its AND. */
module PgRoundTrip {
  import opened Wrappers
  import opened PgWhere
  import Schema
  import opened PgExact
  import opened PgGrammar
  import opened SqlTokens
  import SqlLexer

  // ----- the printer -----

  function FirstDot(name: string): (d: nat)
    ensures d <= |name| && (d < |name| ==> name[d] == '.')
  {
    if name == "" || name[0] == '.' then 0 else 1 + FirstDot(name[1..])
  }

  // A name is quoted where it would be read as something else. A name with a dot in it cannot be spelled.
  function PrintName(name: string): Token {
    Ident(name, '.' !in name && !SqlLexer.IsPlainName(name, QUERY))
  }

  function PrintColumn(name: string): seq<Token> {
    var d := FirstDot(name);
    if d == |name| then [PrintName(name)] else [PrintName(name[..d]), Op("."), PrintName(name[d + 1..])]
  }

  function PrintLiteral(l: SqlLiteral): seq<Token> {
    match l
    case Number(text) => if text != "" && text[0] == '-' then [Op("-"), Digits(text[1..])] else [Digits(text)]
    case String(text) => [Text(text)]
    case Boolean(text) => [Keyword(if text == "true" then "TRUE" else "FALSE")]
    case Null => [Keyword("NULL")]
  }

  function PrintOperand(v: Operand): (ts: seq<Token>)
    ensures ts != []
  {
    match v case Column(name) => PrintColumn(name) case Constant(l) => PrintLiteral(l)
  }

  function PrintList(ls: seq<SqlLiteral>): seq<Token> {
    if ls == [] then []
    else if |ls| == 1 then PrintLiteral(ls[0])
    else PrintLiteral(ls[0]) + [Op(",")] + PrintList(ls[1..])
  }

  function NotIf(negated: bool): seq<Token> {
    if negated then [Keyword("NOT")] else []
  }

  function Parenthesized(ts: seq<Token>): seq<Token> {
    [Op("(")] + ts + [Op(")")]
  }

  function Print(p: Predicate): seq<Token>
    decreases p, 0
  {
    match p
    case Comparison(l, op, r) => PrintOperand(l) + [Op(op)] + PrintOperand(r)
    case InTail(l, vs, negated) => PrintOperand(l) + NotIf(negated) + [Keyword("IN")] + Parenthesized(PrintList(vs))
    case BetweenTail(l, lo, hi, negated) =>
      PrintOperand(l) + NotIf(negated) + [Keyword("BETWEEN")] + PrintLiteral(lo) + [Keyword("AND")] + PrintLiteral(hi)
    case NullTest(l, negated) => PrintOperand(l) + [Keyword("IS")] + NotIf(negated) + [Keyword("NULL")]
    case Bare(v) => PrintOperand(v)
    case Negation(c) => [Keyword("NOT")] + PrintTight(c)
    case Conjunction(parts) => PrintAnds(parts)
    case Disjunction(parts) => PrintOrs(parts)
  }

  // Under NOT and AND: groups need parentheses.
  function PrintTight(p: Predicate): seq<Token>
    decreases p, 1
  {
    if p.Conjunction? || p.Disjunction? then Parenthesized(Print(p)) else Print(p)
  }

  // Under OR: only another OR needs them.
  function PrintMiddle(p: Predicate): seq<Token>
    decreases p, 1
  {
    if p.Disjunction? then Parenthesized(Print(p)) else Print(p)
  }

  function PrintAnds(ps: seq<Predicate>): seq<Token>
    decreases ps, 2
  {
    if ps == [] then []
    else if |ps| == 1 then PrintTight(ps[0])
    else PrintTight(ps[0]) + [Keyword("AND")] + PrintAnds(ps[1..])
  }

  function PrintOrs(ps: seq<Predicate>): seq<Token>
    decreases ps, 2
  {
    if ps == [] then []
    else if |ps| == 1 then PrintMiddle(ps[0])
    else PrintMiddle(ps[0]) + [Keyword("OR")] + PrintOrs(ps[1..])
  }

  // The predicates a statement can spell: groups have two parts or more, booleans are true or false,
  // columns have a name.
  predicate SpelledLiteral(l: SqlLiteral) {
    l.Boolean? ==> l.text == "true" || l.text == "false"
  }

  predicate Spelled(v: Operand) {
    match v case Column(name) => name != "" case Constant(l) => SpelledLiteral(l)
  }

  predicate Printable(p: Predicate) {
    match p
    case Comparison(l, op, r) => IsCompareOp(op) && Spelled(l) && Spelled(r)
    case InTail(l, vs, _) => vs != [] && Spelled(l) && forall v :: v in vs ==> SpelledLiteral(v)
    case BetweenTail(l, lo, hi, _) => Spelled(l) && SpelledLiteral(lo) && SpelledLiteral(hi)
    case NullTest(l, _) => Spelled(l)
    case Bare(v) => Spelled(v)
    case Negation(c) => Printable(c)
    case Conjunction(parts) => |parts| >= 2 && forall c :: c in parts ==> Printable(c)
    case Disjunction(parts) => |parts| >= 2 && forall c :: c in parts ==> Printable(c)
  }

  // ----- what may follow -----

  // No operand or predicate goes on here.
  predicate Closes(ts: seq<Token>) {
    && !AtOp(ts, "(") && !AtOp(ts, ".") && !AtOp(ts, "::") && !AtVectorOp(ts) && !AtCompareOp(ts)
    && !AtKeyword(ts, "IS") && !AtKeyword(ts, "NOT") && !AtKeyword(ts, "IN") && !AtKeyword(ts, "BETWEEN")
    && !AtKeyword(ts, "LIKE") && !AtKeyword(ts, "ILIKE")
  }

  // An operand ends here.
  predicate EndsOperand(ts: seq<Token>) {
    !AtOp(ts, "(") && !AtOp(ts, ".") && !AtOp(ts, "::")
  }

  function Reads<T>(r: Result<T>, rest: seq<Token>): Result<Reading<T>> {
    match r case Ok(v) => Ok(Reading(v, rest)) case Err(e) => Err(e)
  }

  // ----- operands are read back -----

  lemma {:induction false} OperandInverts(v: Operand, rest: seq<Token>)
    requires Spelled(v) && EndsOperand(rest)
    ensures ParseValue(PrintOperand(v) + rest) == Ok(Reading(v, rest))
  {
    var ts := PrintOperand(v) + rest;
    if v.Column? {
      var d := FirstDot(v.name);
      if d == |v.name| {
        assert ts[1..] == rest;
      } else {
        assert ts[1..][0] == Op(".") && ts[1..][1..][0] == PrintName(v.name[d + 1..]) && ts[1..][2..] == rest;
        assert v.name[..d] + "." + v.name[d + 1..] == v.name;
      }
    } else {
      LiteralInverts(v.literal, rest);
    }
  }

  lemma {:induction false} LiteralInverts(l: SqlLiteral, rest: seq<Token>)
    requires SpelledLiteral(l) && EndsOperand(rest)
    ensures ParseValue(PrintLiteral(l) + rest) == Ok(Reading(Constant(l), rest))
  {
    var ts := PrintLiteral(l) + rest;
    if l.Number? && l.text != "" && l.text[0] == '-' {
      assert ts[1..][0] == Digits(l.text[1..]) && ts[2..] == rest;
      assert "-" + l.text[1..] == l.text;
    } else {
      assert ts[1..] == rest;
    }
  }

  lemma {:induction false} InListStep(ts: seq<Token>, l: SqlLiteral, more: seq<Token>)
    requires ParseValue(ts) == Ok(Reading(Constant(l), more))
    ensures !AtOp(more, ",") ==> ParseInList(ts) == Ok(Reading([l], more))
    ensures AtOp(more, ",") && ParseInList(more[1..]).Ok? ==>
      ParseInList(ts) == Ok(Reading([l] + ParseInList(more[1..]).value.value, ParseInList(more[1..]).value.rest))
  {
  }

  lemma {:induction false} ListInverts(ls: seq<SqlLiteral>, rest: seq<Token>)
    requires ls != [] && (forall l :: l in ls ==> SpelledLiteral(l)) && AtOp(rest, ")")
    ensures ParseInList(PrintList(ls) + rest) == Ok(Reading(ls, rest))
  {
    hide *;
    LiteralsSpelled(ls);
    PrintListStep(ls);
    if |ls| == 1 {
      ListEnds(rest);
      LiteralInverts(ls[0], rest);
      InListStep(PrintLiteral(ls[0]) + rest, ls[0], rest);
      assert ls == [ls[0]];
    } else {
      var tail := PrintList(ls[1..]) + rest;
      var more := [Op(",")] + tail;
      assert PrintList(ls) + rest == PrintLiteral(ls[0]) + more && more[1..] == tail;
      CommaEnds(tail);
      LiteralInverts(ls[0], more);
      InListStep(PrintLiteral(ls[0]) + more, ls[0], more);
      ListInverts(ls[1..], rest);
      assert ls == [ls[0]] + ls[1..];
    }
  }

  lemma {:induction false} LiteralsSpelled(ls: seq<SqlLiteral>)
    requires ls != [] && forall l :: l in ls ==> SpelledLiteral(l)
    ensures SpelledLiteral(ls[0]) && forall l :: l in ls[1..] ==> SpelledLiteral(l)
  {
  }

  lemma {:induction false} PrintListStep(ls: seq<SqlLiteral>)
    requires ls != []
    ensures PrintList(ls) == if |ls| == 1 then PrintLiteral(ls[0])
      else PrintLiteral(ls[0]) + [Op(",")] + PrintList(ls[1..])
  {
  }

  lemma {:induction false} ListEnds(rest: seq<Token>)
    requires AtOp(rest, ")")
    ensures EndsOperand(rest) && !AtOp(rest, ",")
  {
  }

  lemma {:induction false} CommaEnds(rest: seq<Token>)
    ensures EndsOperand([Op(",")] + rest) && AtOp([Op(",")] + rest, ",")
  {
  }

  // ----- single predicates are read back -----

  function LeftOf(p: Predicate): Operand
    requires IsAtom(p)
  {
    if p.Bare? then p.value else p.left
  }

  // What is printed after the left operand.
  function TailOf(p: Predicate): seq<Token>
    requires IsAtom(p)
  {
    match p
    case Comparison(_, op, r) => [Op(op)] + PrintOperand(r)
    case InTail(_, vs, negated) => NotIf(negated) + [Keyword("IN")] + Parenthesized(PrintList(vs))
    case BetweenTail(_, lo, hi, negated) =>
      NotIf(negated) + [Keyword("BETWEEN")] + PrintLiteral(lo) + [Keyword("AND")] + PrintLiteral(hi)
    case NullTest(_, negated) => [Keyword("IS")] + NotIf(negated) + [Keyword("NULL")]
    case Bare(_) => []
  }

  lemma {:induction false} PrintSplits(p: Predicate)
    requires IsAtom(p)
    ensures Print(p) == PrintOperand(LeftOf(p)) + TailOf(p)
  {
    hide PrintOperand, PrintLiteral, PrintList, NotIf;
  }

  lemma {:induction false} ListStarts(vs: seq<SqlLiteral>, rest: seq<Token>)
    requires vs != []
    ensures !AtKeyword(PrintList(vs) + rest, "SELECT")
  {
    assert PrintList(vs)[0] == PrintLiteral(vs[0])[0];
  }

  lemma {:induction false} InInverts(left: Operand, vs: seq<SqlLiteral>, negated: bool, rest: seq<Token>)
    requires vs != [] && forall v :: v in vs ==> SpelledLiteral(v)
    ensures ParseInTail(left, Parenthesized(PrintList(vs)) + rest, negated) == Reads(ResolveIn(left, vs, negated), rest)
  {
    hide ParseInList, PrintList;
    var ts, after := Parenthesized(PrintList(vs)) + rest, [Op(")")] + rest;
    assert ts[1..] == PrintList(vs) + after;
    ListStarts(vs, after);
    ListInverts(vs, after);
    assert after[1..] == rest;
  }

  lemma {:induction false} BetweenInverts(left: Operand, lo: SqlLiteral, hi: SqlLiteral, negated: bool,
    rest: seq<Token>)
    requires SpelledLiteral(lo) && SpelledLiteral(hi) && EndsOperand(rest)
    ensures ParseBetweenTail(left, PrintLiteral(lo) + [Keyword("AND")] + PrintLiteral(hi) + rest, negated)
         == Reads(ResolveBetween(left, lo, hi, negated), rest)
  {
    hide *;
    var and := [Keyword("AND")] + (PrintLiteral(hi) + rest);
    var ts := PrintLiteral(lo) + [Keyword("AND")] + PrintLiteral(hi) + rest;
    assert ts == PrintLiteral(lo) + and;
    StartsEndsOperand(and);
    LiteralInverts(lo, and);
    assert and[1..] == PrintLiteral(hi) + rest;
    LiteralInverts(hi, rest);
    BetweenStep(left, ts, lo, and, hi, rest, negated);
  }

  lemma {:induction false} StartsEndsOperand(ts: seq<Token>)
    ensures ts != [] && ts[0].Keyword? ==> EndsOperand(ts)
  {
  }

  lemma {:induction false} BetweenStep(left: Operand, ts: seq<Token>, lo: SqlLiteral, and: seq<Token>,
    hi: SqlLiteral, rest: seq<Token>,
                    negated: bool)
    requires ParseValue(ts) == Ok(Reading(Constant(lo), and)) && and != [] && and[0] == Keyword("AND")
    requires ParseValue(and[1..]) == Ok(Reading(Constant(hi), rest))
    ensures ParseBetweenTail(left, ts, negated) == Reads(ResolveBetween(left, lo, hi, negated), rest)
  {
  }

  lemma {:induction false} TailInverts(p: Predicate, rest: seq<Token>)
    requires IsAtom(p) && Printable(p) && Closes(rest)
    ensures ParseTail(LeftOf(p), TailOf(p) + rest) == Reads(Resolve(p), rest)
  {
    hide ParseTail, ParseInTail, ParseBetweenTail, PrintOperand, PrintLiteral, PrintList, Advances, Closes,
      CombineComparison, ResolveIn, ResolveBetween, ResolveBare, NotIf, Reads;
    ClosesEnds(rest);
    match p {
      case Comparison(l, op, r) =>
        ComparisonTailInverts(l, op, r, rest);
      case InTail(l, vs, negated) =>
        InInverts(l, vs, negated, rest);
        TailStep(l, "IN", Parenthesized(PrintList(vs)) + rest, negated);
        assert TailOf(p) + rest == NotIf(negated) + ([Keyword("IN")] + (Parenthesized(PrintList(vs)) + rest));
      case BetweenTail(l, lo, hi, negated) =>
        var bounds := PrintLiteral(lo) + [Keyword("AND")] + PrintLiteral(hi) + rest;
        BetweenInverts(l, lo, hi, negated, rest);
        TailStep(l, "BETWEEN", bounds, negated);
        assert TailOf(p) + rest == NotIf(negated) + ([Keyword("BETWEEN")] + bounds);
      case NullTest(l, negated) =>
        NullTailInverts(l, negated, rest);
      case Bare(v) =>
        BareInverts(v, rest);
        assert TailOf(p) + rest == rest;
    }
  }

  lemma {:induction false} ClosesEnds(rest: seq<Token>)
    requires Closes(rest)
    ensures EndsOperand(rest)
  {
  }

  lemma {:induction false} BareInverts(v: Operand, rest: seq<Token>)
    requires Closes(rest)
    ensures ParseTail(v, rest) == Reads(ResolveBare(v), rest)
  {
  }

  // NOT IN and NOT BETWEEN lead where IN and BETWEEN do.
  lemma {:induction false} TailStep(left: Operand, word: string, rest: seq<Token>, negated: bool)
    requires word == "IN" || word == "BETWEEN"
    ensures ParseTail(left, NotIf(negated) + ([Keyword(word)] + rest))
         == if word == "IN" then ParseInTail(left, rest, negated) else ParseBetweenTail(left, rest, negated)
  {
    hide ParseInTail, ParseBetweenTail, Advances;
    var ts := NotIf(negated) + ([Keyword(word)] + rest);
    if negated {
      assert ts[1..] == [Keyword(word)] + rest && ts[1..][1..] == rest;
    } else {
      assert ts == [Keyword(word)] + rest && ts[1..] == rest;
    }
  }

  lemma {:induction false} ComparisonTailInverts(left: Operand, op: string, right: Operand, rest: seq<Token>)
    requires IsCompareOp(op) && Spelled(right) && EndsOperand(rest)
    ensures ParseTail(left, [Op(op)] + PrintOperand(right) + rest) == Reads(CombineComparison(left, op, right), rest)
  {
    hide ParseValue, PrintOperand, CombineComparison, Advances;
    assert ([Op(op)] + PrintOperand(right) + rest)[1..] == PrintOperand(right) + rest;
    OperandInverts(right, rest);
  }

  lemma {:induction false} NullTailInverts(left: Operand, negated: bool, rest: seq<Token>)
    ensures ParseTail(left, [Keyword("IS")] + NotIf(negated) + [Keyword("NULL")] + rest)
         == Reads(Resolve(NullTest(left, negated)), rest)
  {
    hide Advances;
    var ts, tail := [Keyword("IS")] + NotIf(negated) + [Keyword("NULL")] + rest, [Keyword("NULL")] + rest;
    assert tail[1..] == rest;
    if negated {
      assert ts[1..][0] == Keyword("NOT") && ts[1..][1..] == tail;
    } else {
      assert ts[1..] == tail;
    }
  }

  lemma {:induction false} OperandStarts(v: Operand, rest: seq<Token>)
    ensures !AtOp(PrintOperand(v) + rest, "(") && !AtKeyword(PrintOperand(v) + rest, "NOT")
  {
  }

  // No tail continues its operand.
  lemma {:induction false} TailEndsOperand(p: Predicate, rest: seq<Token>)
    requires IsAtom(p) && Printable(p) && Closes(rest)
    ensures EndsOperand(TailOf(p) + rest)
  {
    if p.Bare? {
      assert TailOf(p) + rest == rest;
    }
  }

  lemma {:induction false} AtomInverts(p: Predicate, rest: seq<Token>)
    requires IsAtom(p) && Printable(p) && Closes(rest)
    ensures ParseNot(Print(p) + rest) == Reads(Resolve(p), rest)
  {
    hide ParseValue, ParseTail, PrintOperand, TailOf, Print, Resolve;
    var left := LeftOf(p);
    PrintSplits(p);
    assert Print(p) + rest == PrintOperand(left) + (TailOf(p) + rest);
    OperandStarts(left, TailOf(p) + rest);
    TailEndsOperand(p, rest);
    OperandInverts(left, TailOf(p) + rest);
    TailInverts(p, rest);
  }

  // ----- groups are read back -----

  ghost predicate Separates(rest: seq<Token>) {
    Closes(rest) && !AtKeyword(rest, "AND")
  }

  ghost predicate Terminates(rest: seq<Token>) {
    Separates(rest) && !AtKeyword(rest, "OR")
  }

  /** Under NOT and AND. */
  lemma {:induction false} TightInverts(p: Predicate, rest: seq<Token>)
    requires Printable(p) && Closes(rest)
    ensures ParseNot(PrintTight(p) + rest) == Reads(Resolve(p), rest)
    decreases p, if p.Conjunction? || p.Disjunction? then 6 else 3
  {
    if p.Conjunction? || p.Disjunction? {
      hide ParseOr, ParseNot, Print, Resolve;
      LooseInverts(p, [Op(")")] + rest);
      ParenthesesInvert(Print(p), rest);
    } else if p.Negation? {
      TightInverts(p.child, rest);
      NegationInverts(p.child, rest);
    } else {
      AtomInverts(p, rest);
    }
  }

  lemma {:induction false} NegationInverts(c: Predicate, rest: seq<Token>)
    requires ParseNot(PrintTight(c) + rest) == Reads(Resolve(c), rest)
    ensures ParseNot(PrintTight(Negation(c)) + rest) == Reads(Resolve(Negation(c)), rest)
  {
    hide *;
    var ts := [Keyword("NOT")] + (PrintTight(c) + rest);
    NegationPrints(c);
    assert PrintTight(Negation(c)) + rest == ts;
    NotStep(PrintTight(c) + rest, Resolve(c), rest);
    NegationResolves(c);
  }

  lemma {:induction false} NotStep(ts: seq<Token>, r: Result<Where>, rest: seq<Token>)
    requires ParseNot(ts) == Reads(r, rest)
    ensures ParseNot([Keyword("NOT")] + ts) == Reads(if r.Ok? then Ok(WNot(r.value)) else r, rest)
  {
    hide ParsePredicate;
    assert ([Keyword("NOT")] + ts)[1..] == ts;
  }

  lemma {:induction false} NegationPrints(c: Predicate)
    ensures PrintTight(Negation(c)) == [Keyword("NOT")] + PrintTight(c)
  {
  }

  lemma {:induction false} ParenthesesInvert(inner: seq<Token>, rest: seq<Token>)
    ensures var r := ParseOr(inner + ([Op(")")] + rest));
      r.Ok? && r.value.rest == [Op(")")] + rest ==>
        ParseNot(Parenthesized(inner) + rest) == Ok(Reading(r.value.value, rest))
    ensures var r := ParseOr(inner + ([Op(")")] + rest));
      r.Err? ==> ParseNot(Parenthesized(inner) + rest) == Err(r.error)
  {
    hide ParseOr;
    assert (Parenthesized(inner) + rest)[1..] == inner + ([Op(")")] + rest);
    assert ([Op(")")] + rest)[1..] == rest;
  }

  /** Under OR. */
  lemma {:induction false} MiddleInverts(p: Predicate, rest: seq<Token>)
    requires Printable(p) && Separates(rest)
    ensures ParseAnd(PrintMiddle(p) + rest) == Reads(Resolve(p), rest)
    decreases p, if p.Disjunction? then 7 else 4
  {
    hide *;
    PrintableParts(p);
    if p.Conjunction? {
      AndsInvert(p.parts, rest);
      ConjunctionInverts(p, rest);
    } else {
      SeparatesFacts(rest);
      TightInverts(p, rest);
      SinglesInvert(p, rest);
    }
  }

  lemma {:induction false} PrintableParts(p: Predicate)
    requires Printable(p)
    ensures p.Conjunction? ==> |p.parts| > 1 && forall c :: c in p.parts ==> Printable(c)
  {
  }

  lemma {:induction false} ConjunctionInverts(p: Predicate, rest: seq<Token>)
    requires p.Conjunction? && |p.parts| > 1
    requires ParseAnds(PrintAnds(p.parts) + rest) == Reads(ResolveAll(p.parts), rest)
    ensures ParseAnd(PrintMiddle(p) + rest) == Reads(Resolve(p), rest)
  {
    hide ParseAnds, PrintAnds, ResolveAll;
    ResolvedLength(p.parts);
  }

  lemma {:induction false} ResolvedLength(ps: seq<Predicate>)
    ensures ResolveAll(ps).Ok? ==> |ResolveAll(ps).value| == |ps|
  {
  }

  lemma {:induction false} SinglesInvert(p: Predicate, rest: seq<Token>)
    requires !p.Conjunction? && !AtKeyword(rest, "AND")
    requires ParseNot(PrintTight(p) + rest) == Reads(Resolve(p), rest)
    ensures ParseAnd(PrintMiddle(p) + rest) == Reads(Resolve(p), rest)
  {
    hide ParseNot, Print, Resolve;
    assert PrintMiddle(p) == PrintTight(p);
  }

  lemma {:induction false} AndsInvert(ps: seq<Predicate>, rest: seq<Token>)
    requires ps != [] && (forall c :: c in ps ==> Printable(c)) && Separates(rest)
    ensures ParseAnds(PrintAnds(ps) + rest) == Reads(ResolveAll(ps), rest)
    decreases ps, 5
  {
    hide *;
    Parts(ps);
    PrintAndsStep(ps);
    if |ps| == 1 {
      SeparatesFacts(rest);
      TightInverts(ps[0], rest);
      AndsStep(PrintTight(ps[0]) + rest, ps, rest);
    } else {
      var tail := PrintAnds(ps[1..]) + rest;
      var more := [Keyword("AND")] + tail;
      assert PrintAnds(ps) + rest == PrintTight(ps[0]) + more && more[1..] == tail;
      KeywordFacts("AND", tail);
      TightInverts(ps[0], more);
      AndsInvert(ps[1..], rest);
      AndsStep(PrintTight(ps[0]) + more, ps, more);
    }
  }

  lemma {:induction false} Parts(ps: seq<Predicate>)
    requires ps != [] && forall c :: c in ps ==> Printable(c)
    ensures Printable(ps[0]) && forall c :: c in ps[1..] ==> Printable(c)
  {
  }

  lemma {:induction false} SeparatesFacts(rest: seq<Token>)
    requires Separates(rest)
    ensures Closes(rest) && !AtKeyword(rest, "AND")
  {
  }

  lemma {:induction false} KeywordFacts(word: string, rest: seq<Token>)
    requires word == "AND" || word == "OR"
    ensures Closes([Keyword(word)] + rest) && AtKeyword([Keyword(word)] + rest, word)
    ensures word == "OR" ==> Separates([Keyword(word)] + rest)
  {
  }

  lemma {:induction false} PrintAndsStep(ps: seq<Predicate>)
    requires ps != []
    ensures PrintAnds(ps) == if |ps| == 1 then PrintTight(ps[0])
      else PrintTight(ps[0]) + [Keyword("AND")] + PrintAnds(ps[1..])
  {
  }

  // One part is read; the keyword after it decides whether the list goes on.
  lemma {:induction false} AndsStep(ts: seq<Token>, ps: seq<Predicate>, more: seq<Token>)
    requires ps != [] && ParseNot(ts) == Reads(Resolve(ps[0]), more)
    requires if |ps| == 1 then !AtKeyword(more, "AND") else AtKeyword(more, "AND")
    ensures |ps| == 1 ==> ParseAnds(ts) == Reads(ResolveAll(ps), more)
    ensures |ps| > 1 ==> forall rest :: ParseAnds(more[1..]) == Reads(ResolveAll(ps[1..]), rest) ==>
      ParseAnds(ts) == Reads(ResolveAll(ps), rest)
  {
    hide ParseNot, Resolve, Advances;
    if |ps| == 1 {
      assert ResolveAll(ps[1..]) == Ok([]);
      if Resolve(ps[0]).Ok? {
        assert [Resolve(ps[0]).value] + [] == [Resolve(ps[0]).value];
      }
    }
  }

  /** A whole WHERE clause. */
  lemma {:induction false} LooseInverts(p: Predicate, rest: seq<Token>)
    requires Printable(p) && Terminates(rest)
    ensures ParseOr(Print(p) + rest) == Reads(Resolve(p), rest)
    decreases p, if p.Disjunction? then 2 else 5
  {
    if p.Disjunction? {
      OrsInvert(p.parts, rest);
    } else {
      MiddleInverts(p, rest);
    }
  }

  lemma {:induction false} OrsInvert(ps: seq<Predicate>, rest: seq<Token>)
    requires ps != [] && (forall c :: c in ps ==> Printable(c)) && Terminates(rest)
    ensures ParseOrs(PrintOrs(ps) + rest) == Reads(ResolveAll(ps), rest)
    decreases ps, 5
  {
    hide *;
    Parts(ps);
    PrintOrsStep(ps);
    TerminatesFacts(rest);
    if |ps| == 1 {
      MiddleInverts(ps[0], rest);
      OrsStep(PrintMiddle(ps[0]) + rest, ps, rest);
    } else {
      var tail := PrintOrs(ps[1..]) + rest;
      var more := [Keyword("OR")] + tail;
      assert PrintOrs(ps) + rest == PrintMiddle(ps[0]) + more && more[1..] == tail;
      KeywordFacts("OR", tail);
      MiddleInverts(ps[0], more);
      OrsInvert(ps[1..], rest);
      OrsStep(PrintMiddle(ps[0]) + more, ps, more);
    }
  }

  lemma {:induction false} TerminatesFacts(rest: seq<Token>)
    requires Terminates(rest)
    ensures Separates(rest) && !AtKeyword(rest, "OR")
  {
  }

  lemma {:induction false} PrintOrsStep(ps: seq<Predicate>)
    requires ps != []
    ensures PrintOrs(ps) == if |ps| == 1 then PrintMiddle(ps[0])
      else PrintMiddle(ps[0]) + [Keyword("OR")] + PrintOrs(ps[1..])
  {
  }

  lemma {:induction false} OrsStep(ts: seq<Token>, ps: seq<Predicate>, more: seq<Token>)
    requires ps != [] && ParseAnd(ts) == Reads(Resolve(ps[0]), more)
    requires if |ps| == 1 then !AtKeyword(more, "OR") else AtKeyword(more, "OR")
    ensures |ps| == 1 ==> ParseOrs(ts) == Reads(ResolveAll(ps), more)
    ensures |ps| > 1 ==> forall rest :: ParseOrs(more[1..]) == Reads(ResolveAll(ps[1..]), rest) ==>
      ParseOrs(ts) == Reads(ResolveAll(ps), rest)
  {
    hide ParseAnd, Resolve, Advances;
    if |ps| == 1 {
      assert ResolveAll(ps[1..]) == Ok([]);
      if Resolve(ps[0]).Ok? {
        assert [Resolve(ps[0]).value] + [] == [Resolve(ps[0]).value];
      }
    }
  }

  /** From tokens to rows: the plan compiled from a printed clause returns exactly what SQL passes. */
  lemma {:induction false} ParsedAnswers(p: Predicate, rest: seq<Token>, w: Schema.World)
    requires Printable(p) && Terminates(rest) && Harmless(p, true)
    requires PlanWhere(p, w.schema, w.readers).Ok?
    ensures var r := ParseOr(Print(p) + rest);
      && r.Ok? && r.value.rest == rest
      && PlanOf(r.value.value, w.schema, w.readers).Ok?
      && (Schema.Answers(PlanOf(r.value.value, w.schema, w.readers).value, w.row, w.server) <==> SqlTruth(p, w).True?)
  {
    LooseInverts(p, rest);
    PrintableWellFormed(p);
    SelectAnswers(p, w);
  }

  lemma {:induction false} PrintableWellFormed(p: Predicate)
    requires Printable(p)
    ensures WellFormed(p)
    decreases p
  {
    match p {
      case Negation(c) => PrintableWellFormed(c);
      case Conjunction(parts) => forall c | c in parts { PrintableWellFormed(c); }
      case Disjunction(parts) => forall c | c in parts { PrintableWellFormed(c); }
      case _ =>
    }
  }
}
