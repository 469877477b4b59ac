/** The WHERE parser as it runs (internal/translate/pg/parser.go): one cursor that every method moves.
    Each method reads exactly what the grammar function of its name reads from the tokens left. */
module PgParser {
  import opened Wrappers
  import opened PgWhere
  import opened PgGrammar
  import opened SqlTokens

  // What the parts read so far and the rest of a loop come to.
  function Joined<T>(done: seq<T>, rest: Result<Reading<seq<T>>>): Result<Reading<seq<T>>> {
    match rest case Ok(more) => Ok(Reading(done + more.value, more.rest)) case Err(e) => Err(e)
  }

  function MoreAnds(ts: seq<Token>): Result<Reading<seq<Where>>> {
    if AtKeyword(ts, "AND") then ParseAnds(ts[1..]) else Ok(Reading([], ts))
  }

  function MoreOrs(ts: seq<Token>): Result<Reading<seq<Where>>> {
    if AtKeyword(ts, "OR") then ParseOrs(ts[1..]) else Ok(Reading([], ts))
  }

  class Parser {
    const toks: seq<Token>
    var i: nat

    ghost predicate Valid()
      reads this
    {
      i < |toks| && toks[|toks| - 1] == Eof
    }

    // The tokens still to be read.
    ghost function Left(): seq<Token>
      reads this
      requires Valid()
    {
      toks[i..]
    }

    // The outcome is what the grammar says about the tokens there were, and the cursor moved past them.
    ghost predicate Read<T>(spec: Result<Reading<T>>, r: Result<T>)
      reads this
      requires Valid()
    {
      match spec
      case Ok(reading) => r == Ok(reading.value) && Left() == reading.rest
      case Err(e) => r == Err(e)
    }

    constructor (toks: seq<Token>)
      requires toks != [] && toks[|toks| - 1] == Eof
      ensures Valid() && this.toks == toks && Left() == toks
    {
      this.toks := toks;
      i := 0;
    }

    function Next(): (t: Token)
      reads this
      requires Valid()
      ensures t == Peek(Left())
    {
      toks[i]
    }

    predicate PeekKeyword(word: string)
      reads this
      requires Valid()
      ensures PeekKeyword(word) <==> AtKeyword(Left(), word)
    {
      Next() == Keyword(word)
    }

    predicate PeekOp(op: string)
      reads this
      requires Valid()
      ensures PeekOp(op) <==> AtOp(Left(), op)
    {
      Next() == Op(op)
    }

    method Advance() returns (t: Token)
      requires Valid()
      modifies this`i
      ensures Valid() && t == Peek(old(Left()))
      ensures Left() == if t.Eof? then old(Left()) else old(Left())[1..]
      ensures i == if t.Eof? then old(i) else old(i) + 1
    {
      t := toks[i];
      if !t.Eof? {
        i := i + 1;
      }
    }

    method ExpectToken(t: Token) returns (r: Result<()>)
      requires Valid() && !t.Eof?
      modifies this`i
      ensures Valid() && i >= old(i) && Read(Expect(old(Left()), t), r)
    {
      if Next() != t {
        return Err(Parsing);
      }
      var _ := Advance();
      return Ok(());
    }

    method ColumnRef() returns (r: Result<string>)
      requires Valid()
      modifies this`i
      ensures Valid() && i >= old(i) && Read(ParseColumnRef(old(Left())), r)
    {
      var t := Next();
      if !t.Ident? {
        return Err(Parsing);
      }
      var _ := Advance();
      if RejectsDot(t) {
        return Err(Parsing);
      }
      if !PeekOp(".") {
        return Ok(t.text);
      }
      var _ := Advance();
      if PeekOp("*") {
        return Err(Unsupported);
      }
      var t2 := Next();
      if !t2.Ident? {
        return Err(Parsing);
      }
      var _ := Advance();
      if RejectsDot(t2) {
        return Err(Parsing);
      }
      return Ok(t.text + "." + t2.text);
    }

    method ValuePrimary() returns (r: Result<Operand>)
      requires Valid()
      modifies this`i
      ensures Valid() && i >= old(i) && Read(ParseValuePrimary(old(Left())), r)
    {
      var t := Next();
      if t.Ident? {
        var col := ColumnRef();
        if col.Err? { return Err(col.error); }
        if PeekOp("(") {
          return Err(Unsupported);
        }
        return Ok(NamedOperand(col.value));
      } else if t.Text? {
        var _ := Advance();
        return Ok(Constant(String(t.text)));
      } else if t.Digits? {
        var _ := Advance();
        return Ok(Constant(Number(t.text)));
      } else if t == Keyword("TRUE") || t == Keyword("FALSE") {
        var _ := Advance();
        return Ok(Constant(Boolean(if t.text == "TRUE" then "true" else "false")));
      } else if t == Keyword("NULL") {
        var _ := Advance();
        return Ok(Constant(SqlLiteral.Null));
      } else if t == Op("-") || t == Op("+") {
        var _ := Advance();
        var n := Next();
        if !n.Digits? {
          return Err(Parsing);
        }
        var _ := Advance();
        return Ok(Constant(Number(if t.text == "-" then "-" + n.text else n.text)));
      } else if t.Param? {
        return Err(Unsupported);
      } else if t == Op("(") {
        return Err(Unsupported);
      }
      return Err(Parsing);
    }

    method Value() returns (r: Result<Operand>)
      requires Valid()
      modifies this`i
      ensures Valid() && i >= old(i) && Read(ParseValue(old(Left())), r)
      ensures r.Ok? ==> i > old(i)
    {
      r := ValuePrimary();
      if r.Err? { return; }
      if PeekOp("::") {
        return Err(Unsupported);
      }
    }

    // The literal list of IN: the NULLs are only noted.
    method InListOf() returns (r: Result<(seq<SqlLiteral>, bool)>, ghost list: seq<SqlLiteral>)
      requires Valid()
      modifies this`i
      ensures Valid() && i >= old(i)
      ensures r.Ok? ==> ParseInList(old(Left())) == Ok(Reading(list, Left()))
      ensures r.Ok? ==> r.value.0 == NonNull(list) && (r.value.1 <==> SqlLiteral.Null in list)
      ensures r.Err? ==> ParseInList(old(Left())) == Err(r.error)
    {
      hide ParseInList, ParseValue, Joined, NonNull, Advances;
      var vals: seq<SqlLiteral> := [];
      var hadNull, more := false, true;
      list := [];
      NoValues(Left());
      while more
        invariant Valid() && i >= old(i)
        invariant vals == NonNull(list) && (hadNull <==> SqlLiteral.Null in list)
        invariant ParseInList(old(Left()))
          == Joined(list, if more then ParseInList(Left()) else Ok(Reading([], Left())))
        decreases more, |toks| - i
      {
        ghost var before := Left();
        var v := Value();
        InListUnfolds(before);
        if v.Err? {
          JoinedError(list, ParseInList(before));
          return Err(v.error), list;
        }
        if v.value.Column? {
          JoinedError(list, ParseInList(before));
          return Err(Unsupported), list;
        }
        OneMoreValue(list, v.value.literal, if PeekOp(",") then ParseInList(Left()[1..]) else Ok(Reading([], Left())));
        list := list + [v.value.literal];
        if v.value.literal.Null? {
          hadNull := true;
        } else {
          vals := vals + [v.value.literal];
        }
        if PeekOp(",") {
          var _ := Advance();
        } else {
          more := false;
        }
      }
      AllRead(list, Left());
      return Ok((vals, hadNull)), list;
    }

    method InTailOf(left: Operand, negated: bool) returns (r: Result<Where>)
      requires Valid()
      modifies this`i
      ensures Valid() && i >= old(i) && Read(ParseInTail(left, old(Left()), negated), r)
    {
      hide ParseInList, Advances;
      if left.Constant? {
        return Err(Parsing);
      }
      var open := ExpectToken(Op("("));
      if open.Err? { return Err(open.error); }
      if PeekKeyword("SELECT") {
        return Err(Unsupported);
      }
      var list, written := InListOf();
      if list.Err? { return Err(list.error); }
      var close := ExpectToken(Op(")"));
      if close.Err? { return Err(close.error); }
      if negated && list.value.1 {
        return Ok(WFalse);
      }
      return Ok(WIn(left.name, list.value.0, negated));
    }

    method BetweenTailOf(left: Operand, negated: bool) returns (r: Result<Where>)
      requires Valid()
      modifies this`i
      ensures Valid() && i >= old(i) && Read(ParseBetweenTail(left, old(Left()), negated), r)
    {
      hide ParseValue, Advances;
      if left.Constant? {
        return Err(Parsing);
      }
      var lo := Value();
      if lo.Err? { return Err(lo.error); }
      var and := ExpectToken(Keyword("AND"));
      if and.Err? { return Err(and.error); }
      var hi := Value();
      if hi.Err? { return Err(hi.error); }
      if lo.value.Column? || hi.value.Column? {
        return Err(Unsupported);
      }
      if lo.value.literal.Null? || hi.value.literal.Null? {
        return Ok(WFalse);
      }
      return Ok(WBetween(left.name, lo.value.literal, hi.value.literal, negated));
    }

    method NegatedTailOf(left: Operand) returns (r: Result<Where>)
      requires Valid()
      modifies this`i
      ensures Valid() && i >= old(i) && Read(ParseNegatedTail(left, old(Left())), r)
    {
      hide ParseInTail, ParseBetweenTail, Advances;
      if PeekKeyword("IN") {
        var _ := Advance();
        r := InTailOf(left, true);
      } else if PeekKeyword("BETWEEN") {
        var _ := Advance();
        r := BetweenTailOf(left, true);
      } else if PeekKeyword("LIKE") || PeekKeyword("ILIKE") {
        var _ := Advance();
        return Err(Unsupported);
      } else {
        return Err(Parsing);
      }
    }

    method IsTailOf(left: Operand) returns (r: Result<Where>)
      requires Valid()
      modifies this`i
      ensures Valid() && i >= old(i) && Read(ParseIsTail(left, old(Left())), r)
    {
      var negated := false;
      if PeekKeyword("NOT") {
        var _ := Advance();
        negated := true;
      }
      var word := ExpectToken(Keyword("NULL"));
      if word.Err? { return Err(word.error); }
      if left.Constant? {
        return Err(Parsing);
      }
      return Ok(WNull(left.name, negated));
    }

    // parsePredicate, once its left operand is read.
    method TailOf(left: Operand) returns (r: Result<Where>)
      requires Valid()
      modifies this`i
      ensures Valid() && i >= old(i) && Read(ParseTail(left, old(Left())), r)
    {
      hide ParseInTail, ParseBetweenTail, ParseNegatedTail, ParseIsTail, ParseValue, CombineComparison, Advances;
      if PeekKeyword("IS") {
        var _ := Advance();
        r := IsTailOf(left);
      } else if PeekKeyword("NOT") {
        var _ := Advance();
        r := NegatedTailOf(left);
      } else if PeekKeyword("IN") {
        var _ := Advance();
        r := InTailOf(left, false);
      } else if PeekKeyword("BETWEEN") {
        var _ := Advance();
        r := BetweenTailOf(left, false);
      } else if PeekKeyword("LIKE") || PeekKeyword("ILIKE") {
        var _ := Advance();
        return Err(Unsupported);
      } else if Next().Op? && Next().text in {"<->", "<=>", "<#>", "<+>"} {
        var _ := Advance();
        return Err(Unsupported);
      } else if Next().Op? && IsCompareOp(Next().text) {
        var op := Advance();
        var right := Value();
        if right.Err? { return Err(right.error); }
        return CombineComparison(left, op.text, right.value);
      } else {
        return ResolveBare(left);
      }
    }

    method PredicateOf() returns (r: Result<Where>)
      requires Valid()
      modifies this`i
      ensures Valid() && i >= old(i) && Read(ParsePredicate(old(Left())), r)
      decreases |toks| - i, 0
    {
      hide ParseOr, ParseValue, ParseTail, Advances;
      if PeekOp("(") {
        var _ := Advance();
        var inner := Or();
        if inner.Err? { return Err(inner.error); }
        var close := ExpectToken(Op(")"));
        if close.Err? { return Err(close.error); }
        return Ok(inner.value);
      }
      var left := Value();
      if left.Err? { return Err(left.error); }
      r := TailOf(left.value);
    }

    method Not() returns (r: Result<Where>)
      requires Valid()
      modifies this`i
      ensures Valid() && i >= old(i) && Read(ParseNot(old(Left())), r)
      ensures r.Ok? ==> i > old(i)
      decreases |toks| - i, 1
    {
      if PeekKeyword("NOT") {
        var _ := Advance();
        var child := Not();
        if child.Err? { return Err(child.error); }
        return Ok(WNot(child.value));
      }
      r := PredicateOf();
    }

    method And() returns (r: Result<Where>)
      requires Valid()
      modifies this`i
      ensures Valid() && i >= old(i) && Read(ParseAnd(old(Left())), r)
      ensures r.Ok? ==> i > old(i)
      decreases |toks| - i, 2
    {
      hide ParseNot, ParseAnds, Joined, MoreAnds, Advances;
      var first := Not();
      AndsUnfold(old(Left()));
      if first.Err? { return Err(first.error); }
      var parts := [first.value];
      while PeekKeyword("AND")
        invariant Valid() && i > old(i) && parts != []
        invariant ParseAnds(old(Left())) == Joined(parts, MoreAnds(Left()))
        decreases |toks| - i
      {
        MoreAndsUnfolds(Left());
        var _ := Advance();
        ghost var before := Left();
        var next := Not();
        AndsUnfold(before);
        if next.Err? {
          JoinedError(parts, ParseAnds(before));
          return Err(next.error);
        }
        OneMore(parts, next.value, MoreAnds(Left()));
        parts := parts + [next.value];
      }
      NoMoreAnds(parts, Left());
      return Ok(if |parts| == 1 then parts[0] else WAnd(parts));
    }

    method Or() returns (r: Result<Where>)
      requires Valid()
      modifies this`i
      ensures Valid() && i >= old(i) && Read(ParseOr(old(Left())), r)
      decreases |toks| - i, 3
    {
      hide ParseAnd, ParseOrs, Joined, MoreOrs, Advances;
      var first := And();
      OrsUnfold(old(Left()));
      if first.Err? { return Err(first.error); }
      var parts := [first.value];
      while PeekKeyword("OR")
        invariant Valid() && i > old(i) && parts != []
        invariant ParseOrs(old(Left())) == Joined(parts, MoreOrs(Left()))
        decreases |toks| - i
      {
        MoreOrsUnfolds(Left());
        var _ := Advance();
        ghost var before := Left();
        var next := And();
        OrsUnfold(before);
        if next.Err? {
          JoinedError(parts, ParseOrs(before));
          return Err(next.error);
        }
        OneMore(parts, next.value, MoreOrs(Left()));
        parts := parts + [next.value];
      }
      NoMoreOrs(parts, Left());
      return Ok(if |parts| == 1 then parts[0] else WOr(parts));
    }
  }

  // ----- the loops against the grammar -----

  lemma JoinedError<T>(done: seq<T>, r: Result<Reading<seq<T>>>)
    ensures r.Err? ==> Joined(done, r) == Err(r.error)
  {
  }

  lemma OneMore<T>(done: seq<T>, x: T, rest: Result<Reading<seq<T>>>)
    ensures Joined(done, Joined([x], rest)) == Joined(done + [x], rest)
  {
    if rest.Ok? {
      assert done + ([x] + rest.value.value) == done + [x] + rest.value.value;
    }
  }

  lemma AndsUnfold(ts: seq<Token>)
    ensures ParseAnds(ts) == match ParseNot(ts) case Ok(first) => Joined([first.value], MoreAnds(first.rest))
      case Err(e) => Err(e)
  {
    hide ParseNot, Advances;
    if ParseNot(ts).Ok? {
      assert [ParseNot(ts).value.value] + [] == [ParseNot(ts).value.value];
    }
  }

  lemma MoreAndsUnfolds(ts: seq<Token>)
    ensures AtKeyword(ts, "AND") ==> MoreAnds(ts) == ParseAnds(ts[1..])
  {
  }

  lemma NoMoreAnds(parts: seq<Where>, ts: seq<Token>)
    ensures !AtKeyword(ts, "AND") ==> Joined(parts, MoreAnds(ts)) == Ok(Reading(parts, ts))
  {
    assert parts + [] == parts;
  }

  lemma OrsUnfold(ts: seq<Token>)
    ensures ParseOrs(ts) == match ParseAnd(ts) case Ok(first) => Joined([first.value], MoreOrs(first.rest))
      case Err(e) => Err(e)
  {
    hide ParseAnd, Advances;
    if ParseAnd(ts).Ok? {
      assert [ParseAnd(ts).value.value] + [] == [ParseAnd(ts).value.value];
    }
  }

  lemma MoreOrsUnfolds(ts: seq<Token>)
    ensures AtKeyword(ts, "OR") ==> MoreOrs(ts) == ParseOrs(ts[1..])
  {
  }

  lemma NoMoreOrs(parts: seq<Where>, ts: seq<Token>)
    ensures !AtKeyword(ts, "OR") ==> Joined(parts, MoreOrs(ts)) == Ok(Reading(parts, ts))
  {
    assert parts + [] == parts;
  }

  lemma InListUnfolds(ts: seq<Token>)
    ensures ParseInList(ts) == match ParseValue(ts)
      case Err(e) => Err(e)
      case Ok(v) =>
        if v.value.Column? then Err(Unsupported)
        else Joined([v.value.literal], if AtOp(v.rest, ",") then ParseInList(v.rest[1..]) else Ok(Reading([], v.rest)))
  {
    hide ParseValue, Advances;
    if ParseValue(ts).Ok? && ParseValue(ts).value.value.Constant? {
      var l := ParseValue(ts).value.value.literal;
      assert [l] + [] == [l];
    }
  }

  lemma NoValues(ts: seq<Token>)
    ensures NonNull([]) == [] && Joined([], ParseInList(ts)) == ParseInList(ts)
  {
    if ParseInList(ts).Ok? {
      assert [] + ParseInList(ts).value.value == ParseInList(ts).value.value;
    }
  }

  lemma OneMoreValue(done: seq<SqlLiteral>, l: SqlLiteral, rest: Result<Reading<seq<SqlLiteral>>>)
    ensures Joined(done, Joined([l], rest)) == Joined(done + [l], rest)
    ensures NonNull(done + [l]) == NonNull(done) + (if l.Null? then [] else [l])
  {
    OneMore(done, l, rest);
    NonNullSnoc(done, l);
  }

  lemma NonNullSnoc(done: seq<SqlLiteral>, l: SqlLiteral)
    ensures NonNull(done + [l]) == NonNull(done) + (if l.Null? then [] else [l])
  {
    if done != [] {
      assert (done + [l])[1..] == done[1..] + [l];
      NonNullSnoc(done[1..], l);
    }
  }

  lemma AllRead(list: seq<SqlLiteral>, ts: seq<Token>)
    ensures Joined(list, Ok(Reading([], ts))) == Ok(Reading(list, ts))
  {
    assert list + [] == list;
  }
}
