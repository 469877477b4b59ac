/** The text Render writes scans into the tokens it stands for. */
module RenderScan {
  import opened Wrappers
  import opened Text
  import opened Milvus
  import opened Render
  import opened RenderRead

  // ----- expressions whose text reads back -----

  // A finite number as it is written: digits and dots after an optional sign.
  predicate IsDecimal(d: string) {
    StartsNumeral(d) && NumeralLength(d) == |d|
  }

  // What Go prints for the floats that are no numbers.
  const NON_FINITE: set<string> := {"NaN", "+Inf", "-Inf"}

  predicate GoSpelled(v: Value) {
    v.Float? ==> IsDecimal(v.text) || v.text in NON_FINITE
  }

  predicate WritableValue(v: Value) {
    !v.Unset? && GoSpelled(v)
  }

  /** What Render can write: known operators, field names that are identifiers, values that are set and, if
      floats, spelled as Go spells them. A missing child and an empty join are written as no text at all. */
  ghost predicate Writable(e: Expr) {
    match e
    case Nil => true
    case Never => true
    case Compare(op, f, v) => IsCompareOp(op) && IsIdentifier(f) && WritableValue(v)
    case InList(f, vs) => IsIdentifier(f) && forall v :: v in vs ==> WritableValue(v)
    case TextMatch(f, _) => IsIdentifier(f)
    case NotNull(f) => IsIdentifier(f)
    case IsNull(f) => IsIdentifier(f)
    case Not(c) => Writable(c)
    case And(cs) => forall c :: c in cs ==> Writable(c)
    case Or(cs) => forall c :: c in cs ==> Writable(c)
  }

  function LiteralTokens(v: Value): seq<Token> {
    match v
    case Unset => []
    case Str(s) => [Quoted(s)]
    case Int(n) => [Numeral(Decimal(n))]
    case Float(text) =>
      if IsDecimal(text) then [Numeral(text)]
      else if text == "+Inf" || text == "-Inf" then [Stray(text[0]), Word(text[1..])]
      else [Word(text)]
    case Flag(b) => [Word(if b then "true" else "false")]
  }

  function ListTokens(vs: seq<Value>): seq<Token> {
    if vs == [] then []
    else LiteralTokens(vs[0]) + (if |vs| == 1 then [] else [Symbol(",")] + ListTokens(vs[1..]))
  }

  function Tokens(e: Expr): seq<Token>
    decreases e, 1
  {
    match e
    case Nil => []
    case Compare(op, f, v) => [Word(f), Symbol(op)] + LiteralTokens(v)
    case InList(f, vs) => [Word(f), Word("in"), Symbol("[")] + ListTokens(vs) + [Symbol("]")]
    case TextMatch(f, q) => [Word("TEXT_MATCH"), Symbol("("), Word(f), Symbol(","), Quoted(q), Symbol(")")]
    case NotNull(f) => [Word(f), Word("is"), Word("not"), Word("null")]
    case IsNull(f) => [Word(f), Word("is"), Word("null")]
    case Not(NotNull(f)) => [Word(f), Word("is"), Word("null")]
    case Not(c) => [Word("not"), Symbol("(")] + Tokens(c) + [Symbol(")")]
    case And(cs) => if |cs| == 1 then Tokens(cs[0]) else JoinTokens(cs, "and")
    case Or(cs) => if |cs| == 1 then Tokens(cs[0]) else JoinTokens(cs, "or")
    case Never => [Numeral("1"), Symbol(NE), Numeral("1")]
  }

  function JoinTokens(cs: seq<Expr>, word: string): seq<Token>
    decreases cs, 0
  {
    if cs == [] then []
    else
      [Symbol("(")] + Tokens(cs[0]) + [Symbol(")")]
      + (if |cs| == 1 then [] else [Word(word)] + JoinTokens(cs[1..], word))
  }

  // ----- one token at a time -----

  function Before(ts: seq<Token>, r: Option<seq<Token>>): Option<seq<Token>> {
    match r case None => None case Some(more) => Some(ts + more)
  }

  // Text after which no word, numeral or symbol goes on.
  predicate Boundary(rest: string) {
    rest == "" || rest[0] in " ),]"
  }

  lemma {:induction false} ScanWord(w: string, rest: string)
    requires IsIdentifier(w) && (rest == "" || !IsIdentPart(rest[0]))
    ensures Scan(w + rest) == Before([Word(w)], Scan(rest))
  {
    var s := w + rest;
    var n := WordLength(s, NotIdentPart);
    assert forall i :: 0 <= i < |w| ==> s[i] == w[i];
    assert rest != "" ==> s[|w|] == rest[0];
    assert s[..n] == w && s[n..] == rest;
  }

  lemma {:induction false} ScanSpace(rest: string)
    ensures Scan(" " + rest) == Scan(rest)
  {
    assert (" " + rest)[1..] == rest;
  }

  lemma {:induction false} ScanSymbol(sym: string, rest: string)
    requires sym in {EQ, NE, GT, GE, LT, LE, "(", ")", "[", "]", ","}
    requires sym == GT || sym == LT ==> Boundary(rest)
    ensures Scan(sym + rest) == Before([Symbol(sym)], Scan(rest))
  {
    var s := sym + rest;
    assert s[..|sym|] == sym && s[|sym|..] == rest && s[0] == sym[0];
    if |sym| == 1 && |s| > 1 {
      assert s[..2] == [sym[0], rest[0]];
    }
  }

  lemma {:induction false} ScanNumeral(d: string, rest: string)
    requires IsDecimal(d) && (rest == "" || NotNumeral(rest[0]))
    ensures Scan(d + rest) == Before([Numeral(d)], Scan(rest))
  {
    NumeralSplits(d, rest);
    var s := d + rest;
    assert s[..|d|] == d && s[|d|..] == rest;
  }

  lemma {:induction false} NumeralSplits(d: string, rest: string)
    requires IsDecimal(d) && (rest == "" || NotNumeral(rest[0]))
    ensures StartsNumeral(d + rest) && NumeralLength(d + rest) == |d|
  {
    var s := d + rest;
    assert s[0] == d[0] && (|d| > 1 ==> s[1] == d[1]);
    if d[0] == '-' {
      assert s[1..] == d[1..] + rest;
      SpanAppend(d[1..], rest);
    } else {
      SpanAppend(d, rest);
    }
  }

  lemma {:induction false} SpanAppend(d: string, rest: string)
    requires WordLength(d, NotNumeral) == |d| && (rest == "" || NotNumeral(rest[0]))
    ensures WordLength(d + rest, NotNumeral) == |d|
  {
    var s := d + rest;
    assert forall i :: 0 <= i < |d| ==> s[i] == d[i];
    assert rest != "" ==> s[|d|] == rest[0];
  }

  /** A quoted literal comes back unescaped to what it was. */
  lemma {:induction false} StringReadsBack(text: string, rest: string)
    ensures ReadString(Escape(text) + "\"" + rest) == Some((text, rest))
  {
    if text == "" {
      assert (Escape(text) + "\"" + rest)[1..] == rest;
    } else {
      var tail := Escape(text[1..]) + "\"" + rest;
      StringReadsBack(text[1..], rest);
      CharReadsBack(text[0], tail, text[1..], rest);
      assert Escape(text) + "\"" + rest == Escape([text[0]]) + tail;
      assert text == [text[0]] + text[1..];
    }
  }

  lemma {:induction false} CharReadsBack(c: char, tail: string, text: string, rest: string)
    requires ReadString(tail) == Some((text, rest))
    ensures ReadString(Escape([c]) + tail) == Some(([c] + text, rest))
  {
    var s := Escape([c]) + tail;
    assert [c][1..] == "" && Escape("") == "";
    assert Escape([c]) == if c == '\\' || c == '"' then ['\\', c] else [c];
    if c == '\\' || c == '"' {
      assert s == ['\\', c] + tail && s[2..] == tail;
    } else {
      assert s == [c] + tail && s[1..] == tail;
    }
  }

  lemma {:induction false} ScanQuoted(text: string, rest: string)
    ensures Scan(Quote(text) + rest) == Before([Quoted(text)], Scan(rest))
  {
    var s := Quote(text) + rest;
    assert s[1..] == Escape(text) + "\"" + rest;
    StringReadsBack(text, rest);
  }

  lemma {:induction false} DecimalIsDecimal(n: int)
    ensures IsDecimal(Decimal(n))
  {
    var d := Digits(if n < 0 then -n else n);
    assert forall i :: 0 <= i < |d| ==> !NotNumeral(d[i]);
    assert WordLength(d, NotNumeral) == |d|;
    if n < 0 {
      assert Decimal(n)[1..] == d;
    }
  }

  lemma {:induction false} ScanNonFinite(text: string, rest: string)
    requires text in NON_FINITE && !IsDecimal(text) && Boundary(rest)
    ensures Scan(text + rest) == Before(LiteralTokens(Float(text)), Scan(rest))
  {
    hide Scan, Before;
    if text == "NaN" {
      ScanWord(text, rest);
    } else {
      var sign, word := text[0], text[1..];
      assert word == "Inf" && text + rest == [sign] + (word + rest);
      ScanStray(sign, word + rest);
      ScanWord(word, rest);
      Chain([Stray(sign)], [Word(word)], Scan(rest), [Stray(sign), Word(word)]);
    }
  }

  lemma {:induction false} ScanStray(c: char, rest: string)
    requires (c == '+' || c == '-') && (rest != "" ==> !IsDigit(rest[0]) && rest[0] != '=')
    ensures Scan([c] + rest) == Before([Stray(c)], Scan(rest))
  {
    var s := [c] + rest;
    assert s[1..] == rest;
    assert |s| > 1 ==> s[1] == rest[0];
    assert SymbolLength(s) == 0;
  }

  lemma {:induction false} ScanLiteral(v: Value, rest: string)
    requires WritableValue(v) && Boundary(rest)
    ensures RenderLiteral(v).Ok? && Scan(RenderLiteral(v).value + rest) == Before(LiteralTokens(v), Scan(rest))
  {
    match v {
      case Str(s) => ScanQuoted(s, rest);
      case Int(n) => DecimalIsDecimal(n); ScanNumeral(Decimal(n), rest);
      case Float(text) => if IsDecimal(text) { ScanNumeral(text, rest); } else { ScanNonFinite(text, rest); }
      case Flag(b) => ScanWord(if b then "true" else "false", rest);
    }
  }

  // ----- whole expressions -----

  lemma {:induction false} Chain(a: seq<Token>, b: seq<Token>, r: Option<seq<Token>>, ts: seq<Token>)
    requires a + b == ts
    ensures Before(a, Before(b, r)) == Before(ts, r)
  {
    if r.Some? {
      assert a + (b + r.value) == a + b + r.value;
    }
  }

  lemma {:induction false} LiteralRenders(v: Value)
    requires WritableValue(v)
    ensures RenderLiteral(v).Ok?
  {
  }

  lemma {:induction false} ListScans(vs: seq<Value>, rest: string)
    requires vs != [] && forall v :: v in vs ==> WritableValue(v)
    ensures RenderLiterals(vs).Ok?
    ensures Scan(RenderLiterals(vs).value + ("]" + rest)) == Before(ListTokens(vs) + [Symbol("]")], Scan(rest))
  {
    hide Scan, Before, RenderLiteral, LiteralTokens, WritableValue;
    LiteralRenders(vs[0]);
    var head := RenderLiteral(vs[0]).value;
    ScanSymbol("]", rest);
    if |vs| == 1 {
      assert ListTokens(vs) + [Symbol("]")] == LiteralTokens(vs[0]) + [Symbol("]")];
      ScanLiteral(vs[0], "]" + rest);
      Chain(LiteralTokens(vs[0]), [Symbol("]")], Scan(rest), LiteralTokens(vs[0]) + [Symbol("]")]);
    } else {
      ListScans(vs[1..], rest);
      var tail := RenderLiterals(vs[1..]).value + ("]" + rest);
      ScanLiteral(vs[0], "," + (" " + tail));
      ScanSymbol(",", " " + tail);
      ScanSpace(tail);
      assert RenderLiterals(vs).value + ("]" + rest) == head + ("," + (" " + tail));
      var more := ListTokens(vs[1..]) + [Symbol("]")];
      Chain([Symbol(",")], more, Scan(rest), [Symbol(",")] + more);
      Chain(LiteralTokens(vs[0]), [Symbol(",")] + more, Scan(rest), LiteralTokens(vs[0]) + ([Symbol(",")] + more));
      assert ListTokens(vs) + [Symbol("]")] == LiteralTokens(vs[0]) + ([Symbol(",")] + more);
    }
  }

  // A field name and the space after it.
  lemma {:induction false} ScanField(f: string, rest: string)
    requires IsIdentifier(f)
    ensures Scan(f + (" " + rest)) == Before([Word(f)], Scan(rest))
  {
    ScanWord(f, " " + rest);
    ScanSpace(rest);
  }

  lemma {:induction false} CompareScans(op: string, f: string, v: Value, rest: string)
    requires IsCompareOp(op) && IsIdentifier(f) && WritableValue(v) && Boundary(rest)
    ensures RenderExpr(Compare(op, f, v)).Ok?
    ensures Scan(RenderExpr(Compare(op, f, v)).value + rest) == Before(Tokens(Compare(op, f, v)), Scan(rest))
  {
    hide Scan, Before, RenderLiteral;
    ScanLiteral(v, rest);
    var literal := RenderLiteral(v).value + rest;
    assert RenderExpr(Compare(op, f, v)).value + rest == f + (" " + (op + (" " + literal)));
    ScanField(f, op + (" " + literal));
    ScanSymbol(op, " " + literal);
    ScanSpace(literal);
    Chain([Symbol(op)], LiteralTokens(v), Scan(rest), [Symbol(op)] + LiteralTokens(v));
    Chain([Word(f)], [Symbol(op)] + LiteralTokens(v), Scan(rest), [Word(f)] + ([Symbol(op)] + LiteralTokens(v)));
    assert [Word(f), Symbol(op)] + LiteralTokens(v) == [Word(f)] + ([Symbol(op)] + LiteralTokens(v));
  }

  lemma {:induction false} InListScans(f: string, vs: seq<Value>, rest: string)
    requires IsIdentifier(f) && (forall v :: v in vs ==> WritableValue(v)) && Boundary(rest)
    ensures RenderExpr(InList(f, vs)).Ok?
    ensures Scan(RenderExpr(InList(f, vs)).value + rest) == Before(Tokens(InList(f, vs)), Scan(rest))
  {
    hide Scan, Before, RenderLiteral, RenderLiterals, ListTokens;
    ListOrEmpty(vs, rest);
    var list := RenderLiterals(vs).value + ("]" + rest);
    assert RenderExpr(InList(f, vs)).value + rest == f + (" " + ("in" + (" " + ("[" + list))));
    ScanField(f, "in" + (" " + ("[" + list)));
    ScanWord("in", " " + ("[" + list));
    ScanSpace("[" + list);
    ScanSymbol("[", list);
    var tokens := ListTokens(vs) + [Symbol("]")];
    Chain([Symbol("[")], tokens, Scan(rest), [Symbol("[")] + tokens);
    Chain([Word("in")], [Symbol("[")] + tokens, Scan(rest), [Word("in")] + ([Symbol("[")] + tokens));
    Chain([Word(f)], [Word("in")] + ([Symbol("[")] + tokens), Scan(rest),
      [Word(f)] + ([Word("in")] + ([Symbol("[")] + tokens)));
    assert Tokens(InList(f, vs)) == [Word(f)] + ([Word("in")] + ([Symbol("[")] + tokens));
  }

  lemma {:induction false} ListOrEmpty(vs: seq<Value>, rest: string)
    requires forall v :: v in vs ==> WritableValue(v)
    ensures RenderLiterals(vs).Ok?
    ensures Scan(RenderLiterals(vs).value + ("]" + rest)) == Before(ListTokens(vs) + [Symbol("]")], Scan(rest))
  {
    if vs == [] {
      ScanSymbol("]", rest);
      assert "" + ("]" + rest) == "]" + rest && ListTokens(vs) + [Symbol("]")] == [Symbol("]")];
    } else {
      ListScans(vs, rest);
    }
  }

  lemma {:induction false} TextMatchScans(f: string, query: string, rest: string)
    requires IsIdentifier(f) && Boundary(rest)
    ensures RenderExpr(TextMatch(f, query)).Ok?
    ensures Scan(RenderExpr(TextMatch(f, query)).value + rest) == Before(Tokens(TextMatch(f, query)), Scan(rest))
  {
    hide Scan, Before, Quote;
    var quoted := Quote(query) + (")" + rest);
    var arguments := f + ("," + (" " + quoted));
    assert RenderExpr(TextMatch(f, query)).value + rest == "TEXT_MATCH" + ("(" + arguments);
    ScanWord("TEXT_MATCH", "(" + arguments);
    ScanSymbol("(", arguments);
    ScanWord(f, "," + (" " + quoted));
    ScanSymbol(",", " " + quoted);
    ScanSpace(quoted);
    ScanQuoted(query, ")" + rest);
    ScanSymbol(")", rest);
    Chain([Quoted(query)], [Symbol(")")], Scan(rest), [Quoted(query), Symbol(")")]);
    Chain([Symbol(",")], [Quoted(query), Symbol(")")], Scan(rest), [Symbol(","), Quoted(query), Symbol(")")]);
    Chain([Word(f)], [Symbol(","), Quoted(query), Symbol(")")], Scan(rest),
      [Word(f), Symbol(","), Quoted(query), Symbol(")")]);
    Chain([Symbol("(")], [Word(f), Symbol(","), Quoted(query), Symbol(")")], Scan(rest),
      [Symbol("("), Word(f), Symbol(","), Quoted(query), Symbol(")")]);
    Chain([Word("TEXT_MATCH")], [Symbol("("), Word(f), Symbol(","), Quoted(query), Symbol(")")], Scan(rest),
      [Word("TEXT_MATCH"), Symbol("("), Word(f), Symbol(","), Quoted(query), Symbol(")")]);
  }

  lemma {:induction false} NullCheckScans(f: string, negated: bool, rest: string)
    requires IsIdentifier(f) && Boundary(rest)
    ensures Scan(f + (if negated then " is not null" else " is null") + rest)
         == Before(if negated then [Word(f), Word("is"), Word("not"), Word("null")]
           else [Word(f), Word("is"), Word("null")],
                   Scan(rest))
  {
    hide Scan, Before;
    var nullText := "null" + rest;
    var words := if negated then "not" + (" " + nullText) else nullText;
    assert f + (if negated then " is not null" else " is null") + rest == f + (" " + ("is" + (" " + words)));
    ScanField(f, "is" + (" " + words));
    ScanWord("is", " " + words);
    ScanSpace(words);
    if negated {
      ScanWord("not", " " + nullText);
      ScanSpace(nullText);
    }
    ScanWord("null", rest);
    var last := if negated then [Word("not"), Word("null")] else [Word("null")];
    Chain([Word("not")], [Word("null")], Scan(rest), [Word("not"), Word("null")]);
    Chain([Word("is")], last, Scan(rest), [Word("is")] + last);
    Chain([Word(f)], [Word("is")] + last, Scan(rest), [Word(f)] + ([Word("is")] + last));
    assert [Word(f)] + ([Word("is")] + last)
        == if negated then [Word(f), Word("is"), Word("not"), Word("null")] else [Word(f), Word("is"), Word("null")];
  }

  lemma {:induction false} NeverScans(rest: string)
    requires Boundary(rest)
    ensures Scan("1 != 1" + rest) == Before(Tokens(Never), Scan(rest))
  {
    hide Scan, Before;
    assert "1 != 1" + rest == "1" + (" " + ("!=" + (" " + ("1" + rest))));
    assert IsDecimal("1") by { DecimalIsDecimal(1); assert Decimal(1) == "1"; }
    ScanNumeral("1", " " + ("!=" + (" " + ("1" + rest))));
    ScanSpace("!=" + (" " + ("1" + rest)));
    ScanSymbol("!=", " " + ("1" + rest));
    ScanSpace("1" + rest);
    ScanNumeral("1", rest);
    Chain([Symbol(NE)], [Numeral("1")], Scan(rest), [Symbol(NE), Numeral("1")]);
    Chain([Numeral("1")], [Symbol(NE), Numeral("1")], Scan(rest), [Numeral("1"), Symbol(NE), Numeral("1")]);
  }

  // A rendering that succeeds and scans into the tokens.
  ghost predicate ScansTo(text: Result<string>, ts: seq<Token>, rest: string) {
    text.Ok? && Scan(text.value + rest) == Before(ts, Scan(rest))
  }

  /** Rendering succeeds on every writable expression, and its text scans into the expression's tokens
      wherever the text ends at a boundary. */
  lemma {:induction false} ExprScans(e: Expr, rest: string)
    requires Writable(e) && Boundary(rest)
    ensures ScansTo(RenderExpr(e), Tokens(e), rest)
    decreases e, 2
  {
    hide Scan, Before, RenderExpr, Tokens, IsIdentifier, IsDecimal, RenderJoin, JoinTokens;
    match e {
      case Not(c) =>
        if !c.NotNull? {
          assert Boundary(")" + rest);
          ExprScans(c, ")" + rest);
        }
        NotCase(c, rest);
      case And(cs) => GroupScans(cs, "and", rest); GroupCase(cs, rest);
      case Or(cs) => GroupScans(cs, "or", rest); GroupCase(cs, rest);
      case _ => LeafScans(e, rest);
    }
  }

  lemma {:induction false} LeafScans(e: Expr, rest: string)
    requires Writable(e) && Boundary(rest) && !e.Not? && !e.And? && !e.Or?
    ensures ScansTo(RenderExpr(e), Tokens(e), rest)
  {
    hide Scan, Before;
    match e {
      case Compare(op, f, v) => CompareScans(op, f, v, rest);
      case InList(f, vs) => InListScans(f, vs, rest);
      case TextMatch(f, query) => TextMatchScans(f, query, rest);
      case NotNull(f) => NullCheckScans(f, true, rest);
      case IsNull(f) => NullCheckScans(f, false, rest);
      case Never => NeverScans(rest);
      case Nil => EmptyScans(rest);
    }
  }

  lemma {:induction false} EmptyScans(rest: string)
    ensures ScansTo(Ok(""), [], rest)
  {
    assert "" + rest == rest;
    if Scan(rest).Some? {
      assert [] + Scan(rest).value == Scan(rest).value;
    }
  }

  lemma {:induction false} NotCase(c: Expr, rest: string)
    requires Boundary(rest) && Writable(c)
    requires !c.NotNull? ==> ScansTo(RenderExpr(c), Tokens(c), ")" + rest)
    ensures ScansTo(RenderExpr(Not(c)), Tokens(Not(c)), rest)
  {
    hide Scan, Before, RenderExpr, Tokens, Writable;
    NotUnfolds(c);
    if c.NotNull? {
      NullCheckScans(c.field, false, rest);
      assert c.field + " is null" + rest == c.field + (if false then " is not null" else " is null") + rest;
    } else {
      NotScans(RenderExpr(c).value, Tokens(c), rest);
      assert "not (" + RenderExpr(c).value + ")" + rest == "not" + (" " + ("(" + (RenderExpr(c).value + (")" + rest))));
    }
  }

  lemma {:induction false} NotUnfolds(c: Expr)
    requires Writable(c)
    ensures c.NotNull? ==> IsIdentifier(c.field) && RenderExpr(Not(c)) == Ok(c.field + " is null")
    ensures c.NotNull? ==> Tokens(Not(c)) == [Word(c.field), Word("is"), Word("null")]
    ensures !c.NotNull? && RenderExpr(c).Ok? ==> RenderExpr(Not(c)) == Ok("not (" + RenderExpr(c).value + ")")
    ensures !c.NotNull? ==> Tokens(Not(c)) == [Word("not"), Symbol("(")] + Tokens(c) + [Symbol(")")]
  {
  }

  lemma {:induction false} GroupCase(cs: seq<Expr>, rest: string)
    ensures |cs| == 1 && ScansTo(RenderExpr(cs[0]), Tokens(cs[0]), rest) ==>
      ScansTo(RenderExpr(And(cs)), Tokens(And(cs)), rest) && ScansTo(RenderExpr(Or(cs)), Tokens(Or(cs)), rest)
    ensures |cs| != 1 && ScansTo(RenderJoin(cs, " and "), JoinTokens(cs, "and"), rest) ==>
      ScansTo(RenderExpr(And(cs)), Tokens(And(cs)), rest)
    ensures |cs| != 1 && ScansTo(RenderJoin(cs, " or "), JoinTokens(cs, "or"), rest) ==>
      ScansTo(RenderExpr(Or(cs)), Tokens(Or(cs)), rest)
  {
    hide Scan, Before, RenderJoin, JoinTokens;
  }

  lemma {:induction false} NotScans(text: string, ts: seq<Token>, rest: string)
    requires Scan(text + (")" + rest)) == Before(ts, Scan(")" + rest))
    ensures Scan("not" + (" " + ("(" + (text + (")" + rest)))))
         == Before([Word("not"), Symbol("(")] + ts + [Symbol(")")], Scan(rest))
  {
    hide Scan, Before;
    var inner := text + (")" + rest);
    ScanWord("not", " " + ("(" + inner));
    ScanSpace("(" + inner);
    MemberScans(text, ts, rest);
    var member := [Symbol("(")] + ts + [Symbol(")")];
    Chain([Word("not")], member, Scan(rest), [Word("not")] + member);
    assert [Word("not"), Symbol("(")] + ts + [Symbol(")")] == [Word("not")] + member;
  }

  // A parenthesized member.
  lemma {:induction false} MemberScans(text: string, ts: seq<Token>, rest: string)
    requires Scan(text + (")" + rest)) == Before(ts, Scan(")" + rest))
    ensures Scan("(" + (text + (")" + rest))) == Before([Symbol("(")] + ts + [Symbol(")")], Scan(rest))
  {
    hide Scan, Before;
    ScanSymbol("(", text + (")" + rest));
    ScanSymbol(")", rest);
    Chain(ts, [Symbol(")")], Scan(rest), ts + [Symbol(")")]);
    Chain([Symbol("(")], ts + [Symbol(")")], Scan(rest), [Symbol("(")] + ts + [Symbol(")")]);
  }

  lemma {:induction false} GroupScans(cs: seq<Expr>, word: string, rest: string)
    requires (forall c :: c in cs ==> Writable(c)) && (word == "and" || word == "or") && Boundary(rest)
    ensures if |cs| == 1 then ScansTo(RenderExpr(cs[0]), Tokens(cs[0]), rest)
            else ScansTo(RenderJoin(cs, if word == "and" then " and " else " or "), JoinTokens(cs, word), rest)
    decreases cs, 1
  {
    hide ScansTo, RenderJoin, JoinTokens, RenderExpr, Tokens, Writable;
    if |cs| == 1 {
      ExprScans(cs[0], rest);
    } else {
      JoinScans(cs, word, rest);
      assert " " + word + " " == if word == "and" then " and " else " or ";
    }
  }

  lemma {:induction false} JoinScans(cs: seq<Expr>, word: string, rest: string)
    requires (forall c :: c in cs ==> Writable(c)) && (word == "and" || word == "or") && Boundary(rest)
    ensures ScansTo(RenderJoin(cs, " " + word + " "), JoinTokens(cs, word), rest)
    decreases cs, 0
  {
    hide Scan, Before, RenderExpr, Tokens, Writable, ScansTo, RenderJoin, JoinTokens;
    var op := " " + word + " ";
    if cs == [] {
      NoMember(op, word, rest);
    } else if |cs| == 1 {
      assert Boundary(")" + rest);
      ExprScans(cs[0], ")" + rest);
      LastMember(cs, word, rest);
    } else {
      JoinScans(cs[1..], word, rest);
      var after := " " + (word + (" " + (RenderJoin(cs[1..], op).GetOr("") + rest)));
      assert Boundary(")" + after);
      ExprScans(cs[0], ")" + after);
      NextMember(cs, word, after, rest);
    }
  }

  lemma {:induction false} NoMember(op: string, word: string, rest: string)
    ensures ScansTo(RenderJoin([], op), JoinTokens([], word), rest)
  {
    EmptyScans(rest);
  }

  lemma {:induction false} LastMember(cs: seq<Expr>, word: string, rest: string)
    requires |cs| == 1 && ScansTo(RenderExpr(cs[0]), Tokens(cs[0]), ")" + rest)
    ensures ScansTo(RenderJoin(cs, " " + word + " "), JoinTokens(cs, word), rest)
  {
    hide Scan, Before, RenderExpr, Tokens;
    var op := " " + word + " ";
    assert RenderJoin(cs[1..], op) == Ok("");
    MemberScans(RenderExpr(cs[0]).value, Tokens(cs[0]), rest);
    assert RenderJoin(cs, op).value + rest == "(" + (RenderExpr(cs[0]).value + (")" + rest));
    assert JoinTokens(cs, word) == [Symbol("(")] + Tokens(cs[0]) + [Symbol(")")];
  }

  lemma {:induction false} NextMember(cs: seq<Expr>, word: string, after: string, rest: string)
    requires |cs| > 1 && (word == "and" || word == "or")
    requires ScansTo(RenderJoin(cs[1..], " " + word + " "), JoinTokens(cs[1..], word), rest)
    requires after == " " + (word + (" " + (RenderJoin(cs[1..], " " + word + " ").GetOr("") + rest)))
    requires ScansTo(RenderExpr(cs[0]), Tokens(cs[0]), ")" + after)
    ensures ScansTo(RenderJoin(cs, " " + word + " "), JoinTokens(cs, word), rest)
  {
    hide Scan, Before, RenderExpr, Tokens, RenderJoin, JoinTokens, Writable, IsIdentifier;
    var op, more := " " + word + " ", JoinTokens(cs[1..], word);
    var head, text := RenderExpr(cs[0]).value, RenderJoin(cs[1..], op).value;
    var member := [Symbol("(")] + Tokens(cs[0]) + [Symbol(")")];
    JoinUnfolds(cs, op, word);
    MemberScans(head, Tokens(cs[0]), after);
    WordScans(word, text + rest);
    Chain([Word(word)], more, Scan(rest), [Word(word)] + more);
    Chain(member, [Word(word)] + more, Scan(rest), member + ([Word(word)] + more));
    Regroup(head, word, text, rest);
  }

  // The word between two members and the spaces around it.
  lemma {:induction false} WordScans(word: string, rest: string)
    requires word == "and" || word == "or"
    ensures Scan(" " + (word + (" " + rest))) == Before([Word(word)], Scan(rest))
  {
    hide Scan, Before;
    ScanSpace(word + (" " + rest));
    ScanWord(word, " " + rest);
    ScanSpace(rest);
  }

  lemma {:induction false} Regroup(head: string, word: string, text: string, rest: string)
    ensures "(" + head + ")" + (" " + word + " " + text) + rest
         == "(" + (head + (")" + (" " + (word + (" " + (text + rest))))))
  {
  }

  lemma {:induction false} JoinUnfolds(cs: seq<Expr>, op: string, word: string)
    requires |cs| > 1
    ensures RenderExpr(cs[0]).Ok? && RenderJoin(cs[1..], op).Ok? ==>
      RenderJoin(cs, op) == Ok("(" + RenderExpr(cs[0]).value + ")" + (op + RenderJoin(cs[1..], op).value))
    ensures JoinTokens(cs, word)
         == [Symbol("(")] + Tokens(cs[0]) + [Symbol(")")] + ([Word(word)] + JoinTokens(cs[1..], word))
  {
  }
}
