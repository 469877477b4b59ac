/** Lexing is local: a text cut where a token ends, before a semicolon or white space, lexes into the
    tokens it has in place; and white space around a text means nothing. */
module SqlLocal {
  import opened Wrappers
  import opened Text
  import opened SqlTokens
  import opened SqlLexer

  // Where a text may be cut off.
  predicate Boundary(rest: string) {
    rest == "" || rest[0] == ';' || IsSpace(rest[0])
  }

  // ----- the pieces -----

  lemma {:induction false} RunIsLocal(a: string, rest: string, isSeparator: char -> bool)
    requires WordLength(a + rest, isSeparator) <= |a|
    ensures WordLength(a, isSeparator) == WordLength(a + rest, isSeparator)
  {
    if a != "" {
      assert (a + rest)[0] == a[0] && (a + rest)[1..] == a[1..] + rest;
      if !isSeparator(a[0]) {
        RunIsLocal(a[1..], rest, isSeparator);
      }
    }
  }

  lemma {:induction false} CommentIsLocal(a: string, rest: string, depth: nat)
    requires CommentLength(a + rest, depth).Some? && CommentLength(a + rest, depth).value <= |a|
    ensures CommentLength(a, depth) == CommentLength(a + rest, depth)
    decreases |a|
  {
    var s := a + rest;
    if depth > 0 {
      assert |a| >= 2 by { CommentCloses(s, depth); }
      assert s[0] == a[0] && s[1] == a[1] && s[1..] == a[1..] + rest && s[2..] == a[2..] + rest;
      if s[0] == '/' && s[1] == '*' {
        CommentIsLocal(a[2..], rest, depth + 1);
      } else if s[0] == '*' && s[1] == '/' {
        CommentIsLocal(a[2..], rest, depth - 1);
      } else {
        CommentIsLocal(a[1..], rest, depth);
      }
    }
  }

  lemma {:induction false} CommentCloses(s: string, depth: nat)
    requires depth > 0 && CommentLength(s, depth).Some?
    ensures CommentLength(s, depth).value >= 2 && s[CommentLength(s, depth).value - 1] == '/'
    decreases |s|
  {
    if s[0] == '/' && s[1] == '*' {
      CommentCloses(s[2..], depth + 1);
    } else if s[0] == '*' && s[1] == '/' {
      if depth > 1 {
        CommentCloses(s[2..], depth - 1);
      }
    } else {
      CommentCloses(s[1..], depth);
    }
  }

  predicate Ends(r: Literal, n: nat) {
    r.Literal? && r.length <= n
  }

  lemma {:induction false} QuotedIsLocal(a: string, rest: string, quote: char)
    requires Boundary(rest) && (quote == '\'' || quote == '"') && Ends(Quoted(a + rest, quote), |a|)
    ensures Quoted(a, quote) == Quoted(a + rest, quote)
    decreases |a|
  {
    var s := a + rest;
    assert a != "";
    assert s[0] == a[0] && s[1..] == a[1..] + rest;
    if |a| > 1 {
      assert s[1] == a[1] && s[2..] == a[2..] + rest;
    }
    if a[0] == quote {
      if |a| > 1 && a[1] == quote {
        QuotedIsLocal(a[2..], rest, quote);
      }
    } else {
      QuotedIsLocal(a[1..], rest, quote);
    }
  }

  lemma {:induction false} EscapedIsLocal(a: string, rest: string)
    requires Boundary(rest) && Ends(Escaped(a + rest), |a|)
    ensures Escaped(a) == Escaped(a + rest)
    decreases |a|
  {
    var s := a + rest;
    assert a != "";
    assert s[0] == a[0] && s[1..] == a[1..] + rest;
    if |a| > 1 {
      assert s[1] == a[1] && s[2..] == a[2..] + rest;
    }
    if a[0] == '\'' {
      if |a| > 1 && a[1] == '\'' {
        EscapedIsLocal(a[2..], rest);
      }
    } else if a[0] == '\\' {
      EscapedIsLocal(a[2..], rest);
    } else {
      EscapedIsLocal(a[1..], rest);
    }
  }

  lemma {:induction false} DigitsAreLocal(a: string, rest: string, j: nat)
    requires j <= |a| && SkipDigits(a + rest, j) <= |a|
    ensures SkipDigits(a, j) == SkipDigits(a + rest, j)
  {
    assert (a + rest)[j..] == a[j..] + rest;
    RunIsLocal(a[j..], rest, NotDigit);
  }

  lemma {:induction false} ExponentIsLocal(a: string, rest: string, j: nat)
    requires Boundary(rest) && j <= |a| && SkipExponent(a + rest, j) <= |a|
    ensures SkipExponent(a, j) == SkipExponent(a + rest, j)
  {
    var s := a + rest;
    assert forall i :: 0 <= i < |a| ==> s[i] == a[i];
    if j < |a| && (a[j] == 'e' || a[j] == 'E') {
      assert j + 1 < |s| && j + 1 == |a| ==> s[j + 1] == rest[0];
      var k := SkipSign(s, j + 1);
      assert k == SkipSign(a, j + 1);
      assert k < |s| && k == |a| ==> s[k] == rest[0];
      if k < |a| && IsDigit(a[k]) {
        DigitsAreLocal(a, rest, k);
      }
    }
  }

  lemma {:induction false} NumberIsLocal(a: string, rest: string)
    requires Boundary(rest) && NumberLength(a + rest) <= |a|
    ensures NumberLength(a) == NumberLength(a + rest)
  {
    var s := a + rest;
    var whole := SkipDigits(s, 0);
    DigitsAreLocal(a, rest, 0);
    assert whole < |a| ==> s[whole] == a[whole];
    assert whole == |a| && rest != "" ==> s[whole] == rest[0];
    if whole < |a| && a[whole] == '.' {
      DigitsAreLocal(a, rest, whole + 1);
      ExponentIsLocal(a, rest, SkipDigits(a, whole + 1));
    } else {
      ExponentIsLocal(a, rest, whole);
    }
  }

  lemma {:induction false} OperatorIsLocal(a: string, rest: string, operators: seq<string>)
    requires |Operator(a + rest, operators)| <= |a|
    ensures Operator(a, operators) == Operator(a + rest, operators)
  {
    if operators != [] {
      PrefixIsLocal(a, rest, operators[0]);
      if !(operators[0] <= a + rest) {
        OperatorIsLocal(a, rest, operators[1..]);
      }
    }
  }

  lemma {:induction false} PrefixIsLocal(a: string, rest: string, p: string)
    ensures p <= a ==> p <= a + rest
    ensures |p| <= |a| && p <= a + rest ==> p <= a
  {
    if |p| <= |a| {
      assert (a + rest)[..|p|] == a[..|p|];
    }
  }

  // ----- one turn -----

  predicate Within(t: Turn, n: nat) {
    !t.Fail? && t.length <= n
  }

  /** A turn that stays inside a text does not see how the text goes on. */
  lemma {:induction false} TurnIsLocal(a: string, rest: string, d: Dialect)
    requires a != "" && Boundary(rest) && Within(Turned(a + rest, d), |a|)
    ensures Turned(a, d) == Turned(a + rest, d)
  {
    hide WordLength, CommentLength, Quoted, Escaped, NumberLength, Operator, SkipDigits, WordToken;
    var s := a + rest;
    var c := a[0];
    assert s[0] == c && s[1..] == a[1..] + rest;
    Second(a, rest);
    if IsGap(c) {
    } else if "--" <= s {
      RunIsLocal(a, rest, IsNewline);
    } else if "/*" <= s {
      CommentIsLocal(a[2..], rest, 1);
    } else if c == '\'' || c == '"' {
      QuotedIsLocal(a[1..], rest, c);
    } else if StartsNumber(s) {
      NumberIsLocal(a, rest);
      assert s[..NumberLength(s)] == a[..NumberLength(s)];
    } else if IsIdentStart(c) {
      if StartsEscape(s, d) {
        EscapedIsLocal(a[2..], rest);
      } else {
        RunIsLocal(a, rest, NotIdentPart);
        assert s[..WordLength(s, NotIdentPart)] == a[..WordLength(s, NotIdentPart)];
      }
    } else if c == '$' {
      DigitsAreLocal(a, rest, 1);
      assert s[..SkipDigits(s, 1)] == a[..SkipDigits(s, 1)];
    } else {
      OperatorIsLocal(a, rest, d.operators);
    }
  }

  // What the second character decides is decided inside the text.
  lemma {:induction false} Second(a: string, rest: string)
    requires a != "" && Boundary(rest)
    ensures var s := a + rest;
      && ("--" <= s <==> "--" <= a) && ("/*" <= s <==> "/*" <= a)
      && (|a| > 1 ==> s[1] == a[1] && s[2..] == a[2..] + rest)
      && (|a| == 1 && |s| > 1 ==> s[1] == rest[0])
      && (|s| > 1 ==> |a| > 1 || (s[1] != '\'' && !IsDigit(s[1])))
  {
    var s := a + rest;
    PrefixIsLocal(a, rest, "--");
    PrefixIsLocal(a, rest, "/*");
    if |a| == 1 && |s| > 1 {
      assert s[1] == rest[0];
    }
  }

  // ----- the tokens of a text, positions aside -----

  function Words(ps: seq<Placed>): seq<Token> {
    if ps == [] then [] else (if ps[0].token.Eof? then [] else [ps[0].token]) + Words(ps[1..])
  }

  function Tokens(s: string, d: Dialect): Result<seq<Token>> {
    var placed :- Lex(s, 0, d);
    Ok(Words(placed))
  }

  function Led(t: Token, r: Result<seq<Token>>): Result<seq<Token>> {
    match r case Ok(ts) => Ok([t] + ts) case Err(e) => Err(e)
  }

  lemma {:induction false} LexAnywhere(s: string, base: nat, d: Dialect)
    ensures Lex(s, base, d).Ok? == Tokens(s, d).Ok?
    ensures Lex(s, base, d).Ok? ==> Words(Lex(s, base, d).value) == Tokens(s, d).value
    decreases |s|
  {
    hide Turned;
    if s == "" {
      assert Words([Placed(Eof, base)]) == [] == Words([Placed(Eof, 0)]);
    } else if !Turned(s, d).Fail? {
      var n := Turned(s, d).length;
      LexAnywhere(s[n..], base + n, d);
      LexAnywhere(s[n..], n, d);
    }
  }

  /** The tokens of a text, turn by turn. */
  lemma {:induction false} TokensTurn(s: string, d: Dialect)
    ensures s == "" ==> Tokens(s, d) == Ok([])
    ensures s != "" && Turned(s, d).Fail? ==> Tokens(s, d).Err?
    ensures s != "" && Turned(s, d).Skip? ==> Tokens(s, d).Ok? == Tokens(s[Turned(s, d).length..], d).Ok?
    ensures s != "" && Turned(s, d).Skip? && Tokens(s, d).Ok? ==> Tokens(s, d) == Tokens(s[Turned(s, d).length..], d)
    ensures s != "" && Turned(s, d).Emit? ==> Tokens(s, d).Ok? == Tokens(s[Turned(s, d).length..], d).Ok?
    ensures s != "" && Turned(s, d).Emit? && Tokens(s, d).Ok? ==>
      Tokens(s, d) == Led(Turned(s, d).token, Tokens(s[Turned(s, d).length..], d))
  {
    hide Turned;
    assert Words([Placed(Eof, 0)]) == [];
    if s != "" && !Turned(s, d).Fail? {
      var n := Turned(s, d).length;
      LexAnywhere(s[n..], n, d);
      EmitsNoEnd(s, d);
    }
  }

  lemma {:induction false} EmitsNoEnd(s: string, d: Dialect)
    requires s != ""
    ensures Turned(s, d).Emit? ==> !Turned(s, d).token.Eof?
  {
  }

  // ----- white space around a text -----

  ghost predicate AllSpace(s: string) {
    forall i :: 0 <= i < |s| ==> IsSpace(s[i])
  }

  // No operator begins or ends in white space.
  ghost predicate Tight(d: Dialect) {
    forall i :: 0 <= i < |d.operators| ==> TightOperator(d.operators[i])
  }

  predicate TightOperator(op: string) {
    op != "" ==> !IsSpace(op[0]) && !IsSpace(op[|op| - 1])
  }

  lemma {:induction false} OperatorListed(s: string, operators: seq<string>)
    ensures Operator(s, operators) == "" || Operator(s, operators) in operators
  {
    if operators != [] && !(operators[0] <= s) {
      OperatorListed(s, operators[1..]);
    }
  }

  lemma {:induction false} FirstOperator(s: string, operators: seq<string>, k: nat)
    requires k < |operators| && operators[k] <= s && forall i :: 0 <= i < k ==> !(operators[i] <= s)
    ensures Operator(s, operators) == operators[k]
  {
    if k > 0 {
      assert forall i :: 0 <= i < k - 1 ==> operators[1..][i] == operators[i + 1];
      FirstOperator(s, operators[1..], k - 1);
    }
  }

  // White space that is not passed over is an error.
  lemma {:induction false} SpaceTurn(s: string, d: Dialect)
    requires s != "" && IsSpace(s[0]) && Tight(d)
    ensures Turned(s, d) == Skip(1) || Turned(s, d) == Fail
  {
    hide WordLength, CommentLength, Quoted, Escaped, NumberLength, Operator, SkipDigits;
    OperatorListed(s, d.operators);
    assert !("--" <= s) && !("/*" <= s);
  }

  lemma {:induction false} OnlySpace(s: string, d: Dialect)
    requires AllSpace(s) && Tight(d) && Tokens(s, d).Ok?
    ensures Tokens(s, d) == Ok([])
  {
    hide Turned, Tokens;
    TokensTurn(s, d);
    if s != "" {
      SpaceTurn(s, d);
      OnlySpace(s[1..], d);
    }
  }

  // A token ends in no white space; what is passed over and ends in some is one blank or a line comment.
  lemma {:induction false} TurnEnds(s: string, d: Dialect)
    requires s != "" && Tight(d) && !Turned(s, d).Fail? && IsSpace(s[Turned(s, d).length - 1])
    ensures Turned(s, d) == Skip(1) || ("--" <= s && Turned(s, d) == Skip(WordLength(s, IsNewline)))
  {
    hide CommentLength, Quoted, Escaped, Operator, SkipDigits, WordToken, NumberLength;
    OperatorListed(s, d.operators);
    if "/*" <= s && !IsGap(s[0]) && CommentLength(s[2..], 1).Some? {
      CommentCloses(s[2..], 1);
    } else if StartsNumber(s) {
      NumberEnds(s);
    }
  }

  lemma {:induction false} NumberEnds(s: string)
    requires s != "" && StartsNumber(s)
    ensures 0 < NumberLength(s) && !IsSpace(s[NumberLength(s) - 1])
  {
    hide WordLength;
  }

  lemma {:induction false} TrailingSpace(b: string, space: string, d: Dialect)
    requires AllSpace(space) && Tight(d) && Tokens(b + space, d).Ok?
    ensures Tokens(b, d) == Tokens(b + space, d)
    decreases |b|
  {
    hide Turned, Tokens;
    var s := b + space;
    TokensTurn(b, d);
    TokensTurn(s, d);
    if b == "" {
      assert s == space;
      OnlySpace(s, d);
    } else {
      var n := Turned(s, d).length;
      if n <= |b| {
        TurnIsLocal(b, space, d);
        assert s[n..] == b[n..] + space;
        TrailingSpace(b[n..], space, d);
      } else {
        CutComment(b, space, d);
        OnlySpace(s[n..], d);
      }
    }
  }

  // A line comment that runs into the white space: without it, the comment is the rest of the text.
  lemma {:induction false} CutComment(b: string, space: string, d: Dialect)
    requires b != "" && AllSpace(space) && Tight(d)
    requires !Turned(b + space, d).Fail? && Turned(b + space, d).length > |b|
    ensures Turned(b + space, d).Skip? && AllSpace((b + space)[Turned(b + space, d).length..])
    ensures Turned(b, d).Skip? && Tokens(b, d) == Ok([])
  {
    hide Tokens, CommentLength, Quoted, Escaped, Operator, SkipDigits, WordToken, NumberLength;
    var s := b + space;
    var n := Turned(s, d).length;
    assert s[n - 1] == space[n - 1 - |b|];
    TurnEnds(s, d);
    PrefixIsLocal(b, space, "--");
    assert s[|b|] == space[0] && IsSpace(s[|b|]);
    assert "--" <= b;
    assert forall i :: 0 <= i < |b| ==> b[i] == s[i];
    assert WordLength(b, IsNewline) == |b|;
    assert Turned(b, d) == Skip(|b|);
    TokensTurn(b, d);
    assert b[|b|..] == "";
    TokensTurn("", d);
  }

  function TrimLeft(s: string): string {
    if s != "" && IsSpace(s[0]) then TrimLeft(s[1..]) else s
  }

  function TrimRight(s: string): string {
    if s != "" && IsSpace(s[|s| - 1]) then TrimRight(s[..|s| - 1]) else s
  }

  // strings.TrimSpace
  function Trim(s: string): string {
    TrimRight(TrimLeft(s))
  }

  lemma {:induction false} TrimLeftKeeps(s: string, d: Dialect)
    requires Tight(d) && Tokens(s, d).Ok?
    ensures Tokens(TrimLeft(s), d) == Tokens(s, d)
  {
    hide Turned, Tokens;
    if s != "" && IsSpace(s[0]) {
      TokensTurn(s, d);
      SpaceTurn(s, d);
      TrimLeftKeeps(s[1..], d);
    }
  }

  lemma {:induction false} TrimRightKeeps(s: string, d: Dialect)
    requires Tight(d) && Tokens(s, d).Ok?
    ensures Tokens(TrimRight(s), d) == Tokens(s, d)
  {
    hide Turned, Tokens;
    if s != "" && IsSpace(s[|s| - 1]) {
      var b, space := s[..|s| - 1], [s[|s| - 1]];
      assert s == b + space;
      TrailingSpace(b, space, d);
      TrimRightKeeps(b, d);
    }
  }

  /** White space around a text that lexes changes no token. */
  lemma {:induction false} TrimKeepsTokens(s: string, d: Dialect)
    requires Tight(d) && Tokens(s, d).Ok?
    ensures Tokens(Trim(s), d) == Tokens(s, d)
  {
    TrimLeftKeeps(s, d);
    TrimRightKeeps(TrimLeft(s), d);
  }

  lemma {:induction false} TrimRightEnds(s: string)
    ensures TrimRight(s) <= s
    ensures TrimRight(s) == "" || !IsSpace(TrimRight(s)[|TrimRight(s)| - 1])
  {
    if s != "" && IsSpace(s[|s| - 1]) {
      TrimRightEnds(s[..|s| - 1]);
    }
  }

  lemma {:induction false} TrimLeftStarts(s: string)
    ensures TrimLeft(s) == "" || !IsSpace(TrimLeft(s)[0])
  {
    if s != "" && IsSpace(s[0]) {
      TrimLeftStarts(s[1..]);
    }
  }

  lemma {:induction false} TrimIdempotent(s: string)
    ensures Trim(Trim(s)) == Trim(s)
  {
    TrimLeftStarts(s);
    TrimRightEnds(TrimLeft(s));
  }
}
