/** The lexer and the splitter as they run: an index advancing over the source, literals written to a
    builder, tokens appended one by one. They compute Lex and Split. */
module SqlLexerLoops {
  import opened Wrappers
  import opened Loops
  import opened Text
  import opened SqlTokens
  import opened SqlLexer
  import opened SqlLocal
  import opened SqlSplit

  lemma CommentAt(src: string, i: nat, depth: nat)
    requires i + 1 < |src| && depth > 0
    ensures CommentLength(src[i..], depth) ==
      if src[i] == '/' && src[i + 1] == '*' then More(2, CommentLength(src[i + 2..], depth + 1))
      else if src[i] == '*' && src[i + 1] == '/' then More(2, CommentLength(src[i + 2..], depth - 1))
      else More(1, CommentLength(src[i + 1..], depth))
  {
    assert src[i..][2..] == src[i + 2..] && src[i..][1..] == src[i + 1..];
  }

  lemma CommentEnds(src: string, i: nat, depth: nat)
    requires i <= |src|
    ensures depth == 0 ==> CommentLength(src[i..], depth) == Some(0)
    ensures depth > 0 && i + 1 >= |src| ==> CommentLength(src[i..], depth) == None
  {
  }

  // lexBlockComment: comments nest.
  method LexBlockComment(src: string, start: nat) returns (end: nat, ok: bool)
    requires start + 2 <= |src|
    ensures ok <==> CommentLength(src[start + 2..], 1).Some?
    ensures ok ==> end == start + 2 + CommentLength(src[start + 2..], 1).value
  {
    hide CommentLength;
    var depth: nat := 1;
    var i := start + 2;
    while depth > 0
      invariant start + 2 <= i <= |src|
      invariant CommentLength(src[start + 2..], 1) == More(i - (start + 2), CommentLength(src[i..], depth))
      decreases |src| - i, depth
    {
      CommentEnds(src, i, depth);
      if i + 1 >= |src| {
        return 0, false;
      }
      CommentAt(src, i, depth);
      if src[i] == '/' && src[i + 1] == '*' {
        depth := depth + 1;
        i := i + 2;
      } else if src[i] == '*' && src[i + 1] == '/' {
        depth := depth - 1;
        i := i + 2;
      } else {
        i := i + 1;
      }
    }
    CommentEnds(src, i, depth);
    return i, true;
  }

  // A literal whose first characters are in the builder.
  function Continued(text: string, n: nat, rest: Literal): Literal {
    match rest case Unterminated => Unterminated case Literal(more, m) => Literal(text + more, n + m)
  }

  lemma ContinuedStep(text: string, n: nat, c: char, k: nat, rest: Literal)
    ensures Continued(text, n, Longer(c, k, rest)) == Continued(text + [c], n + k, rest)
  {
    if rest.Literal? {
      assert text + ([c] + rest.text) == text + [c] + rest.text;
    }
  }

  lemma ContinuedEnds(text: string, n: nat, rest: Literal)
    ensures Continued("", 0, rest) == rest
    ensures Continued(text, n, Literal("", 1)) == Literal(text, n + 1)
  {
    assert text + "" == text;
    if rest.Literal? {
      assert "" + rest.text == rest.text;
    }
  }

  lemma QuotedAt(src: string, i: nat, quote: char)
    requires i < |src|
    ensures Quoted(src[i..], quote) ==
      if src[i] == quote then
        if i + 1 < |src| && src[i + 1] == quote then Longer(quote, 2, Quoted(src[i + 2..], quote)) else Literal("", 1)
      else Longer(src[i], 1, Quoted(src[i + 1..], quote))
  {
    hide Longer;
    assert src[i..][1..] == src[i + 1..];
    if i + 1 < |src| {
      assert src[i..][2..] == src[i + 2..];
    }
  }

  lemma QuotedOfNothing(quote: char)
    ensures Quoted("", quote) == Unterminated
  {
  }

  // lexQuoted
  method LexQuoted(src: string, start: nat, quote: char) returns (r: Literal)
    requires start < |src|
    ensures r == match Quoted(src[start + 1..], quote)
                 case Unterminated => Unterminated case Literal(text, n) => Literal(text, n + 1)
  {
    hide Quoted, Longer;
    QuotedOfNothing(quote);
    var b := "";
    var i := start + 1;
    ContinuedEnds("", 0, Quoted(src[i..], quote));
    while true
      invariant start + 1 <= i <= |src|
      invariant Quoted(src[start + 1..], quote) == Continued(b, i - (start + 1), Quoted(src[i..], quote))
      decreases |src| - i
    {
      if i >= |src| {
        return Unterminated;
      }
      QuotedAt(src, i, quote);
      if src[i] == quote {
        if i + 1 < |src| && src[i + 1] == quote {
          ContinuedStep(b, i - (start + 1), quote, 2, Quoted(src[i + 2..], quote));
          b := b + [quote];
          i := i + 2;
          continue;
        }
        ContinuedEnds(b, i - (start + 1), Unterminated);
        return Literal(b, i + 1 - start);
      }
      ContinuedStep(b, i - (start + 1), src[i], 1, Quoted(src[i + 1..], quote));
      b := b + [src[i]];
      i := i + 1;
    }
  }

  lemma EscapedOfNothing()
    ensures Escaped("") == Unterminated
  {
  }

  lemma EscapedAt(src: string, i: nat)
    requires i < |src|
    ensures var s := Escaped(src[i..]);
      if src[i] == '\'' then
        s == if i + 1 < |src| && src[i + 1] == '\'' then Longer('\'', 2, Escaped(src[i + 2..])) else Literal("", 1)
      else if src[i] == '\\' then
        s == if i + 1 < |src| then Longer(Unescape(src[i + 1]), 2, Escaped(src[i + 2..])) else Unterminated
      else s == Longer(src[i], 1, Escaped(src[i + 1..]))
  {
    hide Unescape, Longer;
    assert src[i..][1..] == src[i + 1..];
    if i + 1 < |src| {
      assert src[i..][2..] == src[i + 2..];
    }
  }

  // lexEscapeString, starting at the E
  method LexEscapeString(src: string, start: nat) returns (r: Literal)
    requires start + 2 <= |src|
    ensures r == match Escaped(src[start + 2..])
                 case Unterminated => Unterminated case Literal(text, n) => Literal(text, n + 2)
  {
    hide Escaped, Unescape, Longer;
    EscapedOfNothing();
    var b := "";
    var i := start + 2;
    ContinuedEnds("", 0, Escaped(src[i..]));
    while true
      invariant start + 2 <= i <= |src|
      invariant Escaped(src[start + 2..]) == Continued(b, i - (start + 2), Escaped(src[i..]))
      decreases |src| - i
    {
      if i >= |src| {
        return Unterminated;
      }
      var c := src[i];
      EscapedAt(src, i);
      if c == '\'' {
        if i + 1 < |src| && src[i + 1] == '\'' {
          ContinuedStep(b, i - (start + 2), '\'', 2, Escaped(src[i + 2..]));
          b := b + ['\''];
          i := i + 2;
          continue;
        }
        ContinuedEnds(b, i - (start + 2), Unterminated);
        return Literal(b, i + 1 - start);
      } else if c == '\\' {
        if i + 1 >= |src| {
          return Unterminated;
        }
        ContinuedStep(b, i - (start + 2), Unescape(src[i + 1]), 2, Escaped(src[i + 2..]));
        b := b + [Unescape(src[i + 1])];
        i := i + 2;
      } else {
        ContinuedStep(b, i - (start + 2), c, 1, Escaped(src[i + 1..]));
        b := b + [c];
        i := i + 1;
      }
    }
  }

  // The loops that advance j past digits, identifier characters or the rest of a line.
  method Pass(src: string, start: nat, isSeparator: char -> bool) returns (j: nat)
    requires start <= |src|
    ensures j == start + WordLength(src[start..], isSeparator)
  {
    j := start;
    while j < |src| && !isSeparator(src[j])
      invariant start <= j <= |src|
      invariant WordLength(src[start..], isSeparator) == j - start + WordLength(src[j..], isSeparator)
    {
      assert src[j..][1..] == src[j + 1..];
      j := j + 1;
    }
    assert j < |src| ==> src[j..][0] == src[j];
  }

  // The digits from j on, in a text that starts at i.
  lemma DigitsFrom(src: string, i: nat, j: nat)
    requires i <= j <= |src|
    ensures SkipDigits(src[i..], j - i) == j - i + WordLength(src[j..], NotDigit)
  {
    hide WordLength;
    assert src[i..][j - i..] == src[j..];
  }

  // numberLength
  method MeasureNumber(src: string, i: nat) returns (n: nat)
    requires i <= |src|
    ensures n == NumberLength(src[i..])
  {
    hide WordLength, SkipDigits, SkipExponent;
    ghost var s := src[i..];
    DigitsFrom(src, i, i);
    var j := Pass(src, i, NotDigit);
    if j < |src| && src[j] == '.' {
      DigitsFrom(src, i, j + 1);
      j := Pass(src, j + 1, NotDigit);
    }
    n := MeasureExponent(src, i, j);
  }

  method MeasureExponent(src: string, i: nat, digits: nat) returns (n: nat)
    requires i <= digits <= |src|
    ensures n == SkipExponent(src[i..], digits - i)
  {
    hide WordLength;
    ghost var s := src[i..];
    var j := digits;
    if j < |src| && (src[j] == 'e' || src[j] == 'E') {
      var k := j + 1;
      if k < |src| && (src[k] == '+' || src[k] == '-') {
        k := k + 1;
      }
      assert k - i == SkipSign(s, j + 1 - i);
      if k < |src| && IsDigit(src[k]) {
        DigitsFrom(src, i, k);
        j := Pass(src, k, NotDigit);
      }
    }
    return j - i;
  }

  // The operator table, searched in order.
  method FindOperator(src: string, i: nat, operators: seq<string>) returns (op: string)
    requires i <= |src|
    ensures op == Operator(src[i..], operators)
  {
    assert operators[0..] == operators;
    for k := 0 to |operators|
      invariant Operator(src[i..], operators) == Operator(src[i..], operators[k..])
    {
      if operators[k] <= src[i..] {
        return operators[k];
      }
      assert operators[k..][1..] == operators[k + 1..];
    }
    return "";
  }

  // One turn of the switch in lex, at offset i.
  method LexTurn(src: string, i: nat, d: Dialect) returns (t: Turn)
    requires i < |src|
    ensures t == Turned(src[i..], d)
  {
    hide WordLength, CommentLength, Quoted, Escaped, NumberLength, Operator, SkipDigits, WordToken;
    ghost var s := src[i..];
    var c := src[i];
    assert c == s[0] && s[1..] == src[i + 1..] && (|s| > 1 ==> s[1] == src[i + 1] && s[2..] == src[i + 2..]);
    if c == ' ' || c == '\t' || c == '\n' || c == '\r' {
      return Skip(1);
    } else if "--" <= src[i..] {
      var j := Pass(src, i, IsNewline);
      return Skip(j - i);
    } else if "/*" <= src[i..] {
      var end, ok := LexBlockComment(src, i);
      return if ok then Skip(end - i) else Fail;
    } else if c == '\'' {
      var r := LexQuoted(src, i, '\'');
      return if r.Literal? then Emit(Text(r.text), r.length) else Fail;
    } else if c == '"' {
      var r := LexQuoted(src, i, '"');
      return if r.Literal? then Emit(Ident(r.text, true), r.length) else Fail;
    } else if IsDigit(c) || (c == '.' && i + 1 < |src| && IsDigit(src[i + 1])) {
      var n := MeasureNumber(src, i);
      assert src[i..i + n] == s[..n];
      return Emit(Digits(src[i..i + n]), n);
    } else if IsIdentStart(c) {
      if d.escapes && (c == 'E' || c == 'e') && i + 1 < |src| && src[i + 1] == '\'' {
        var r := LexEscapeString(src, i);
        return if r.Literal? then Emit(Text(r.text), r.length) else Fail;
      }
      var j := Pass(src, i, NotIdentPart);
      assert src[i..j] == s[..j - i];
      return Emit(WordToken(src[i..j], d), j - i);
    } else if c == '$' {
      if i + 1 < |src| && IsDigit(src[i + 1]) {
        DigitsFrom(src, i, i + 1);
        var j := Pass(src, i + 1, NotDigit);
        assert j - i == SkipDigits(s, 1) && src[i..j] == s[..j - i];
        return Emit(Param(src[i..j]), j - i);
      }
      return Fail;
    } else {
      var op := FindOperator(src, i, d.operators);
      return if op == "" then Fail else Emit(Op(op), |op|);
    }
  }

  // lex
  method LexSource(src: string, d: Dialect) returns (r: Result<seq<Placed>>)
    ensures r == Lex(src, 0, d)
  {
    hide Turned;
    var toks: seq<Placed> := [];
    var i := 0;
    Start(src, Lex(src, 0, d));
    while i < |src|
      invariant i <= |src| && Lex(src, 0, d) == Prefixed(toks, Lex(src[i..], i, d))
    {
      var t := LexTurn(src, i, d);
      match t {
        case Fail => return Err(Parsing);
        case Skip(n) => SuffixOf(src, i, n); i := i + n;
        case Emit(token, n) =>
          SuffixOf(src, i, n);
          Append(toks, Placed(token, i), Lex(src[i + n..], i + n, d));
          toks := toks + [Placed(token, i)];
          i := i + n;
      }
    }
    return Ok(toks + [Placed(Eof, i)]);
  }

  lemma SuffixOf(src: string, i: nat, n: nat)
    requires i + n <= |src|
    ensures src[i..][n..] == src[i + n..]
  {
  }

  // SplitStatements
  method SplitStatements(sql: string) returns (result: seq<string>)
    ensures result == Split(sql)
  {
    hide Lex, Placing, CATALOG, Trim;
    var lexed := LexSource(sql, CATALOG);
    if lexed.Err? {
      return [sql];
    }
    assert sql[0..] == sql;
    LexPlaces(sql, 0, sql, CATALOG);
    var toks := lexed.value;
    var parts: seq<string> := [];
    var start: nat := 0;
    var j := 0;
    assert toks[0..] == toks && [] + Parts(sql, toks, 0) == Parts(sql, toks, 0);
    while j < |toks| && !toks[j].token.Eof?
      invariant j <= |toks| && start <= |sql| && Placing(toks[j..], start, sql)
      invariant Parts(sql, toks, 0) == parts + Parts(sql, toks[j..], start)
    {
      PlacingStep(toks[j..], start, sql);
      assert toks[j..][1..] == toks[j + 1..];
      if toks[j].token == SEMICOLON {
        var part := Trim(sql[start..toks[j].pos]);
        if part != "" {
          parts := parts + [part];
        }
        start := toks[j].pos + 1;
      }
      j := j + 1;
    }
    var part := Trim(sql[start..]);
    if part != "" {
      parts := parts + [part];
    }
    return if |parts| == 0 then [sql] else parts;
  }

  lemma PlacingStep(ps: seq<Placed>, start: nat, sql: string)
    requires ps != [] && Placing(ps, start, sql)
    ensures start <= ps[0].pos <= |sql| && Placing(ps[1..], start, sql)
    ensures ps[0].token == SEMICOLON ==> ps[0].pos < |sql| && Placing(ps[1..], ps[0].pos + 1, sql)
  {
  }
}
