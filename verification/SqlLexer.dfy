/** The lexers as functions of the text still to be read. Sources are sequences of code points; the
    original walks UTF-8 bytes, which only differ inside literals and comments. */
module SqlLexer {
  import opened Wrappers
  import opened Text
  import opened SqlTokens

  predicate IsGap(c: char) {
    c == ' ' || c == '\t' || c == '\n' || c == '\r'
  }

  predicate IsNewline(c: char) {
    c == '\n'
  }

  predicate NotDigit(c: char) {
    !IsDigit(c)
  }

  predicate NotIdentPart(c: char) {
    !IsIdentPart(c)
  }

  // What is left of a comment `depth` levels deep, up to and with its last close.
  function CommentLength(s: string, depth: nat): (r: Option<nat>)
    ensures r.Some? ==> r.value <= |s|
    decreases |s|
  {
    if depth == 0 then Some(0)
    else if |s| < 2 then None
    else if s[0] == '/' && s[1] == '*' then More(2, CommentLength(s[2..], depth + 1))
    else if s[0] == '*' && s[1] == '/' then More(2, CommentLength(s[2..], depth - 1))
    else More(1, CommentLength(s[1..], depth))
  }

  function More(n: nat, r: Option<nat>): Option<nat> {
    match r case None => None case Some(m) => Some(n + m)
  }

  // The value of a literal and how much of the text it takes, its closing quote included.
  datatype Literal = Unterminated | Literal(text: string, length: nat)

  function Longer(c: char, n: nat, rest: Literal): Literal {
    match rest case Unterminated => Unterminated case Literal(text, m) => Literal([c] + text, n + m)
  }

  // After the opening quote. A doubled quote embeds itself.
  function Quoted(s: string, quote: char): (r: Literal)
    ensures r.Literal? ==> 0 < r.length <= |s| && s[r.length - 1] == quote
    decreases |s|
  {
    if s == "" then Unterminated
    else if s[0] == quote then
      if |s| > 1 && s[1] == quote then Longer(quote, 2, Quoted(s[2..], quote)) else Literal("", 1)
    else Longer(s[0], 1, Quoted(s[1..], quote))
  }

  function Unescape(c: char): char {
    match c
    case 'n' => '\n'
    case 't' => '\t'
    case 'r' => '\r'
    case 'b' => '\U{0008}'
    case 'f' => '\U{000C}'
    case _ => c
  }

  // The characters an escape letter stands for; any other character stands for itself.
  const ESCAPES: map<char, char> :=
    map['n' := 10 as char, 't' := 9 as char, 'r' := 13 as char, 'b' := 8 as char, 'f' := 12 as char]

  lemma {:induction false} EscapesStandFor(c: char)
    ensures Unescape(c) == if c in ESCAPES then ESCAPES[c] else c
  {
  }

  // After E and the opening quote.
  function Escaped(s: string): (r: Literal)
    ensures r.Literal? ==> 0 < r.length <= |s| && s[r.length - 1] == '\''
    decreases |s|
  {
    if s == "" then Unterminated
    else if s[0] == '\'' then
      if |s| > 1 && s[1] == '\'' then Longer('\'', 2, Escaped(s[2..])) else Literal("", 1)
    else if s[0] == '\\' then
      if |s| < 2 then Unterminated else Longer(Unescape(s[1]), 2, Escaped(s[2..]))
    else Longer(s[0], 1, Escaped(s[1..]))
  }

  // Past the digits that start at j.
  function SkipDigits(s: string, j: nat): (k: nat)
    requires j <= |s|
    ensures j <= k <= |s| && (k > j ==> IsDigit(s[k - 1])) && (j < |s| && IsDigit(s[j]) ==> k > j)
  {
    j + WordLength(s[j..], NotDigit)
  }

  function SkipSign(s: string, k: nat): (r: nat)
    requires k <= |s|
    ensures k <= r <= |s|
  {
    if k < |s| && (s[k] == '+' || s[k] == '-') then k + 1 else k
  }

  // digits [. digits] [e [+-] digits]
  function NumberLength(s: string): (n: nat)
    ensures n <= |s|
  {
    var whole := SkipDigits(s, 0);
    SkipExponent(s, if whole < |s| && s[whole] == '.' then SkipDigits(s, whole + 1) else whole)
  }

  function SkipExponent(s: string, j: nat): (r: nat)
    requires j <= |s|
    ensures j <= r <= |s|
  {
    if j < |s| && (s[j] == 'e' || s[j] == 'E') then
      var k := SkipSign(s, j + 1);
      if k < |s| && IsDigit(s[k]) then SkipDigits(s, k) else j
    else j
  }

  function Upper(s: string): (r: string)
    ensures |r| == |s|
  {
    seq(|s|, i requires 0 <= i < |s| => if 'a' <= s[i] <= 'z' then s[i] - 'a' + 'A' else s[i])
  }

  predicate IsIdentifier(w: string) {
    w != "" && IsIdentStart(w[0]) && WordLength(w, NotIdentPart) == |w|
  }

  // A word the lexer takes for a name and for no keyword.
  predicate IsPlainName(w: string, d: Dialect) {
    IsIdentifier(w) && Upper(w) !in d.keywords
  }

  function WordToken(word: string, d: Dialect): Token {
    if Upper(word) in d.keywords then Keyword(Upper(word)) else Ident(word, false)
  }

  // The first operator of the table the text starts with.
  function Operator(s: string, operators: seq<string>): (op: string)
    ensures op <= s
  {
    if operators == [] then "" else if operators[0] <= s then operators[0] else Operator(s, operators[1..])
  }

  // One turn of the lexer: characters passed over, a token, or an error.
  datatype Turn = Skip(length: nat) | Emit(token: Token, length: nat) | Fail

  function LiteralTurn(r: Literal, opening: nat, token: string -> Token): Turn {
    match r case Unterminated => Fail case Literal(text, n) => Emit(token(text), opening + n)
  }

  predicate StartsNumber(s: string)
    requires s != ""
  {
    IsDigit(s[0]) || (s[0] == '.' && |s| > 1 && IsDigit(s[1]))
  }

  predicate StartsEscape(s: string, d: Dialect)
    requires s != ""
  {
    d.escapes && (s[0] == 'E' || s[0] == 'e') && |s| > 1 && s[1] == '\''
  }

  function Turned(s: string, d: Dialect): (t: Turn)
    requires s != ""
    ensures !t.Fail? ==> 0 < t.length <= |s|
  {
    var c := s[0];
    if IsGap(c) then Skip(1)
    else if "--" <= s then Skip(WordLength(s, IsNewline))
    else if "/*" <= s then (match CommentLength(s[2..], 1) case None => Fail case Some(n) => Skip(2 + n))
    else if c == '\'' then LiteralTurn(Quoted(s[1..], '\''), 1, text => Text(text))
    else if c == '"' then LiteralTurn(Quoted(s[1..], '"'), 1, text => Ident(text, true))
    else if StartsNumber(s) then
      var n := NumberLength(s);
      Emit(Digits(s[..n]), n)
    else if IsIdentStart(c) then
      if StartsEscape(s, d) then LiteralTurn(Escaped(s[2..]), 2, text => Text(text))
      else
        var n := WordLength(s, NotIdentPart);
        Emit(WordToken(s[..n], d), n)
    else if c == '$' then
      if |s| > 1 && IsDigit(s[1]) then Emit(Param(s[..SkipDigits(s, 1)]), SkipDigits(s, 1)) else Fail
    else
      var op := Operator(s, d.operators);
      if op == "" then Fail else Emit(Op(op), |op|)
  }

  /** lex: the tokens of a text that starts at offset base, the end mark included. */
  function Lex(s: string, base: nat, d: Dialect): Result<seq<Placed>>
    decreases |s|
  {
    if s == "" then Ok([Placed(Eof, base)])
    else
      match Turned(s, d)
      case Fail => Err(Parsing)
      case Skip(n) => Lex(s[n..], base + n, d)
      case Emit(t, n) =>
        var rest :- Lex(s[n..], base + n, d);
        Ok([Placed(t, base)] + rest)
  }
}
