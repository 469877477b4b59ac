/** A reader for the expression dialect: a scanner and a precedence parser, or binding looser than and,
    and looser than not. */
module RenderRead {
  import opened Wrappers
  import opened Text
  import opened Milvus
  import opened Render

  // Stray is a character no text of the dialect holds; the grammar takes it nowhere.
  datatype Token =
    | Word(text: string) | Numeral(text: string) | Quoted(text: string) | Symbol(text: string) | Stray(c: char)

  predicate NotIdentPart(c: char) {
    !IsIdentPart(c)
  }

  predicate NotNumeral(c: char) {
    !IsDigit(c) && c != '.'
  }

  // A quoted literal after its opening quote: its text with the escapes undone, and what follows.
  function ReadString(s: string): (r: Option<(string, string)>)
    ensures r.Some? ==> |r.value.1| < |s|
  {
    if s == "" then None
    else if s[0] == '"' then Some(("", s[1..]))
    else if s[0] == '\\' then
      if |s| < 2 then None
      else match ReadString(s[2..]) case None => None case Some((text, rest)) => Some(([s[1]] + text, rest))
    else match ReadString(s[1..]) case None => None case Some((text, rest)) => Some(([s[0]] + text, rest))
  }

  predicate StartsNumeral(s: string) {
    s != "" && (IsDigit(s[0]) || (s[0] == '-' && |s| > 1 && IsDigit(s[1])))
  }

  function NumeralLength(s: string): (n: nat)
    requires StartsNumeral(s)
    ensures 0 < n <= |s|
  {
    if s[0] == '-' then 1 + WordLength(s[1..], NotNumeral) else WordLength(s, NotNumeral)
  }

  function SymbolLength(s: string): nat
    requires s != ""
  {
    if |s| > 1 && s[..2] in {EQ, NE, GE, LE} then 2 else if s[0] in "()[],<>" then 1 else 0
  }

  function Prepend(t: Token, r: Option<seq<Token>>): Option<seq<Token>> {
    match r case None => None case Some(ts) => Some([t] + ts)
  }

  function Scan(s: string): Option<seq<Token>>
    decreases |s|
  {
    if s == "" then Some([])
    else if s[0] == ' ' then Scan(s[1..])
    else if IsIdentStart(s[0]) then
      var n := WordLength(s, NotIdentPart);
      Prepend(Word(s[..n]), Scan(s[n..]))
    else if StartsNumeral(s) then
      var n := NumeralLength(s);
      Prepend(Numeral(s[..n]), Scan(s[n..]))
    else if s[0] == '"' then
      match ReadString(s[1..])
      case None => None
      case Some((text, rest)) => Prepend(Quoted(text), Scan(rest))
    else
      var n := SymbolLength(s);
      if n == 0 then Prepend(Stray(s[0]), Scan(s[1..])) else Prepend(Symbol(s[..n]), Scan(s[n..]))
  }

  // ----- the parser -----

  datatype Reading<+T> = Reading(value: T, rest: seq<Token>)

  predicate At(ts: seq<Token>, t: Token) {
    ts != [] && ts[0] == t
  }

  const RESERVED: set<string> := {"and", "or", "not", "in", "is", "null", "true", "false", "TEXT_MATCH"}

  predicate AtField(ts: seq<Token>) {
    ts != [] && ts[0].Word? && ts[0].text !in RESERVED
  }

  function ReadLiteral(ts: seq<Token>): (r: Option<Reading<Value>>)
    ensures r.Some? ==> |r.value.rest| < |ts|
  {
    if ts == [] then None
    else match ts[0]
      case Quoted(text) => Some(Reading(Str(text), ts[1..]))
      case Numeral(text) => Some(Reading(Float(text), ts[1..]))
      case Word(text) => if text == "true" || text == "false" then Some(Reading(Flag(text == "true"), ts[1..]))
        else None
      case _ => None
  }

  // The elements of a bracketed list after its opening bracket.
  function ReadList(ts: seq<Token>): (r: Option<Reading<seq<Value>>>)
    ensures r.Some? ==> |r.value.rest| < |ts|
    decreases |ts|
  {
    match ReadLiteral(ts)
    case None => None
    case Some(Reading(v, rest)) =>
      if At(rest, Symbol("]")) then Some(Reading([v], rest[1..]))
      else if At(rest, Symbol(",")) then
        match ReadList(rest[1..]) case None => None case Some(Reading(vs, more)) => Some(Reading([v] + vs, more))
      else None
  }

  function ReadFieldPredicate(field: string, ts: seq<Token>): (r: Option<Reading<Expr>>)
    ensures r.Some? ==> |r.value.rest| < |ts|
  {
    if At(ts, Word("is")) then
      if At(ts[1..], Word("null")) then Some(Reading(IsNull(field), ts[2..]))
      else if At(ts[1..], Word("not")) && At(ts[2..], Word("null")) then Some(Reading(NotNull(field), ts[3..]))
      else None
    else if At(ts, Word("in")) && At(ts[1..], Symbol("[")) then
      if At(ts[2..], Symbol("]")) then Some(Reading(InList(field, []), ts[3..]))
      else match ReadList(ts[2..]) case None => None
        case Some(Reading(vs, rest)) => Some(Reading(InList(field, vs), rest))
    else if ts != [] && ts[0].Symbol? && IsCompareOp(ts[0].text) then
      match ReadLiteral(ts[1..]) case None => None
        case Some(Reading(v, rest)) => Some(Reading(Compare(ts[0].text, field, v), rest))
    else None
  }

  function ReadPrimary(ts: seq<Token>): (r: Option<Reading<Expr>>)
    ensures r.Some? ==> |r.value.rest| < |ts|
    decreases |ts|, 0
  {
    if At(ts, Symbol("(")) then
      match ReadOr(ts[1..])
      case None => None
      case Some(Reading(e, rest)) => if At(rest, Symbol(")")) then Some(Reading(e, rest[1..])) else None
    else if At(ts, Word("TEXT_MATCH")) then
      if At(ts[1..], Symbol("(")) && AtField(ts[2..]) && At(ts[3..], Symbol(",")) && |ts| > 5 && ts[4].Quoted?
        && At(ts[5..], Symbol(")"))
      then Some(Reading(TextMatch(ts[2].text, ts[4].text), ts[6..])) else None
    else if AtField(ts) then ReadFieldPredicate(ts[0].text, ts[1..])
    else if |ts| > 2 && ts[0].Numeral? && ts[1] == Symbol(NE) && ts[2] == ts[0] then Some(Reading(Never, ts[3..]))
    else None
  }

  function ReadNot(ts: seq<Token>): (r: Option<Reading<Expr>>)
    ensures r.Some? ==> |r.value.rest| < |ts|
    decreases |ts|, 1
  {
    if At(ts, Word("not")) then
      match ReadNot(ts[1..]) case None => None case Some(Reading(e, rest)) => Some(Reading(Not(e), rest))
    else ReadPrimary(ts)
  }

  function ReadAnds(ts: seq<Token>): (r: Option<Reading<seq<Expr>>>)
    ensures r.Some? ==> |r.value.rest| < |ts| && r.value.value != []
    decreases |ts|, 2
  {
    match ReadNot(ts)
    case None => None
    case Some(Reading(e, rest)) =>
      if At(rest, Word("and")) then
        match ReadAnds(rest[1..]) case None => None case Some(Reading(es, more)) => Some(Reading([e] + es, more))
      else Some(Reading([e], rest))
  }

  function ReadAnd(ts: seq<Token>): (r: Option<Reading<Expr>>)
    ensures r.Some? ==> |r.value.rest| < |ts|
    decreases |ts|, 3
  {
    match ReadAnds(ts)
    case None => None
    case Some(Reading(es, rest)) => Some(Reading(if |es| == 1 then es[0] else And(es), rest))
  }

  function ReadOrs(ts: seq<Token>): (r: Option<Reading<seq<Expr>>>)
    ensures r.Some? ==> |r.value.rest| < |ts| && r.value.value != []
    decreases |ts|, 4
  {
    match ReadAnd(ts)
    case None => None
    case Some(Reading(e, rest)) =>
      if At(rest, Word("or")) then
        match ReadOrs(rest[1..]) case None => None case Some(Reading(es, more)) => Some(Reading([e] + es, more))
      else Some(Reading([e], rest))
  }

  function ReadOr(ts: seq<Token>): (r: Option<Reading<Expr>>)
    ensures r.Some? ==> |r.value.rest| < |ts|
    decreases |ts|, 5
  {
    match ReadOrs(ts)
    case None => None
    case Some(Reading(es, rest)) => Some(Reading(if |es| == 1 then es[0] else Or(es), rest))
  }

  /** What the server makes of an expression text. The empty text matches everything. */
  function Read(s: string): Option<Expr> {
    match Scan(s)
    case None => None
    case Some(ts) =>
      if ts == [] then Some(Nil)
      else match ReadOr(ts) case None => None case Some(Reading(e, rest)) => if rest == [] then Some(e) else None
  }
}
