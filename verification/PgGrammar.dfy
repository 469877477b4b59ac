/** The WHERE grammar (internal/translate/pg/parser.go) as functions from the tokens still to be read
    to a value and the tokens after it, and the printer it inverts. */
module PgGrammar {
  import opened Wrappers
  import opened PgWhere
  import opened SqlTokens

  datatype Reading<+T> = Reading(value: T, rest: seq<Token>)

  function Peek(ts: seq<Token>): Token {
    if ts == [] then Eof else ts[0]
  }

  predicate AtKeyword(ts: seq<Token>, word: string) {
    Peek(ts) == Keyword(word)
  }

  predicate AtOp(ts: seq<Token>, op: string) {
    Peek(ts) == Op(op)
  }

  predicate AtVectorOp(ts: seq<Token>) {
    Peek(ts).Op? && Peek(ts).text in {"<->", "<=>", "<#>", "<+>"}
  }

  predicate AtCompareOp(ts: seq<Token>) {
    Peek(ts).Op? && IsCompareOp(Peek(ts).text)
  }

  predicate IsCompareOp(op: string) {
    op in {"=", "<>", "!=", "<", "<=", ">", ">="}
  }

  // A reading that got somewhere: what is left is a proper suffix.
  ghost predicate Advances<T>(r: Result<Reading<T>>, ts: seq<Token>) {
    r.Ok? ==> |r.value.rest| < |ts| && r.value.rest == ts[|ts| - |r.value.rest|..]
  }

  function Expect(ts: seq<Token>, t: Token): (r: Result<Reading<()>>)
    requires !t.Eof?
    ensures Advances(r, ts)
  {
    if Peek(ts) == t then Ok(Reading((), ts[1..])) else Err(Parsing)
  }

  // ----- operands -----

  predicate RejectsDot(t: Token) {
    t.Ident? && t.quoted && '.' in t.text
  }

  function ParseColumnRef(ts: seq<Token>): (r: Result<Reading<string>>)
    ensures Advances(r, ts)
  {
    if !Peek(ts).Ident? || RejectsDot(Peek(ts)) then Err(Parsing)
    else
      var name, rest := Peek(ts).text, ts[1..];
      if !AtOp(rest, ".") then Ok(Reading(name, rest))
      else if AtOp(rest[1..], "*") then Err(Unsupported)
      else if !Peek(rest[1..]).Ident? || RejectsDot(Peek(rest[1..])) then Err(Parsing)
      else Ok(Reading(name + "." + Peek(rest[1..]).text, rest[2..]))
  }

  // An operand without a column name is a literal: a zero-length identifier reads as an empty number.
  function NamedOperand(name: string): Operand {
    if name == "" then Constant(Number("")) else Column(name)
  }

  function ParseValuePrimary(ts: seq<Token>): (r: Result<Reading<Operand>>)
    ensures Advances(r, ts)
  {
    match Peek(ts)
    case Ident(_, _) =>
      var col :- ParseColumnRef(ts);
      if AtOp(col.rest, "(") then Err(Unsupported) else Ok(Reading(NamedOperand(col.value), col.rest))
    case Text(text) => Ok(Reading(Constant(String(text)), ts[1..]))
    case Digits(text) => Ok(Reading(Constant(Number(text)), ts[1..]))
    case Keyword(word) =>
      if word == "TRUE" then Ok(Reading(Constant(Boolean("true")), ts[1..]))
      else if word == "FALSE" then Ok(Reading(Constant(Boolean("false")), ts[1..]))
      else if word == "NULL" then Ok(Reading(Constant(SqlLiteral.Null), ts[1..]))
      else Err(Parsing)
    case Op(op) =>
      if op == "-" || op == "+" then
        var n := Peek(ts[1..]);
        if !n.Digits? then Err(Parsing)
        else Ok(Reading(Constant(Number(if op == "-" then "-" + n.text else n.text)), ts[2..]))
      else if op == "(" then Err(Unsupported)
      else Err(Parsing)
    case Param(_) => Err(Unsupported)
    case Eof => Err(Parsing)
  }

  // An operand and the ::type cast that may not follow it.
  function ParseValue(ts: seq<Token>): (r: Result<Reading<Operand>>)
    ensures Advances(r, ts)
  {
    var v :- ParseValuePrimary(ts);
    if AtOp(v.rest, "::") then Err(Unsupported) else Ok(v)
  }

  // ----- predicates -----

  function ParseInList(ts: seq<Token>): (r: Result<Reading<seq<SqlLiteral>>>)
    ensures Advances(r, ts)
    decreases |ts|
  {
    var v :- ParseValue(ts);
    if v.value.Column? then Err(Unsupported)
    else if AtOp(v.rest, ",") then
      var more :- ParseInList(v.rest[1..]);
      Ok(Reading([v.value.literal] + more.value, more.rest))
    else Ok(Reading([v.value.literal], v.rest))
  }

  function ParseInTail(left: Operand, ts: seq<Token>, negated: bool): (r: Result<Reading<Where>>)
    ensures Advances(r, ts)
  {
    if left.Constant? then Err(Parsing)
    else
      var open :- Expect(ts, Op("("));
      if AtKeyword(open.rest, "SELECT") then Err(Unsupported)
      else
        var list :- ParseInList(open.rest);
        var close :- Expect(list.rest, Op(")"));
        var w :- ResolveIn(left, list.value, negated);
        Ok(Reading(w, close.rest))
  }

  function ParseBetweenTail(left: Operand, ts: seq<Token>, negated: bool): (r: Result<Reading<Where>>)
    ensures Advances(r, ts)
  {
    if left.Constant? then Err(Parsing)
    else
      var lo :- ParseValue(ts);
      var and :- Expect(lo.rest, Keyword("AND"));
      var hi :- ParseValue(and.rest);
      if lo.value.Column? || hi.value.Column? then Err(Unsupported)
      else
        var w :- ResolveBetween(left, lo.value.literal, hi.value.literal, negated);
        Ok(Reading(w, hi.rest))
  }

  function ParseIsTail(left: Operand, ts: seq<Token>): (r: Result<Reading<Where>>)
    ensures Advances(r, ts)
  {
    var negated := AtKeyword(ts, "NOT");
    var word :- Expect(if negated then ts[1..] else ts, Keyword("NULL"));
    if left.Constant? then Err(Parsing) else Ok(Reading(WNull(left.name, negated), word.rest))
  }

  function ParseNegatedTail(left: Operand, ts: seq<Token>): (r: Result<Reading<Where>>)
    ensures Advances(r, ts)
  {
    if AtKeyword(ts, "IN") then ParseInTail(left, ts[1..], true)
    else if AtKeyword(ts, "BETWEEN") then ParseBetweenTail(left, ts[1..], true)
    else if AtKeyword(ts, "LIKE") || AtKeyword(ts, "ILIKE") then Err(Unsupported)
    else Err(Parsing)
  }

  // What follows the left operand; nothing at all makes it a bare boolean.
  function ParseTail(left: Operand, ts: seq<Token>): (r: Result<Reading<Where>>)
    ensures r.Ok? ==> |r.value.rest| <= |ts| && r.value.rest == ts[|ts| - |r.value.rest|..]
  {
    if AtKeyword(ts, "IS") then ParseIsTail(left, ts[1..])
    else if AtKeyword(ts, "NOT") then ParseNegatedTail(left, ts[1..])
    else if AtKeyword(ts, "IN") then ParseInTail(left, ts[1..], false)
    else if AtKeyword(ts, "BETWEEN") then ParseBetweenTail(left, ts[1..], false)
    else if AtKeyword(ts, "LIKE") || AtKeyword(ts, "ILIKE") then Err(Unsupported)
    else if AtVectorOp(ts) then Err(Unsupported)
    else if AtCompareOp(ts) then
      var right :- ParseValue(ts[1..]);
      var w :- CombineComparison(left, Peek(ts).text, right.value);
      Ok(Reading(w, right.rest))
    else
      var w :- ResolveBare(left);
      Ok(Reading(w, ts))
  }

  function ParsePredicate(ts: seq<Token>): (r: Result<Reading<Where>>)
    ensures Advances(r, ts)
    decreases |ts|, 0
  {
    if AtOp(ts, "(") then
      var inner :- ParseOr(ts[1..]);
      var close :- Expect(inner.rest, Op(")"));
      Ok(Reading(inner.value, close.rest))
    else
      var left :- ParseValue(ts);
      ParseTail(left.value, left.rest)
  }

  function ParseNot(ts: seq<Token>): (r: Result<Reading<Where>>)
    ensures Advances(r, ts)
    decreases |ts|, 1
  {
    if AtKeyword(ts, "NOT") then
      var child :- ParseNot(ts[1..]);
      Ok(Reading(WNot(child.value), child.rest))
    else ParsePredicate(ts)
  }

  // A list of parts with one keyword between them.
  function ParseAnds(ts: seq<Token>): (r: Result<Reading<seq<Where>>>)
    ensures Advances(r, ts) && (r.Ok? ==> r.value.value != [])
    decreases |ts|, 2
  {
    var first :- ParseNot(ts);
    if AtKeyword(first.rest, "AND") then
      var more :- ParseAnds(first.rest[1..]);
      Ok(Reading([first.value] + more.value, more.rest))
    else Ok(Reading([first.value], first.rest))
  }

  function ParseAnd(ts: seq<Token>): (r: Result<Reading<Where>>)
    ensures Advances(r, ts)
    decreases |ts|, 3
  {
    var parts :- ParseAnds(ts);
    Ok(Reading(if |parts.value| == 1 then parts.value[0] else WAnd(parts.value), parts.rest))
  }

  function ParseOrs(ts: seq<Token>): (r: Result<Reading<seq<Where>>>)
    ensures Advances(r, ts) && (r.Ok? ==> r.value.value != [])
    decreases |ts|, 4
  {
    var first :- ParseAnd(ts);
    if AtKeyword(first.rest, "OR") then
      var more :- ParseOrs(first.rest[1..]);
      Ok(Reading([first.value] + more.value, more.rest))
    else Ok(Reading([first.value], first.rest))
  }

  function ParseOr(ts: seq<Token>): (r: Result<Reading<Where>>)
    ensures Advances(r, ts)
    decreases |ts|, 5
  {
    var parts :- ParseOrs(ts);
    Ok(Reading(if |parts.value| == 1 then parts.value[0] else WOr(parts.value), parts.rest))
  }
}
