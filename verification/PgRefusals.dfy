/** What the WHERE grammar turns down, construct by construct, and the few spellings it takes that printing a
    clause does not use. */
module PgRefusals {
  import opened Wrappers
  import opened PgWhere
  import opened PgGrammar
  import opened PgRoundTrip
  import opened SqlTokens

  const DISTANCES := {"<->", "<=>", "<#>", "<+>"}

  // ----- operands -----

  /** No operand: a parameter and a subquery are features that are not carried; any other sign or word, and
      the end of the statement, are syntax errors. */
  lemma {:induction false} OperandsRefused(t: Token, rest: seq<Token>)
    ensures t.Param? || t == Op("(") ==> ParseValue([t] + rest) == Err(Unsupported)
    ensures t.Op? && t.text !in {"(", "-", "+"} ==> ParseValue([t] + rest) == Err(Parsing)
    ensures t.Keyword? && t.text !in {"TRUE", "FALSE", "NULL"} ==> ParseValue([t] + rest) == Err(Parsing)
    ensures t.Eof? ==> ParseValue([t] + rest) == Err(Parsing)
    ensures ParseValue([]) == Err(Parsing)
  {
  }

  /** A number may have a sign; a sign before anything else is a syntax error. */
  lemma {:induction false} SignsRead(sign: string, t: Token, rest: seq<Token>)
    requires sign in {"-", "+"} && EndsOperand(rest)
    ensures var ts := [Op(sign), t] + rest;
      ParseValue(ts) == if !t.Digits? then Err(Parsing)
                        else Ok(Reading(Constant(Number(if sign == "-" then "-" + t.text else t.text)), rest))
  {
    var ts := [Op(sign), t] + rest;
    assert ts[1..][0] == t && ts[2..] == rest;
  }

  /** A cast after an operand, and a name that is called, are features that are not carried. */
  lemma {:induction false} CastsRefused(v: Operand, more: seq<Token>)
    requires Spelled(v)
    ensures ParseValue(PrintOperand(v) + ([Op("::")] + more)) == Err(Unsupported)
    ensures v.Column? ==> ParseValue(PrintOperand(v) + ([Op("(")] + more)) == Err(Unsupported)
  {
    OperandBefore(v, [Op("::")] + more);
    if v.Column? {
      ColumnBefore(v.name, [Op("(")] + more);
    }
  }

  lemma {:induction false} OperandBefore(v: Operand, rest: seq<Token>)
    requires Spelled(v) && !AtOp(rest, "(") && !AtOp(rest, ".")
    ensures ParseValuePrimary(PrintOperand(v) + rest) == Ok(Reading(v, rest))
  {
    var ts := PrintOperand(v) + rest;
    if v.Column? {
      ColumnBefore(v.name, rest);
    } else if v.literal.Number? && v.literal.text != "" && v.literal.text[0] == '-' {
      assert ts[1..][0] == Digits(v.literal.text[1..]) && ts[2..] == rest;
      assert "-" + v.literal.text[1..] == v.literal.text;
    } else {
      assert ts[1..] == rest;
    }
  }

  lemma {:induction false} ColumnBefore(name: string, rest: seq<Token>)
    requires name != "" && !AtOp(rest, ".")
    ensures ParseColumnRef(PrintColumn(name) + rest) == Ok(Reading(name, rest))
    ensures Peek(PrintColumn(name) + rest).Ident?
  {
    var ts, d := PrintColumn(name) + rest, FirstDot(name);
    if d == |name| {
      assert ts[1..] == rest;
    } else {
      assert ts[1..][0] == Op(".") && ts[1..][1..][0] == PrintName(name[d + 1..]) && ts[1..][2..] == rest;
      assert name[..d] + "." + name[d + 1..] == name;
    }
  }

  /** Names: a qualified star is not carried, a quoted name holds no dot, a qualifier is followed by a name, and
      a name of no characters is read as a number of none. */
  lemma {:induction false} NamesRefused(name: string, quoted: bool, t: Token, rest: seq<Token>)
    ensures quoted && '.' in name ==> ParseValue([Ident(name, quoted)] + rest) == Err(Parsing)
    ensures !(quoted && '.' in name) ==>
      ParseValue([Ident(name, quoted), Op("."), Op("*")] + rest) == Err(Unsupported)
    ensures !(quoted && '.' in name) && !t.Ident? && t != Op("*") ==>
      ParseValue([Ident(name, quoted), Op("."), t] + rest) == Err(Parsing)
    ensures EndsOperand(rest) ==> ParseValue([Ident("", quoted)] + rest) == Ok(Reading(Constant(Number("")), rest))
  {
    var star, other, none := [Ident(name, quoted), Op("."), Op("*")] + rest, [Ident(name, quoted), Op("."), t] + rest,
      [Ident("", quoted)] + rest;
    assert star[1..][0] == Op(".") && star[1..][1..][0] == Op("*");
    assert other[1..][0] == Op(".") && other[1..][1..][0] == t;
    assert none[1..] == rest;
  }

  // ----- what follows an operand -----

  /** Pattern matches and distances are not carried; NOT is followed by IN, BETWEEN or a pattern match, and IS by
      NULL or NOT NULL. */
  lemma {:induction false} TailsRefused(left: Operand, t: Token, rest: seq<Token>)
    ensures t in {Keyword("LIKE"), Keyword("ILIKE")} ==>
      ParseTail(left, [t] + rest) == Err(Unsupported) == ParseTail(left, [Keyword("NOT"), t] + rest)
    ensures t.Op? && t.text in DISTANCES ==> ParseTail(left, [t] + rest) == Err(Unsupported)
    ensures t !in {Keyword("IN"), Keyword("BETWEEN"), Keyword("LIKE"), Keyword("ILIKE")} ==>
      ParseTail(left, [Keyword("NOT"), t] + rest) == Err(Parsing)
    ensures t !in {Keyword("NULL"), Keyword("NOT")} ==> ParseTail(left, [Keyword("IS"), t] + rest) == Err(Parsing)
  {
    var negated, checked := [Keyword("NOT"), t] + rest, [Keyword("IS"), t] + rest;
    assert negated[1..][0] == t && checked[1..][0] == t;
  }

  /** A list is of literals and no subquery; so are the bounds of a range. */
  lemma {:induction false} ListsRefused(name: string, more: seq<Token>, left: Operand, negated: bool)
    requires name != "" && EndsOperand(more)
    ensures left.Column? ==>
      ParseInTail(left, [Op("("), Keyword("SELECT")] + more, negated) == Err(Unsupported)
    ensures ParseInList(PrintColumn(name) + more) == Err(Unsupported)
  {
    var sub := [Op("("), Keyword("SELECT")] + more;
    assert sub[1..][0] == Keyword("SELECT");
    OperandInverts(Column(name), more);
  }
}
