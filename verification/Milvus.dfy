/** The Milvus boolean-expression tree (internal/translate/expr.go) and the three-valued value
    the server gives it on one row. */
module Milvus {
  import opened Wrappers
  import opened Text

  // A stored, non-null scalar. Cells of other storage types only carry their printed text.
  datatype Cell =
    | StrCell(str: string)
    | IntCell(number: int)
    | RealCell(float: real)
    | BoolCell(flag: bool)
    | OtherCell(text: string)

  // A null or missing cell reads as None.
  type Row = string -> Option<Cell>

  // A typed literal. A float is held by its shortest decimal text, which determines it.
  datatype Value = Unset | Str(str: string) | Int(number: int) | Float(text: string) | Flag(flag: bool)

  const EQ := "=="
  const NE := "!="
  const GT := ">"
  const GE := ">="
  const LT := "<"
  const LE := "<="

  datatype Expr =
    | Nil // "match everything"
    | Compare(op: string, field: string, value: Value)
    | InList(field: string, values: seq<Value>)
    | TextMatch(field: string, query: string)
    | NotNull(field: string)
    | IsNull(field: string)
    | Not(child: Expr)
    | And(children: seq<Expr>)
    | Or(children: seq<Expr>)
    | Never

  datatype Order = Less | Equal | Greater | Unordered

  // What the server decides about a cell: how it compares with a literal as that reads in the
  // expression text, and whether an analysed cell contains a term.
  datatype Server = Server(order: (Cell, Literal) -> Order, contains: (Cell, string) -> bool) {
    predicate Holds(op: string, cell: Cell, literal: Literal) {
      OrderSatisfies(op, order(cell, literal))
    }
  }

  predicate OrderSatisfies(op: string, o: Order) {
    || (op == EQ && o.Equal?)
    || (op == NE && !o.Equal?)
    || (op == GT && o.Greater?)
    || (op == GE && (o.Greater? || o.Equal?))
    || (op == LT && o.Less?)
    || (op == LE && (o.Less? || o.Equal?))
  }

  // A literal as the dialect sees it: an int and a float with the same digits are the same literal.
  datatype Literal = NoLiteral | TextLiteral(text: string) | NumberLiteral(digits: string) | TruthLiteral(truth: bool)

  function ReadBack(v: Value): Literal {
    match v
    case Unset => NoLiteral
    case Str(s) => TextLiteral(s)
    case Int(n) => NumberLiteral(Decimal(n))
    case Float(text) => NumberLiteral(text)
    case Flag(b) => TruthLiteral(b)
  }

  function Decimal(n: int): string {
    if n < 0 then "-" + Digits(-n) else Digits(n)
  }

  function Digits(n: nat): (s: string)
    ensures |s| > 0 && forall i :: 0 <= i < |s| ==> '0' <= s[i] <= '9'
  {
    if n < 10 then [Digit(n)] else Digits(n / 10) + [Digit(n % 10)]
  }

  function Digit(d: nat): (c: char)
    requires d < 10
    ensures '0' <= c <= '9'
  {
    '0' + d as char
  }

  // The integer a decimal text stands for.
  function IntegerOf(text: string): int {
    if text != "" && text[0] == '-' then -NaturalOf(text[1..]) else NaturalOf(text)
  }

  function NaturalOf(text: string): int {
    if text == "" then 0 else 10 * NaturalOf(text[..|text| - 1]) + (text[|text| - 1] as int - '0' as int)
  }

  /** An integer's decimal text reads back as the integer. */
  lemma {:induction false} DecimalReads(n: int)
    ensures IntegerOf(Decimal(n)) == n
  {
    DigitsRead(if n < 0 then -n else n);
    if n < 0 {
      assert Decimal(n)[1..] == Digits(-n);
    }
  }

  lemma {:induction false} DigitsRead(n: nat)
    ensures NaturalOf(Digits(n)) == n && Digits(n)[0] != '-'
  {
    var text := Digits(n);
    if n < 10 {
      assert text[..0] == "";
    } else {
      DigitsRead(n / 10);
      assert text[..|text| - 1] == Digits(n / 10);
    }
  }

  // Kleene's strong three-valued logic.
  datatype Truth = True | False | Unknown {
    function Negate(): Truth {
      match this
      case True => False
      case False => True
      case Unknown => Unknown
    }
  }

  function FromBool(b: bool): Truth {
    if b then True else False
  }

  function Eval(e: Expr, row: Row, server: Server): Truth {
    match e
    case Nil => True
    case Never => False
    case NotNull(f) => FromBool(row(f).Some?)
    case IsNull(f) => FromBool(row(f).None?)
    case Compare(op, f, v) =>
      if row(f).None? then Unknown else FromBool(server.Holds(op, row(f).value, ReadBack(v)))
    case InList(f, vs) =>
      if row(f).None? then Unknown
      else FromBool(exists v :: v in vs && server.Holds(EQ, row(f).value, ReadBack(v)))
    case TextMatch(f, query) =>
      if row(f).None? then Unknown
      else FromBool(exists t :: t in QueryTerms(query) && server.contains(row(f).value, t))
    case Not(c) => Eval(c, row, server).Negate()
    case And(cs) => // no child renders as "match everything"
      if exists c :: c in cs && Eval(c, row, server) == False then False
      else if exists c :: c in cs && Eval(c, row, server) == Unknown then Unknown
      else True
    case Or(cs) => // the same degenerate case as And
      if cs == [] || exists c :: c in cs && Eval(c, row, server) == True then True
      else if exists c :: c in cs && Eval(c, row, server) == Unknown then Unknown
      else False
  }

  predicate Passes(e: Expr, row: Row, server: Server) {
    Eval(e, row, server) == True
  }

  lemma AndPasses(cs: seq<Expr>, row: Row, server: Server)
    ensures Passes(And(cs), row, server) <==> forall c :: c in cs ==> Passes(c, row, server)
  {
    if c :| c in cs && !Passes(c, row, server) {
      assert Eval(c, row, server) == False || Eval(c, row, server) == Unknown;
    }
  }

  lemma AndOfTwo(a: Expr, b: Expr, row: Row, server: Server)
    ensures Passes(And([a, b]), row, server) <==> Passes(a, row, server) && Passes(b, row, server)
  {
    AndPasses([a, b], row, server);
    assert a in [a, b] && b in [a, b];
  }

  lemma OrPasses(cs: seq<Expr>, row: Row, server: Server)
    ensures Passes(Or(cs), row, server) <==> cs == [] || exists c :: c in cs && Passes(c, row, server)
  {
  }

  // TEXT_MATCH ors the space-separated terms of its query.
  function QueryTerms(query: string): seq<string> {
    Fields(query, IsBlank)
  }

  predicate IsBlank(c: char) {
    c == ' '
  }
}
