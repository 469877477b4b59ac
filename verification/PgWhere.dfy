/** The SQL WHERE clause (internal/translate/pg): what it says under SQL's three-valued logic, how
    the parser resolves NULL while it reads, folding and lowering, and exactly what survives. */
module PgWhere {
  import opened Wrappers
  import opened Milvus
  import opened Schema

  datatype SqlLiteral = Number(text: string) | String(text: string) | Boolean(text: string) | Null

  // One side of a predicate.
  datatype Operand = Column(name: string) | Constant(literal: SqlLiteral)

  // A predicate as written, NULLs included.
  datatype Predicate =
    | Comparison(left: Operand, op: string, right: Operand)
    | InTail(left: Operand, values: seq<SqlLiteral>, negated: bool)
    | BetweenTail(left: Operand, lo: SqlLiteral, hi: SqlLiteral, negated: bool)
    | NullTest(left: Operand, negated: bool)
    | Bare(value: Operand)
    | Negation(child: Predicate)
    | Conjunction(parts: seq<Predicate>)
    | Disjunction(parts: seq<Predicate>)

  // The WHERE tree the parser hands on; True is Go's nil.
  datatype Where =
    | WTrue
    | WFalse
    | WCol(col: string)
    | WNot(child: Where)
    | WAnd(parts: seq<Where>)
    | WOr(parts: seq<Where>)
    | WCmp(op: string, col: string, val: SqlLiteral)
    | WIn(col: string, vals: seq<SqlLiteral>, negated: bool)
    | WBetween(col: string, lo: SqlLiteral, hi: SqlLiteral, negated: bool)
    | WNull(col: string, negated: bool)

  // ----- resolution while parsing -----

  function Flip(op: string): string {
    if op == "<" then ">" else if op == "<=" then ">=" else if op == ">" then "<" else if op == ">=" then "<="
    else if op == "!=" then "<>" else op
  }

  predicate IsNullConstant(v: Operand) {
    v.Constant? && v.literal.Null?
  }

  // combineComparison
  function CombineComparison(left: Operand, op: string, right: Operand): Result<Where> {
    if IsNullConstant(left) || IsNullConstant(right) then Ok(WFalse)
    else if left.Constant? && right.Constant? then Err(Unsupported)
    else if left.Column? && right.Column? then Err(Unsupported)
    else if left.Column? then Ok(WCmp(op, left.name, right.literal))
    else Ok(WCmp(Flip(op), right.name, left.literal))
  }

  function NonNull(vs: seq<SqlLiteral>): (r: seq<SqlLiteral>)
    ensures forall v :: v in r <==> v in vs && !v.Null?
  {
    if vs == [] then [] else if vs[0].Null? then NonNull(vs[1..]) else [vs[0]] + NonNull(vs[1..])
  }

  // parseInTail, once its list is read
  function ResolveIn(left: Operand, values: seq<SqlLiteral>, negated: bool): Result<Where> {
    if left.Constant? then Err(Parsing)
    else if negated && SqlLiteral.Null in values then Ok(WFalse)
    else Ok(WIn(left.name, NonNull(values), negated))
  }

  // parseBetweenTail, once its bounds are read
  function ResolveBetween(left: Operand, lo: SqlLiteral, hi: SqlLiteral, negated: bool): Result<Where> {
    if left.Constant? then Err(Parsing)
    else if lo.Null? || hi.Null? then Ok(WFalse)
    else Ok(WBetween(left.name, lo, hi, negated))
  }

  // barePredicate
  function ResolveBare(v: Operand): Result<Where> {
    match v
    case Column(name) => Ok(WCol(name))
    case Constant(Boolean(text)) => Ok(if text == "true" then WTrue else WFalse)
    case Constant(Null) => Ok(WFalse)
    case _ => Err(Parsing)
  }

  function Resolve(p: Predicate): Result<Where>
    decreases p, 1
  {
    match p
    case Comparison(l, op, r) => CombineComparison(l, op, r)
    case InTail(l, vs, negated) => ResolveIn(l, vs, negated)
    case BetweenTail(l, lo, hi, negated) => ResolveBetween(l, lo, hi, negated)
    case NullTest(l, negated) => if l.Constant? then Err(Parsing) else Ok(WNull(l.name, negated))
    case Bare(v) => ResolveBare(v)
    case Negation(c) =>
      var w :- Resolve(c);
      Ok(WNot(w))
    case Conjunction(parts) =>
      var ws :- ResolveAll(parts);
      Ok(WAnd(ws))
    case Disjunction(parts) =>
      var ws :- ResolveAll(parts);
      Ok(WOr(ws))
  }

  function ResolveAll(ps: seq<Predicate>): (r: Result<seq<Where>>)
    ensures r.Ok? ==> |r.value| == |ps| && forall i :: 0 <= i < |ps| ==> Resolve(ps[i]) == Ok(r.value[i])
    decreases ps, 0
  {
    if ps == [] then Ok([])
    else
      var head :- Resolve(ps[0]);
      var tail :- ResolveAll(ps[1..]);
      Ok([head] + tail)
  }

  // ----- fold -----

  function Fold(w: Where): Where
    decreases w, 1
  {
    match w
    case WAnd(parts) =>
      if AnyFolds(parts, WFalse) then WFalse
      else
        var keep := Kept(parts, WTrue);
        if |keep| == 0 then WTrue else if |keep| == 1 then keep[0] else WAnd(keep)
    case WOr(parts) =>
      if AnyFolds(parts, WTrue) then WTrue
      else
        var keep := Kept(parts, WFalse);
        if |keep| == 0 then WFalse else if |keep| == 1 then keep[0] else WOr(keep)
    case WNot(c) =>
      var child := Fold(c);
      if child.WFalse? then WTrue
      else if child.WTrue? then WFalse
      else if child.WNull? then WNull(child.col, !child.negated)
      else WNot(child)
    case _ => w
  }

  predicate AnyFolds(ws: seq<Where>, constant: Where)
    decreases ws, 0
  {
    ws != [] && (Fold(ws[0]) == constant || AnyFolds(ws[1..], constant))
  }

  // The folded parts, without the group's identity.
  function Kept(ws: seq<Where>, identity: Where): seq<Where>
    decreases ws, 0
  {
    if ws == [] then []
    else if Fold(ws[0]) == identity then Kept(ws[1..], identity)
    else [Fold(ws[0])] + Kept(ws[1..], identity)
  }

  // ----- lowering -----

  function DateValue(text: string, readers: Readers): Result<Value> {
    match readers.millis(text) case Some(ms) => Ok(Int(ms)) case None => Err(Illegal)
  }

  function FloatValue(text: string, readers: Readers): Result<Value> {
    match readers.float64(text) case Some(f) => Ok(Float(f)) case None => Err(Illegal)
  }

  /** A literal in the storage encoding of the field it is compared with. */
  function Coerce(field: string, l: SqlLiteral, schema: Catalog, readers: Readers): Result<Value> {
    match l
    case Number(text) =>
      if schema.TypeOf(field).Keyword? then Ok(Str(text))
      else if schema.TypeOf(field).Boolean? then Err(Illegal)
      else if readers.int64(text).Some? then Ok(Int(readers.int64(text).value))
      else FloatValue(text, readers)
    case String(text) =>
      (match schema.TypeOf(field)
       case Date => DateValue(text, readers)
       case Number => FloatValue(text, readers)
       case Boolean => if text == "true" || text == "false" then Ok(Flag(text == "true")) else Err(Illegal)
       case _ => Ok(Str(text)))
    case Boolean(text) =>
      if schema.TypeOf(field).Boolean? || schema.TypeOf(field).UnknownType? then Ok(Flag(text == "true"))
        else Err(Illegal)
    case Null => Err(Parsing)
  }

  // ----- what a literal stands for -----

  // A number as written: a 64-bit integer if it is one, otherwise a float.
  ghost predicate IsNumber(text: string, d: Literal, readers: Readers) {
    (exists n :: readers.int64(text) == Some(n) && d == NumberLiteral(Decimal(n)))
    || (readers.int64(text).None? && exists f :: readers.float64(text) == Some(f) && d == NumberLiteral(f))
  }

  /** The value a literal stands for in a comparison with a column of a type. Strings are converted where the
      column is a number, a boolean or a date, numbers where it is a keyword; TRUE and FALSE compare with
      booleans only. NULL stands for none, and neither does a literal the type has no reading of. */
  ghost predicate Denotes(t: FieldType, l: SqlLiteral, d: Literal, readers: Readers) {
    match t
    case Keyword => (l.Number? || l.String?) && d == TextLiteral(l.text)
    case Boolean =>
      || (l in {SqlLiteral.Boolean("true"), String("true")} && d == TruthLiteral(true))
      || (l == String("false") && d == TruthLiteral(false))
      || (l.Boolean? && l.text != "true" && d == TruthLiteral(false))
    case Number =>
      || (l.Number? && IsNumber(l.text, d, readers))
      || (l.String? && exists f :: readers.float64(l.text) == Some(f) && d == NumberLiteral(f))
    case Date =>
      || (l.Number? && IsNumber(l.text, d, readers))
      || (l.String? && exists ms :: readers.millis(l.text) == Some(ms) && d == NumberLiteral(Decimal(ms)))
    case UnknownType =>
      || (l.Number? && IsNumber(l.text, d, readers)) || (l.String? && d == TextLiteral(l.text))
      || (l.Boolean? && d == TruthLiteral(l.text == "true"))
    case _ => (l.Number? && IsNumber(l.text, d, readers)) || (l.String? && d == TextLiteral(l.text))
  }

  // A literal the type has a reading of.
  ghost predicate Stands(t: FieldType, l: SqlLiteral, readers: Readers) {
    exists d :: Denotes(t, l, d, readers)
  }

  lemma {:induction false} CoerceStands(field: string, l: SqlLiteral, schema: Catalog, readers: Readers)
    ensures Coerce(field, l, schema, readers).Ok? <==> Stands(schema.TypeOf(field), l, readers)
    ensures l.Null? ==> !Stands(schema.TypeOf(field), l, readers)
  {
    hide Denotes, ReadBack;
    var coerced := Coerce(field, l, schema, readers);
    CoerceDenotes(field, l, schema, readers);
    assert coerced.Ok? ==> Denotes(schema.TypeOf(field), l, ReadBack(coerced.value), readers);
  }

  /** The storage encoding of a literal is, as the dialect reads it, the one value the literal stands for; it is
      refused exactly when the literal stands for none. */
  lemma {:induction false} CoerceDenotes(field: string, l: SqlLiteral, schema: Catalog, readers: Readers)
    ensures var coerced := Coerce(field, l, schema, readers);
      forall d :: Denotes(schema.TypeOf(field), l, d, readers) <==> coerced.Ok? && d == ReadBack(coerced.value)
  {
    hide Decimal;
  }

  // compareMilvusOps
  function MilvusOp(op: string): Option<string> {
    if op == "=" then Some(EQ)
    else if op == "<>" || op == "!=" then Some(NE)
    else if op == "<" then Some(LT)
    else if op == "<=" then Some(LE)
    else if op == ">" then Some(GT)
    else if op == ">=" then Some(GE)
    else None
  }

  function CoerceAll(field: string, ls: seq<SqlLiteral>, schema: Catalog, readers: Readers): (r: Result<seq<Value>>)
    ensures r.Ok? ==> |r.value| == |ls|
    ensures r.Ok? ==> forall i :: 0 <= i < |ls| ==> Coerce(field, ls[i], schema, readers) == Ok(r.value[i])
  {
    if ls == [] then Ok([])
    else
      var head :- Coerce(field, ls[0], schema, readers);
      var tail :- CoerceAll(field, ls[1..], schema, readers);
      Ok([head] + tail)
  }

  /** buildWhere */
  function Build(w: Where, schema: Catalog, readers: Readers): Result<Expr>
    decreases w, 1
  {
    match w
    case WTrue => Ok(Nil)
    case WFalse => Ok(Never)
    case WCol(c) => Ok(Compare(EQ, c, Flag(true)))
    case WNot(c) =>
      var e :- Build(c, schema, readers);
      Ok(Not(e))
    case WAnd(parts) =>
      var es :- BuildAll(parts, schema, readers);
      Ok(And(es))
    case WOr(parts) =>
      var es :- BuildAll(parts, schema, readers);
      Ok(Or(es))
    case WCmp(op, c, l) =>
      var v :- Coerce(c, l, schema, readers);
      if MilvusOp(op).None? then Err(Internal) else Ok(Compare(MilvusOp(op).value, c, v))
    case WIn(c, ls, negated) =>
      var vs :- CoerceAll(c, ls, schema, readers);
      Ok(if negated then Not(InList(c, vs)) else InList(c, vs))
    case WBetween(c, lo, hi, negated) =>
      var l :- Coerce(c, lo, schema, readers);
      var h :- Coerce(c, hi, schema, readers);
      var bounds := And([Compare(GE, c, l), Compare(LE, c, h)]);
      Ok(if negated then Not(bounds) else bounds)
    case WNull(c, negated) => Ok(if negated then NotNull(c) else IsNull(c))
  }

  function BuildAll(ws: seq<Where>, schema: Catalog, readers: Readers): (r: Result<seq<Expr>>)
    ensures r.Ok? ==> |r.value| == |ws| && forall i :: 0 <= i < |ws| ==> Build(ws[i], schema, readers) == Ok(r.value[i])
    decreases ws, 0
  {
    if ws == [] then Ok([])
    else
      var head :- Build(ws[0], schema, readers);
      var tail :- BuildAll(ws[1..], schema, readers);
      Ok([head] + tail)
  }
}
