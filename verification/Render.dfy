/** Render (internal/translate/expr.go): the one place an expression tree becomes text. */
module Render {
  import opened Wrappers
  import opened Text
  import opened Milvus

  // renderField accepts [A-Za-z_][A-Za-z0-9_]* only.
  predicate IsIdentifier(f: string) {
    f != "" && IsIdentStart(f[0]) && forall i :: 0 <= i < |f| ==> IsIdentPart(f[i])
  }

  predicate IsCompareOp(op: string) {
    op in {EQ, NE, GT, GE, LT, LE}
  }

  function Escape(s: string): string {
    if s == "" then ""
    else (if s[0] == '\\' then "\\\\" else if s[0] == '"' then "\\\"" else [s[0]]) + Escape(s[1..])
  }

  function Quote(s: string): string {
    "\"" + Escape(s) + "\""
  }

  function RenderField(f: string): Result<string> {
    if IsIdentifier(f) then Ok(f) else Err(Internal)
  }

  function RenderLiteral(v: Value): Result<string> {
    match v
    case Unset => Err(Internal)
    case Str(s) => Ok(Quote(s))
    case Int(n) => Ok(Decimal(n))
    case Float(text) => Ok(text)
    case Flag(b) => Ok(if b then "true" else "false")
  }

  function RenderLiterals(vs: seq<Value>): Result<string> {
    if vs == [] then Ok("")
    else
      var head :- RenderLiteral(vs[0]);
      var tail :- RenderLiterals(vs[1..]);
      Ok(if |vs| == 1 then head else head + ", " + tail)
  }

  function RenderExpr(e: Expr): Result<string>
    decreases e, 1
  {
    match e
    case Nil => Ok("")
    case Compare(op, f, v) =>
      if !IsCompareOp(op) then Err(Internal)
      else
        var field :- RenderField(f);
        var literal :- RenderLiteral(v);
        Ok(field + " " + op + " " + literal)
    case InList(f, vs) =>
      var field :- RenderField(f);
      var list :- RenderLiterals(vs);
      Ok(field + " in [" + list + "]")
    case TextMatch(f, query) =>
      var field :- RenderField(f);
      Ok("TEXT_MATCH(" + field + ", " + Quote(query) + ")")
    case NotNull(f) =>
      var field :- RenderField(f);
      Ok(field + " is not null")
    case IsNull(f) =>
      var field :- RenderField(f);
      Ok(field + " is null")
    case Not(NotNull(f)) => // a negated null check is the opposite null check
      var field :- RenderField(f);
      Ok(field + " is null")
    case Not(c) =>
      var child :- RenderExpr(c);
      Ok("not (" + child + ")")
    case And(cs) => if |cs| == 1 then RenderExpr(cs[0]) else RenderJoin(cs, " and ")
    case Or(cs) => if |cs| == 1 then RenderExpr(cs[0]) else RenderJoin(cs, " or ")
    case Never => Ok("1 != 1")
  }

  // Every member of a join of several is parenthesized.
  function RenderJoin(cs: seq<Expr>, op: string): Result<string>
    decreases cs, 0
  {
    if cs == [] then Ok("")
    else
      var head :- RenderExpr(cs[0]);
      var tail :- RenderJoin(cs[1..], op);
      Ok("(" + head + ")" + (if |cs| == 1 then "" else op + tail))
  }
}
