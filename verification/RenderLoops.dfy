/** renderExpr, renderJoin and renderLiteral's list as they run: every piece is appended to one shared
    builder, and the first error stops the writing. */
module RenderLoops {
  import opened Wrappers
  import opened Milvus
  import opened Render

  // strings.Builder
  class Builder {
    var text: string

    constructor ()
      ensures text == ""
    {
      text := "";
    }

    method WriteString(s: string)
      modifies this
      ensures text == old(text) + s
    {
      text := text + s;
    }
  }

  // What is in the builder afterwards, if nothing failed, and otherwise that something did.
  ghost predicate Writes(before: string, after: string, rendered: Result<string>, failed: bool) {
    (failed <==> rendered.Err?) && (rendered.Ok? ==> after == before + rendered.value)
  }

  // strings.Join with ", "
  function CommaJoin(texts: seq<string>): string {
    if texts == [] then "" else if |texts| == 1 then texts[0] else texts[0] + ", " + CommaJoin(texts[1..])
  }

  lemma {:induction false} LiteralsJoin(vs: seq<Value>, texts: seq<string>)
    requires |texts| == |vs| && forall i :: 0 <= i < |vs| ==> RenderLiteral(vs[i]) == Ok(texts[i])
    ensures RenderLiterals(vs) == Ok(CommaJoin(texts))
  {
    if vs != [] {
      LiteralsJoin(vs[1..], texts[1..]);
    }
  }

  lemma {:induction false} LiteralsFail(vs: seq<Value>, i: nat)
    requires i < |vs| && RenderLiteral(vs[i]).Err?
    ensures RenderLiterals(vs).Err?
  {
    if i > 0 {
      LiteralsFail(vs[1..], i - 1);
    }
  }

  method RenderList(vs: seq<Value>) returns (r: Result<string>)
    ensures r.Err? <==> RenderLiterals(vs).Err?
    ensures r.Ok? ==> r == RenderLiterals(vs)
  {
    var vals := new string[|vs|];
    for i := 0 to |vs|
      invariant forall j :: 0 <= j < i ==> RenderLiteral(vs[j]) == Ok(vals[j])
    {
      var v := RenderLiteral(vs[i]);
      if v.Err? {
        LiteralsFail(vs, i);
        return Err(v.error);
      }
      vals[i] := v.value;
    }
    LiteralsJoin(vs, vals[..]);
    return Ok(CommaJoin(vals[..]));
  }

  method RenderExprTo(b: Builder, e: Expr) returns (failed: bool)
    modifies b
    ensures Writes(old(b.text), b.text, RenderExpr(e), failed)
    decreases e, 1
  {
    match e
    case Nil => return false;
    case Compare(op, f, v) =>
      if !IsCompareOp(op) { return true; }
      var field := RenderField(f);
      if field.Err? { return true; }
      var literal := RenderLiteral(v);
      if literal.Err? { return true; }
      b.WriteString(field.value + " " + op + " " + literal.value);
      return false;
    case InList(f, vs) =>
      var field := RenderField(f);
      if field.Err? { return true; }
      var list := RenderList(vs);
      if list.Err? { return true; }
      b.WriteString(field.value + " in [" + list.value + "]");
      return false;
    case TextMatch(f, query) =>
      var field := RenderField(f);
      if field.Err? { return true; }
      b.WriteString("TEXT_MATCH(" + field.value + ", " + Quote(query) + ")");
      return false;
    case NotNull(f) =>
      var field := RenderField(f);
      if field.Err? { return true; }
      b.WriteString(field.value + " is not null");
      return false;
    case IsNull(f) =>
      var field := RenderField(f);
      if field.Err? { return true; }
      b.WriteString(field.value + " is null");
      return false;
    case Not(c) =>
      if c.NotNull? {
        var field := RenderField(c.field);
        if field.Err? { return true; }
        b.WriteString(field.value + " is null");
        return false;
      }
      b.WriteString("not (");
      failed := RenderExprTo(b, c);
      if failed { return true; }
      b.WriteString(")");
      return false;
    case And(cs) => failed := RenderJoinTo(b, cs, " and "); return failed;
    case Or(cs) => failed := RenderJoinTo(b, cs, " or "); return failed;
    case Never =>
      b.WriteString("1 != 1");
      return false;
  }

  // A join under construction: what is written, and what its remaining members still add.
  function Joined(written: string, i: nat, cs: seq<Expr>, op: string): Result<string>
    requires i <= |cs|
  {
    var rest :- RenderJoin(cs[i..], op);
    Ok(written + (if 0 < i < |cs| then op else "") + rest)
  }

  lemma JoinedStep(written: string, i: nat, cs: seq<Expr>, op: string)
    requires i < |cs|
    ensures RenderExpr(cs[i]).Err? ==> Joined(written, i, cs, op).Err?
    ensures RenderExpr(cs[i]).Ok? ==>
      Joined(written, i, cs, op) ==
      Joined(written + (if i > 0 then op else "") + "(" + RenderExpr(cs[i]).value + ")", i + 1, cs, op)
  {
    hide RenderExpr;
    assert cs[i..][0] == cs[i] && cs[i..][1..] == cs[i + 1..];
    var head, tail := RenderExpr(cs[i]), RenderJoin(cs[i + 1..], op);
    if head.Ok? && tail.Ok? {
      var sep, next := if i > 0 then op else "", if i + 1 < |cs| then op else "";
      assert written + sep + ("(" + head.value + ")" + (next + tail.value))
          == written + sep + "(" + head.value + ")" + next + tail.value;
      assert i + 1 == |cs| ==> tail.value == "" && next + tail.value == "";
    }
  }

  // The text of a join: a single member is passed through unwrapped.
  function JoinText(cs: seq<Expr>, op: string): Result<string> {
    if |cs| == 1 then RenderExpr(cs[0]) else RenderJoin(cs, op)
  }

  method RenderJoinTo(b: Builder, cs: seq<Expr>, op: string) returns (failed: bool)
    modifies b
    ensures Writes(old(b.text), b.text, JoinText(cs, op), failed)
    decreases cs, 0
  {
    hide RenderExpr, RenderJoin;
    if |cs| == 0 {
      JoinOfNone(op);
      return false;
    }
    if |cs| == 1 {
      failed := RenderExprTo(b, cs[0]);
      return failed;
    }
    ghost var written := "";
    assert cs[0..] == cs;
    JoinedStart(cs, op);
    for i := 0 to |cs|
      invariant b.text == old(b.text) + written
      invariant RenderJoin(cs, op) == Joined(written, i, cs, op)
    {
      JoinedStep(written, i, cs, op);
      assert cs[i] in cs;
      if i > 0 {
        b.WriteString(op);
      }
      b.WriteString("(");
      failed := RenderExprTo(b, cs[i]);
      if failed { return true; }
      b.WriteString(")");
      written := written + (if i > 0 then op else "") + "(" + RenderExpr(cs[i]).value + ")";
      assert b.text == old(b.text) + written;
    }
    JoinedEnd(written, cs, op);
    return false;
  }

  lemma JoinOfNone(op: string)
    ensures RenderJoin([], op) == Ok("")
  {
  }

  lemma JoinedStart(cs: seq<Expr>, op: string)
    ensures RenderJoin(cs, op) == Joined("", 0, cs, op)
  {
    hide RenderJoin;
    assert cs[0..] == cs;
    if RenderJoin(cs, op).Ok? {
      assert "" + "" + RenderJoin(cs, op).value == RenderJoin(cs, op).value;
    }
  }

  lemma JoinedEnd(written: string, cs: seq<Expr>, op: string)
    ensures Joined(written, |cs|, cs, op) == Ok(written)
  {
    assert cs[|cs|..] == [];
    assert written + "" + "" == written;
  }

  method RenderText(e: Expr) returns (r: Result<string>)
    ensures r.Err? <==> RenderExpr(e).Err?
    ensures r.Ok? ==> r == RenderExpr(e)
  {
    var b := new Builder();
    var failed := RenderExprTo(b, e);
    if failed { return Err(Internal); }
    assert "" + RenderExpr(e).value == RenderExpr(e).value;
    return Ok(b.text);
  }
}
