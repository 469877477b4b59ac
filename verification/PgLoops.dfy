/** fold, buildWhere and buildChildren (internal/translate/pg/expr.go) as they run: loops that fill a
    slice and leave early. They compute Fold and Build. */
module PgLoops {
  import opened Wrappers
  import opened Loops
  import opened Milvus
  import opened Schema
  import opened PgWhere

  method FoldWhere(w: Where) returns (r: Where)
    ensures r == Fold(w)
    decreases w, 1
  {
    match w
    case WAnd(parts) =>
      var keep: seq<Where> := [];
      for i := 0 to |parts|
        invariant keep == Kept(parts[..i], WTrue) && !AnyFolds(parts[..i], WFalse)
      {
        var f := FoldPart(parts, i);
        Extend(parts, i, WTrue, WFalse);
        if f.WFalse? {
          AnyIn(parts, i, WFalse);
          return WFalse;
        }
        if !f.WTrue? {
          keep := keep + [f];
        }
      }
      assert parts[..|parts|] == parts;
      return if |keep| == 0 then WTrue else if |keep| == 1 then keep[0] else WAnd(keep);
    case WOr(parts) =>
      var keep: seq<Where> := [];
      for i := 0 to |parts|
        invariant keep == Kept(parts[..i], WFalse) && !AnyFolds(parts[..i], WTrue)
      {
        var f := FoldPart(parts, i);
        Extend(parts, i, WFalse, WTrue);
        if f.WTrue? {
          AnyIn(parts, i, WTrue);
          return WTrue;
        } else if !f.WFalse? {
          keep := keep + [f];
        }
      }
      assert parts[..|parts|] == parts;
      return if |keep| == 0 then WFalse else if |keep| == 1 then keep[0] else WOr(keep);
    case WNot(c) =>
      var child := FoldWhere(c);
      if child.WFalse? {
        return WTrue;
      } else if child.WTrue? {
        return WFalse;
      }
      if child.WNull? {
        return WNull(child.col, !child.negated);
      }
      return WNot(child);
    case _ => return w;
  }

  method FoldPart(parts: seq<Where>, i: nat) returns (f: Where)
    requires i < |parts|
    ensures f == Fold(parts[i])
    decreases parts, 0
  {
    f := FoldWhere(parts[i]);
  }

  // One more part: what is kept so far, and whether the deciding constant has come up.
  lemma Extend(parts: seq<Where>, i: nat, identity: Where, constant: Where)
    requires i < |parts|
    ensures Kept(parts[..i + 1], identity)
      == Kept(parts[..i], identity) + (if Fold(parts[i]) == identity then [] else [Fold(parts[i])])
    ensures AnyFolds(parts[..i + 1], constant) <==> AnyFolds(parts[..i], constant) || Fold(parts[i]) == constant
  {
    hide Fold;
    assert parts[..i + 1][1..] == parts[1..][..i];
    if i > 0 {
      assert parts[..i][1..] == parts[1..][..i - 1];
      Extend(parts[1..], i - 1, identity, constant);
    }
  }

  lemma AnyIn(parts: seq<Where>, i: nat, constant: Where)
    requires i < |parts| && Fold(parts[i]) == constant
    ensures AnyFolds(parts, constant)
  {
    hide Fold;
    if i > 0 {
      AnyIn(parts[1..], i - 1, constant);
    }
  }

  method BuildExpr(w: Where, schema: Catalog, readers: Readers) returns (r: Result<Expr>)
    ensures r == Build(w, schema, readers)
    decreases w, 1
  {
    match w
    case WTrue => return Ok(Nil);
    case WFalse => return Ok(Never);
    case WCol(c) => return Ok(Compare(EQ, c, Flag(true)));
    case WNot(c) =>
      var child := BuildExpr(c, schema, readers);
      if child.Err? { return Err(child.error); }
      return Ok(Not(child.value));
    case WAnd(parts) =>
      var children := BuildChildren(parts, schema, readers);
      if children.Err? { return Err(children.error); }
      return Ok(And(children.value));
    case WOr(parts) =>
      var children := BuildChildren(parts, schema, readers);
      if children.Err? { return Err(children.error); }
      return Ok(Or(children.value));
    case WIn(c, ls, negated) =>
      var vals: seq<Value> := [];
      Start(ls, CoerceAll(c, ls, schema, readers));
      for i := 0 to |ls|
        invariant CoerceAll(c, ls, schema, readers) == Prefixed(vals, CoerceAll(c, ls[i..], schema, readers))
      {
        Rest(ls, i);
        var v := Coerce(c, ls[i], schema, readers);
        if v.Err? { return Err(v.error); }
        Append(vals, v.value, CoerceAll(c, ls[i + 1..], schema, readers));
        vals := vals + [v.value];
      }
      Finish(vals);
      return Ok(if negated then Not(InList(c, vals)) else InList(c, vals));
    case _ => return Build(w, schema, readers);
  }

  method BuildChildren(parts: seq<Where>, schema: Catalog, readers: Readers) returns (r: Result<seq<Expr>>)
    ensures r == BuildAll(parts, schema, readers)
    decreases parts, 0
  {
    var children: seq<Expr> := [];
    Start(parts, BuildAll(parts, schema, readers));
    for i := 0 to |parts|
      invariant BuildAll(parts, schema, readers) == Prefixed(children, BuildAll(parts[i..], schema, readers))
    {
      Rest(parts, i);
      var e := BuildExpr(parts[i], schema, readers);
      if e.Err? { return Err(e.error); }
      Append(children, e.value, BuildAll(parts[i + 1..], schema, readers));
      children := children + [e.value];
    }
    Finish(children);
    return Ok(children);
  }
}
