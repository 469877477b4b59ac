/** buildExpr, boolExpr and negated as they run: each clause list is walked by a loop that appends to
    a slice and stops at the first error. They compute Lower and Negated. */
module EsLowerLoops {
  import opened Wrappers
  import opened Loops
  import opened Milvus
  import opened Schema
  import opened EsQuery
  import opened EsLower

  method BuildExpr(q: Query, schema: Catalog, readers: Readers) returns (r: Result<Expr>)
    ensures r == Lower(q, schema, readers)
    decreases q, 2
  {
    match q
    case MatchAll => return Ok(Nil);
    case MatchNone => return Ok(Never);
    case Bool(_, _, _, _, _) => r := BoolExpr(q, schema, readers);
    case Term(f, v) =>
      var c := Coerce(f, v, schema, readers);
      if c.Err? { return Err(c.error); }
      return Ok(Compare(EQ, f, c.value));
    case Terms(f, values) =>
      var vals: seq<Value> := [];
      Start(values, CoerceAll(f, values, schema, readers));
      for i := 0 to |values|
        invariant CoerceAll(f, values, schema, readers) == Prefixed(vals, CoerceAll(f, values[i..], schema, readers))
      {
        var c := Coerce(f, values[i], schema, readers);
        Rest(values, i);
        if c.Err? { return Err(c.error); }
        Append(vals, c.value, CoerceAll(f, values[i + 1..], schema, readers));
        vals := vals + [c.value];
      }
      Finish(vals);
      return Ok(InList(f, vals));
    case Match(_, _, _) => return LowerMatch(q, schema, readers);
    case Range(f, bounds) =>
      var children: seq<Expr> := [];
      Start(bounds, LowerBounds(f, bounds, schema, readers));
      for i := 0 to |bounds|
        invariant LowerBounds(f, bounds, schema, readers)
          == Prefixed(children, LowerBounds(f, bounds[i..], schema, readers))
      {
        var c := Coerce(f, bounds[i].value, schema, readers);
        Rest(bounds, i);
        if c.Err? { return Err(c.error); }
        Append(children, Compare(bounds[i].op, f, c.value), LowerBounds(f, bounds[i + 1..], schema, readers));
        children := children + [Compare(bounds[i].op, f, c.value)];
      }
      Finish(children);
      return Ok(if |children| == 1 then children[0] else And(children));
    case Exists(f) => return Ok(NotNull(f));
  }

  method BuildClauses(qs: seq<Query>, ghost b: Query, schema: Catalog, readers: Readers) returns (r: Result<seq<Expr>>)
    requires forall c :: c in qs ==> c < b
    ensures r == LowerAll(qs, schema, readers)
    decreases b, 0, |qs|
  {
    var group: seq<Expr> := [];
    Start(qs, LowerAll(qs, schema, readers));
    for i := 0 to |qs|
      invariant LowerAll(qs, schema, readers) == Prefixed(group, LowerAll(qs[i..], schema, readers))
    {
      Rest(qs, i);
      var e := BuildExpr(qs[i], schema, readers);
      if e.Err? { return Err(e.error); }
      Append(group, e.value, LowerAll(qs[i + 1..], schema, readers));
      if !e.value.Nil? {
        group := group + [e.value];
      }
    }
    Finish(group);
    return Ok(group);
  }

  method BoolExpr(b: Query, schema: Catalog, readers: Readers) returns (r: Result<Expr>)
    requires b.Bool?
    ensures r == Lower(b, schema, readers)
    decreases b, 1
  {
    hide LowerAll, NegatedAll;
    var children: seq<Expr> := [];
    LowerAllAppend(b.must, b.filter, schema, readers);
    var andGroup := BuildClauses(b.must + b.filter, b, schema, readers);
    if andGroup.Err? { return Err(andGroup.error); }
    if |andGroup.value| == 1 {
      children := children + [andGroup.value[0]];
    } else if |andGroup.value| > 1 {
      children := children + [And(andGroup.value)];
    }
    assert children == Grouped(andGroup.value, true);
    ghost var should: seq<Expr> := [];
    NoClauses(schema, readers);
    if |b.should| > 0 {
      var orGroup := BuildClauses(b.should, b, schema, readers);
      if orGroup.Err? { return Err(orGroup.error); }
      should := orGroup.value;
      if |orGroup.value| == 1 {
        children := children + [orGroup.value[0]];
      } else if |orGroup.value| > 1 {
        children := children + [Or(orGroup.value)];
      }
    }
    assert children == Grouped(andGroup.value, true) + Grouped(should, false);
    var all := AppendNegated(children, b, schema, readers);
    if all.Err? { return Err(all.error); }
    children := all.value;
    return Ok(if |children| == 0 then Nil else if |children| == 1 then children[0] else And(children));
  }

  lemma NoClauses(schema: Catalog, readers: Readers)
    ensures LowerAll([], schema, readers) == Ok([])
  {
  }

  // The must_not loop of boolExpr.
  method AppendNegated(groups: seq<Expr>, b: Query, schema: Catalog, readers: Readers) returns (r: Result<seq<Expr>>)
    requires b.Bool?
    ensures r == match LowerAll(b.mustNot, schema, readers)
                 case Ok(es) => Ok(groups + NegatedAll(es, schema))
                 case Err(e) => Err(e)
    decreases b, 0
  {
    var children := groups;
    ghost var es := [];
    Start(b.mustNot, LowerAll(b.mustNot, schema, readers));
    for i := 0 to |b.mustNot|
      invariant LowerAll(b.mustNot, schema, readers) == Prefixed(es, LowerAll(b.mustNot[i..], schema, readers))
      invariant children == groups + NegatedAll(es, schema)
    {
      Rest(b.mustNot, i);
      var e := BuildExpr(b.mustNot[i], schema, readers);
      if e.Err? { return Err(e.error); }
      if !e.value.Nil? {
        var n := NegatedExpr(e.value, schema);
        Append(es, e.value, LowerAll(b.mustNot[i + 1..], schema, readers));
        assert NegatedAll(es + [e.value], schema) == NegatedAll(es, schema) + [n];
        es := es + [e.value];
        children := children + [n];
      }
    }
    Finish(es);
    return Ok(children);
  }

  lemma LowerAllAppend(ps: seq<Query>, qs: seq<Query>, schema: Catalog, readers: Readers)
    ensures LowerAll(ps + qs, schema, readers) ==
      var head := LowerAll(ps, schema, readers);
      if head.Err? then Err(head.error) else Prefixed(head.value, LowerAll(qs, schema, readers))
  {
    if ps == [] {
      assert ps + qs == qs;
      Start(qs, LowerAll(qs, schema, readers));
    } else {
      LowerAllAppend(ps[1..], qs, schema, readers);
      var head, tail, rest := Lower(ps[0], schema, readers), LowerAll(ps[1..], schema, readers),
        LowerAll(qs, schema, readers);
      if head.Ok? && tail.Ok? && rest.Ok? {
        assert [head.value] + (tail.value + rest.value) == [head.value] + tail.value + rest.value;
      }
      assert (ps + qs)[0] == ps[0] && (ps + qs)[1..] == ps[1..] + qs;
    }
  }

  method NegatedExpr(e: Expr, schema: Catalog) returns (r: Expr)
    ensures r == Negated(e, schema)
    decreases e
  {
    match e
    case NotNull(f) => return IsNull(f);
    case IsNull(f) => return NotNull(f);
    case Not(c) => return c;
    case And(cs) =>
      if |cs| == 0 { return Never; }
      var kids := NegatedExprs(cs, e, schema);
      return Or(kids);
    case Or(cs) =>
      if |cs| == 0 { return Never; }
      var kids := NegatedExprs(cs, e, schema);
      return And(kids);
    case _ =>
      var f := FieldOf(e);
      if f != "" && schema.Nullable(f) {
        return Or([IsNull(f), Not(e)]);
      }
      return Not(e);
  }

  method NegatedExprs(cs: seq<Expr>, ghost e: Expr, schema: Catalog) returns (kids: seq<Expr>)
    requires forall c :: c in cs ==> c < e
    ensures kids == NegatedAll(cs, schema)
    decreases e, 0
  {
    kids := [];
    for i := 0 to |cs|
      invariant |kids| == i && forall j :: 0 <= j < i ==> kids[j] == Negated(cs[j], schema)
    {
      assert cs[i] in cs;
      var k := NegatedExpr(cs[i], schema);
      kids := kids + [k];
    }
  }
}
