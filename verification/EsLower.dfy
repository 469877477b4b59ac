/** buildExpr and negated (internal/translate/es/expr.go): a folded query tree becomes a Milvus
    expression that is true, in Kleene's logic, exactly on the rows Elasticsearch matches. */
module EsLower {
  import opened Wrappers
  import opened Milvus
  import opened Schema
  import opened EsQuery
  import opened EsFold

  // ----- negated -----

  predicate IsLeaf(e: Expr) {
    e.Compare? || e.InList? || e.TextMatch?
  }

  // The one field a comparison leaf references, "" for nodes without a field.
  function FieldOf(e: Expr): string {
    if IsLeaf(e) then e.field else ""
  }

  function Negated(e: Expr, schema: Catalog): Expr
    decreases e, 1
  {
    match e
    case NotNull(f) => IsNull(f)
    case IsNull(f) => NotNull(f)
    case Not(c) => c
    case And(cs) => if cs == [] then Never else Or(NegatedAll(cs, schema))
    case Or(cs) => if cs == [] then Never else And(NegatedAll(cs, schema))
    case _ =>
      var f := FieldOf(e);
      if f != "" && schema.Nullable(f) then Or([IsNull(f), Not(e)]) else Not(e)
  }

  function NegatedAll(es: seq<Expr>, schema: Catalog): (r: seq<Expr>)
    ensures |r| == |es| && forall i :: 0 <= i < |es| ==> r[i] == Negated(es[i], schema)
    decreases es, 0
  {
    if es == [] then [] else [Negated(es[0], schema)] + NegatedAll(es[1..], schema)
  }

  // `field is null or not leaf`, the complement of a comparison that a null makes unknown.
  ghost predicate Rescue(e: Expr, schema: Catalog) {
    && e.Or? && |e.children| == 2
    && e.children[0].IsNull? && e.children[1].Not? && IsLeaf(e.children[1].child)
    && FieldOf(e.children[1].child) == e.children[0].field
    && schema.Nullable(e.children[0].field)
  }

  /** The expressions lowering and complementing produce. A bare `not` only sits over what cannot be
      unknown; over a nullable comparison it only occurs inside its null check. */
  ghost predicate Guarded(e: Expr, schema: Catalog) {
    match e
    case Nil => false
    case Never => true
    case NotNull(_) => true
    case IsNull(_) => true
    case Compare(_, _, _) => true
    case InList(_, _) => true
    case TextMatch(_, _) => true
    case Not(c) => c.Never? || (IsLeaf(c) && !schema.Nullable(c.field))
    case And(cs) => forall c :: c in cs ==> Guarded(c, schema)
    case Or(cs) => Rescue(e, schema) || forall c :: c in cs ==> Guarded(c, schema)
  }

  /** What must_not needs: on every row the schema describes, the complement is true exactly when the
      expression is not, be it false or unknown. */
  lemma {:induction false} NegatedComplements(e: Expr, schema: Catalog, row: Row, server: Server)
    requires Guarded(e, schema) && schema.Describes(row)
    ensures Passes(Negated(e, schema), row, server) <==> !Passes(e, row, server)
    decreases e
  {
    if IsLeaf(e) {
      if schema.Nullable(e.field) {
        RescuePasses(e, row, server);
      } else {
        NotPasses(e, row, server);
      }
    } else if e.Never? {
      NotPasses(e, row, server);
    } else if e.Not? {
      NotPasses(e.child, row, server);
    } else if e.And? {
      NegatedAllComplement(e.children, schema, row, server);
      AndPasses(e.children, row, server);
      OrPasses(NegatedAll(e.children, schema), row, server);
    } else if e.Or? {
      OrPasses(e.children, row, server);
      AndPasses(NegatedAll(e.children, schema), row, server);
      if Rescue(e, schema) {
        var field, leaf := e.children[0].field, e.children[1].child;
        assert NegatedAll(e.children, schema) == [NotNull(field), leaf];
        assert e.children == [IsNull(field), Not(leaf)];
        RescuePasses(leaf, row, server);
        AndOfTwo(NotNull(field), leaf, row, server);
      } else {
        NegatedAllComplement(e.children, schema, row, server);
      }
    }
  }

  lemma NotPasses(c: Expr, row: Row, server: Server)
    requires IsLeaf(c) ==> row(c.field).Some?
    requires IsLeaf(c) || c.Never?
    ensures Passes(Not(c), row, server) <==> !Passes(c, row, server)
  {
  }

  lemma {:induction false} NegatedAllComplement(cs: seq<Expr>, schema: Catalog, row: Row, server: Server)
    requires forall c :: c in cs ==> Guarded(c, schema)
    requires schema.Describes(row)
    ensures (exists d :: d in NegatedAll(cs, schema) && Passes(d, row, server))
      <==> (exists c :: c in cs && !Passes(c, row, server))
    ensures (forall d :: d in NegatedAll(cs, schema) ==> Passes(d, row, server))
      <==> (forall c :: c in cs ==> !Passes(c, row, server))
    decreases cs
  {
    forall c | c in cs ensures Passes(Negated(c, schema), row, server) <==> !Passes(c, row, server) {
      NegatedComplements(c, schema, row, server);
    }
    forall i | 0 <= i < |cs| ensures cs[i] in cs && NegatedAll(cs, schema)[i] in NegatedAll(cs, schema) {}
  }

  lemma RescuePasses(leaf: Expr, row: Row, server: Server)
    requires IsLeaf(leaf)
    ensures Passes(Or([IsNull(leaf.field), Not(leaf)]), row, server) <==> !Passes(leaf, row, server)
  {
    OrPasses([IsNull(leaf.field), Not(leaf)], row, server);
    assert IsNull(leaf.field) in [IsNull(leaf.field), Not(leaf)] && Not(leaf) in [IsNull(leaf.field), Not(leaf)];
  }

  /** The guarded expressions are closed under complement, at any depth of nested must_not. */
  lemma {:induction false} NegatedGuarded(e: Expr, schema: Catalog)
    requires Guarded(e, schema) && "" !in schema.nulls
    ensures Guarded(Negated(e, schema), schema)
    decreases e
  {
    match e {
      case And(cs) =>
        forall c | c in cs ensures Guarded(Negated(c, schema), schema) {
          NegatedGuarded(c, schema);
        }
      case Or(cs) =>
        if Rescue(e, schema) {
          assert NegatedAll(cs, schema) == [NotNull(cs[0].field), cs[1].child];
        } else {
          forall c | c in cs ensures Guarded(Negated(c, schema), schema) {
            NegatedGuarded(c, schema);
          }
        }
      case _ =>
    }
  }

  // ----- buildExpr -----

  function CoerceAll(field: string, vs: seq<Scalar>, schema: Catalog, readers: Readers): (r: Result<seq<Value>>)
    ensures r.Ok? ==> |r.value| == |vs|
    ensures r.Ok? ==> forall i :: 0 <= i < |vs| ==> Coerce(field, vs[i], schema, readers) == Ok(r.value[i])
  {
    if vs == [] then Ok([])
    else
      var head :- Coerce(field, vs[0], schema, readers);
      var tail :- CoerceAll(field, vs[1..], schema, readers);
      Ok([head] + tail)
  }

  function LowerBounds(field: string, bs: seq<Bound>, schema: Catalog, readers: Readers): (r: Result<seq<Expr>>)
    ensures r.Ok? ==> |r.value| == |bs|
    ensures r.Ok? ==> forall i :: 0 <= i < |bs| ==>
      && Coerce(field, bs[i].value, schema, readers).Ok?
      && r.value[i] == Compare(bs[i].op, field, Coerce(field, bs[i].value, schema, readers).value)
  {
    if bs == [] then Ok([])
    else
      var head :- Coerce(field, bs[0].value, schema, readers);
      var tail :- LowerBounds(field, bs[1..], schema, readers);
      Ok([Compare(bs[0].op, field, head)] + tail)
  }

  function LowerMatch(q: Query, schema: Catalog, readers: Readers): Result<Expr>
    requires q.Match?
  {
    if ComparesExactly(schema.TypeOf(q.field)) then
      var v :- Coerce(q.field, q.value, schema, readers);
      Ok(Compare(EQ, q.field, v))
    else
      var tokens := Tokenize(ScalarText(q.value));
      if tokens == [] then Ok(Never)
      else if q.operator == "and" then Ok(And(EachToken(q.field, tokens)))
      else Ok(TextMatch(q.field, Join(tokens)))
  }

  function EachToken(field: string, tokens: seq<string>): (es: seq<Expr>)
    ensures |es| == |tokens| && forall i :: 0 <= i < |tokens| ==> es[i] == TextMatch(field, tokens[i])
  {
    seq(|tokens|, i requires 0 <= i < |tokens| => TextMatch(field, tokens[i]))
  }

  function Join(words: seq<string>): string {
    if words == [] then "" else if |words| == 1 then words[0] else words[0] + " " + Join(words[1..])
  }

  /** buildExpr: what each clause lowers to. */
  function Lower(q: Query, schema: Catalog, readers: Readers): Result<Expr>
    decreases q, 1
  {
    match q
    case MatchAll => Ok(Nil)
    case MatchNone => Ok(Never)
    case Bool(must, filter, should, mustNot, _) =>
      var must :- LowerAll(must, schema, readers);
      var filter :- LowerAll(filter, schema, readers);
      var should :- LowerAll(should, schema, readers);
      var mustNot :- LowerAll(mustNot, schema, readers);
      Ok(Conjunction(Grouped(must + filter, true) + Grouped(should, false) + NegatedAll(mustNot, schema)))
    case Term(f, v) =>
      var v :- Coerce(f, v, schema, readers);
      Ok(Compare(EQ, f, v))
    case Terms(f, vs) =>
      var vs :- CoerceAll(f, vs, schema, readers);
      Ok(InList(f, vs))
    case Match(_, _, _) => LowerMatch(q, schema, readers)
    case Range(f, bounds) =>
      var children :- LowerBounds(f, bounds, schema, readers);
      Ok(if |children| == 1 then children[0] else And(children))
    case Exists(f) => Ok(NotNull(f))
  }

  // The clauses that do not match everything.
  function LowerAll(qs: seq<Query>, schema: Catalog, readers: Readers): Result<seq<Expr>>
    decreases qs, 0
  {
    if qs == [] then Ok([])
    else
      var head :- Lower(qs[0], schema, readers);
      var tail :- LowerAll(qs[1..], schema, readers);
      Ok(if head.Nil? then tail else [head] + tail)
  }

  // One clause group as at most one expression.
  function Grouped(es: seq<Expr>, all: bool): seq<Expr> {
    if |es| <= 1 then es else [if all then And(es) else Or(es)]
  }

  function Conjunction(es: seq<Expr>): Expr {
    if |es| == 0 then Nil else if |es| == 1 then es[0] else And(es)
  }
}
