/** Which queries are planned and which are refused (internal/translate/es/query.go, expr.go, request.go). */
module EsAccept {
  import opened Wrappers
  import opened Schema
  import opened EsQuery
  import opened EsFold
  import opened EsLower
  import opened EsTranslate
  import Milvus
  import Emitted
  import FiniteNumbers

  // ----- folding -----

  // k-of-n over clauses that are already folded: not decided by a constant, and more than one has to match.
  predicate CountsMatches(must: seq<Query>, filter: seq<Query>, should: seq<Query>, mustNot: seq<Query>,
                          minShould: nat)
  {
    && MatchNone !in must && MatchNone !in filter && MatchAll !in mustNot
    && 1 < minShould <= |should| - Times(should, MatchNone)
  }

  lemma {:induction false} WithoutLength(qs: seq<Query>, q: Query)
    ensures |Without(qs, q)| == |qs| - Times(qs, q)
  {
    if qs != [] {
      WithoutLength(qs[1..], q);
    }
  }

  lemma {:induction false} SimplifyRefuses(must: seq<Query>, filter: seq<Query>, should: seq<Query>,
    mustNot: seq<Query>, minShould: nat)
    ensures Simplify(must, filter, should, mustNot, minShould).Err?
       <==> CountsMatches(must, filter, should, mustNot, minShould)
    ensures Simplify(must, filter, should, mustNot, minShould).Err? ==>
      Simplify(must, filter, should, mustNot, minShould).error.Unsupported?
  {
    WithoutLength(should, MatchNone);
  }

  /** A bool is refused exactly when one of its clauses is, or its folded clauses ask for a k-of-n match. */
  lemma {:induction false} FoldRefuses(b: Query)
    requires b.Bool?
    ensures Fold(b).Err?
       <==> || FoldAll(b.must).Err? || FoldAll(b.filter).Err? || FoldAll(b.should).Err? || FoldAll(b.mustNot).Err?
            || CountsMatches(FoldAll(b.must).value, FoldAll(b.filter).value, FoldAll(b.should).value,
                             FoldAll(b.mustNot).value, b.minShould)
  {
    hide Simplify, CountsMatches;
    if FoldAll(b.must).Ok? && FoldAll(b.filter).Ok? && FoldAll(b.should).Ok? && FoldAll(b.mustNot).Ok? {
      SimplifyRefuses(FoldAll(b.must).value, FoldAll(b.filter).value, FoldAll(b.should).value, FoldAll(b.mustNot).value,
        b.minShould);
    }
  }

  /** A list of clauses is refused exactly when one of them is. */
  lemma {:induction false} FoldAllRefuses(qs: seq<Query>)
    ensures FoldAll(qs).Err? <==> exists c :: c in qs && Fold(c).Err?
    decreases |qs|
  {
    hide Fold;
    if qs != [] {
      FoldAllRefuses(qs[1..]);
      assert forall c :: c in qs <==> c == qs[0] || c in qs[1..];
      assert FoldAll(qs).Err? <==> Fold(qs[0]).Err? || FoldAll(qs[1..]).Err?;
      if FoldAll(qs[1..]).Err? {
        var c :| c in qs[1..] && Fold(c).Err?;
        assert c in qs;
      }
    }
  }

  // A bool, at any depth, that asks for more than one of its should clauses and has that many.
  ghost predicate CountsAnywhere(q: Query) {
    match q
    case Bool(must, filter, should, mustNot, minShould) =>
      || 1 < minShould <= |should|
      || exists c :: (c in must || c in filter || c in should || c in mustNot) && CountsAnywhere(c)
    case _ => false
  }

  /** Folding refuses nothing but that, and says so as a missing capability. */
  lemma {:induction false} RefusedCounts(q: Query)
    requires Fold(q).Err?
    ensures Fold(q).error.Unsupported? && CountsAnywhere(q)
    decreases q, 1
  {
    if q.Bool? {
      hide Simplify, CountsMatches;
      FoldRefuses(q);
      if FoldAll(q.must).Err? {
        RefusedAllCounts(q.must);
      } else if FoldAll(q.filter).Err? {
        RefusedAllCounts(q.filter);
      } else if FoldAll(q.should).Err? {
        RefusedAllCounts(q.should);
      } else if FoldAll(q.mustNot).Err? {
        RefusedAllCounts(q.mustNot);
      } else {
        SimplifyRefuses(FoldAll(q.must).value, FoldAll(q.filter).value, FoldAll(q.should).value,
          FoldAll(q.mustNot).value, q.minShould);
        FewAsked(FoldAll(q.must).value, FoldAll(q.filter).value, FoldAll(q.should).value, FoldAll(q.mustNot).value,
          q.minShould);
      }
    }
  }

  lemma {:induction false} FewAsked(must: seq<Query>, filter: seq<Query>, should: seq<Query>, mustNot: seq<Query>,
    minShould: nat)
    ensures CountsMatches(must, filter, should, mustNot, minShould) ==> 1 < minShould <= |should|
  {
  }

  lemma {:induction false} RefusedAllCounts(qs: seq<Query>)
    requires FoldAll(qs).Err?
    ensures FoldAll(qs).error.Unsupported? && exists c :: c in qs && CountsAnywhere(c)
    decreases qs, 0
  {
    hide Fold, CountsAnywhere;
    if Fold(qs[0]).Err? {
      RefusedCounts(qs[0]);
    } else {
      RefusedAllCounts(qs[1..]);
    }
  }

  lemma {:induction false} NormalFolds(qs: seq<Query>)
    requires forall c :: c in qs ==> Normal(c)
    ensures FoldAll(qs) == Ok(qs)
  {
    hide Fold, Normal;
    if qs != [] {
      assert qs[0] in qs && [qs[0]] + qs[1..] == qs;
      NormalIsFixed(qs[0]);
      NormalFolds(qs[1..]);
    }
  }

  /** A bool over clauses that are already folded is refused exactly when it asks for a k-of-n match. */
  lemma {:induction false} NormalClausesRefused(b: Query)
    requires b.Bool? && forall c :: c in b.must || c in b.filter || c in b.should || c in b.mustNot ==> Normal(c)
    ensures Fold(b).Err? <==> CountsMatches(b.must, b.filter, b.should, b.mustNot, b.minShould)
  {
    hide CountsMatches, Normal, Fold;
    NormalFolds(b.must);
    NormalFolds(b.filter);
    NormalFolds(b.should);
    NormalFolds(b.mustNot);
    FoldRefuses(b);
  }

  // ----- lowering -----

  // A scalar the type has a reading of.
  ghost predicate Stands(t: FieldType, v: Scalar, readers: Readers) {
    exists l :: Denotes(t, v, l, readers)
  }

  lemma {:induction false} CoerceStands(field: string, v: Scalar, schema: Catalog, readers: Readers)
    ensures Coerce(field, v, schema, readers).Ok? <==> Stands(schema.TypeOf(field), v, readers)
  {
    hide Denotes, Coerce, Milvus.ReadBack;
    var coerced := Coerce(field, v, schema, readers);
    CoerceDenotes(field, v, schema, readers);
    assert coerced.Ok? ==> Denotes(schema.TypeOf(field), v, Milvus.ReadBack(coerced.value), readers);
  }

  /** Every scalar a field is compared with has a reading in the field's type. */
  ghost predicate Encodable(q: Query, schema: Catalog, readers: Readers) {
    match q
    case Bool(must, filter, should, mustNot, _) =>
      forall c :: c in must || c in filter || c in should || c in mustNot ==> Encodable(c, schema, readers)
    case Term(f, v) => Stands(schema.TypeOf(f), v, readers)
    case Terms(f, vs) => forall v :: v in vs ==> Stands(schema.TypeOf(f), v, readers)
    case Match(f, v, _) => schema.TypeOf(f) in {Keyword, Number, Boolean} ==> Stands(schema.TypeOf(f), v, readers)
    case Range(f, bounds) => forall b :: b in bounds ==> Stands(schema.TypeOf(f), b.value, readers)
    case _ => true
  }

  /** Lowering refuses nothing else. */
  lemma {:induction false} LowerAccepts(q: Query, schema: Catalog, readers: Readers)
    ensures Lower(q, schema, readers).Ok? <==> Encodable(q, schema, readers)
    decreases q, 1
  {
    hide Coerce, Stands;
    match q {
      case Bool(must, filter, should, mustNot, _) =>
        LowerAllAccepts(must, schema, readers);
        LowerAllAccepts(filter, schema, readers);
        LowerAllAccepts(should, schema, readers);
        LowerAllAccepts(mustNot, schema, readers);
      case Term(f, v) => CoerceStands(f, v, schema, readers);
      case Terms(f, vs) => CoerceAllStand(f, vs, schema, readers);
      case Match(f, v, _) => CoerceStands(f, v, schema, readers);
      case Range(f, bounds) => BoundsStand(f, bounds, schema, readers);
      case _ =>
    }
  }

  lemma {:induction false} LowerAllAccepts(qs: seq<Query>, schema: Catalog, readers: Readers)
    ensures LowerAll(qs, schema, readers).Ok? <==> forall c :: c in qs ==> Encodable(c, schema, readers)
    decreases qs, 0
  {
    hide Encodable, Lower;
    if qs != [] {
      LowerAccepts(qs[0], schema, readers);
      LowerAllAccepts(qs[1..], schema, readers);
      assert forall c :: c in qs <==> c == qs[0] || c in qs[1..];
    }
  }

  lemma {:induction false} CoerceAllStand(f: string, vs: seq<Scalar>, schema: Catalog, readers: Readers)
    ensures CoerceAll(f, vs, schema, readers).Ok? <==> forall v :: v in vs ==> Stands(schema.TypeOf(f), v, readers)
  {
    hide Coerce, Stands;
    if vs != [] {
      CoerceStands(f, vs[0], schema, readers);
      CoerceAllStand(f, vs[1..], schema, readers);
      assert forall v :: v in vs <==> v == vs[0] || v in vs[1..];
    }
  }

  lemma {:induction false} BoundsStand(f: string, bs: seq<Bound>, schema: Catalog, readers: Readers)
    ensures LowerBounds(f, bs, schema, readers).Ok?
      <==> forall b :: b in bs ==> Stands(schema.TypeOf(f), b.value, readers)
  {
    hide Coerce, Stands;
    if bs != [] {
      CoerceStands(f, bs[0].value, schema, readers);
      BoundsStand(f, bs[1..], schema, readers);
      assert forall b :: b in bs <==> b == bs[0] || b in bs[1..];
    }
  }

  // ----- the whole query -----

  /** A query is planned exactly when folding does not refuse it and, unless it folds to no match at all, the
      scalars that are left have readings. */
  lemma {:induction false} TranslateAccepts(q: Query, schema: Catalog, readers: Readers)
    ensures Translate(q, schema, readers).Ok?
       <==> Fold(q).Ok? && (Fold(q).value.MatchNone? || Encodable(Fold(q).value, schema, readers))
  {
    hide Lower, Encodable, Fold;
    if Fold(q).Ok? {
      LowerAccepts(Fold(q).value, schema, readers);
    }
  }

  /** Folding leaves no scalar that was not there. */
  lemma {:induction false} FoldEncodable(q: Query, schema: Catalog, readers: Readers)
    requires Encodable(q, schema, readers) && Fold(q).Ok?
    ensures Encodable(Fold(q).value, schema, readers)
    decreases q, 1
  {
    hide Stands;
    if q.Bool? {
      FoldAllEncodable(q.must, schema, readers);
      FoldAllEncodable(q.filter, schema, readers);
      FoldAllEncodable(q.should, schema, readers);
      FoldAllEncodable(q.mustNot, schema, readers);
    }
  }

  lemma {:induction false} FoldAllEncodable(qs: seq<Query>, schema: Catalog, readers: Readers)
    requires FoldAll(qs).Ok? && forall c :: c in qs ==> Encodable(c, schema, readers)
    ensures forall c :: c in FoldAll(qs).value ==> Encodable(c, schema, readers)
    decreases qs, 0
  {
    hide Encodable, Fold;
    if qs != [] {
      FoldEncodable(qs[0], schema, readers);
      FoldAllEncodable(qs[1..], schema, readers);
    }
  }

  /** From the query as written, with nothing assumed of the compiler: a query without k-of-n matches whose
      scalars have finite readings is planned, the server can read the text it is sent, and selects exactly
      the rows Elasticsearch matches. */
  lemma {:induction false} WrittenQueryAnswered(q: Written, w: World)
    requires WellWritten(q) && Emitted.Named(Parse(q)) && FiniteNumbers.Spellings(w.readers)
    requires w.schema.Describes(w.row)
    requires !CountsAnywhere(Parse(q)) && Encodable(Parse(q), w.schema, w.readers)
    requires FiniteNumbers.FiniteQuery(Parse(q), w.schema, w.readers)
    ensures var plan := Translate(Parse(q), w.schema, w.readers);
      plan.Ok? && Emitted.Understood(plan.value)
      && (Emitted.TextSelects(plan.value, w.row, w.server) <==> WrittenMatches(q, w))
  {
    hide Encodable, Fold, CountsAnywhere, Translate, Emitted.TextSelects, Emitted.Understood, WrittenMatches,
      FiniteNumbers.FiniteQuery, Parse, WellWritten, Emitted.Named;
    var parsed := Parse(q);
    if Fold(parsed).Err? {
      RefusedCounts(parsed);
    } else {
      FoldEncodable(parsed, w.schema, w.readers);
    }
    TranslateAccepts(parsed, w.schema, w.readers);
    Emitted.QueryTextAnswers(q, w);
  }
}
