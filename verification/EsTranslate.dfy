/** Translate (internal/translate/es/request.go) from the query as written to the plan the store
    executes, with parseBool's pinning of minimum_should_match. */
module EsTranslate {
  import opened Wrappers
  import opened Schema
  import opened EsQuery
  import opened EsFold
  import opened EsLower
  import opened EsExact

  // A query as written: minimum_should_match may be absent.
  datatype Written =
    | Clause(query: Query)
    | WrittenBool(must: seq<Written>, filter: seq<Written>, should: seq<Written>, mustNot: seq<Written>,
                  minShould: Option<nat>)

  ghost predicate WellWritten(q: Written) {
    match q
    case Clause(c) => !c.Bool? && Parsed(c)
    case WrittenBool(must, filter, should, mustNot, _) =>
      forall c :: c in must || c in filter || c in should || c in mustNot ==> WellWritten(c)
  }

  /** Elasticsearch's own rule. Without must and filter the candidates are drawn from the should
      clauses, so one of them has to match whatever minimum_should_match says; a must holding only
      match_all already makes them optional. */
  ghost predicate WrittenMatches(q: Written, w: World) {
    match q
    case Clause(c) => Matches(c, w)
    case WrittenBool(must, filter, should, mustNot, minShould) =>
      && (forall c :: c in must ==> WrittenMatches(c, w))
      && (forall c :: c in filter ==> WrittenMatches(c, w))
      && (forall c :: c in mustNot ==> !WrittenMatches(c, w))
      && (should != [] && must == [] && filter == [] ==> exists c :: c in should && WrittenMatches(c, w))
      && (should != [] && minShould.Some? ==> CountWritten(should, w) >= minShould.value)
  }

  ghost function CountWritten(qs: seq<Written>, w: World): nat {
    if qs == [] then 0 else (if WrittenMatches(qs[0], w) then 1 else 0) + CountWritten(qs[1..], w)
  }

  // parseBool
  function Parse(q: Written): Query
    decreases q, 1
  {
    match q
    case Clause(c) => c
    case WrittenBool(must, filter, should, mustNot, minShould) =>
      var n := if minShould.Some? then minShould.value else 0;
      var pinned := if |should| > 0 && |must| == 0 && |filter| == 0 && n < 1 then 1 else n;
      Bool(ParseAll(must), ParseAll(filter), ParseAll(should), ParseAll(mustNot), pinned)
  }

  function ParseAll(qs: seq<Written>): (r: seq<Query>)
    ensures |r| == |qs| && forall i :: 0 <= i < |qs| ==> r[i] == Parse(qs[i])
    decreases qs, 0
  {
    if qs == [] then [] else [Parse(qs[0])] + ParseAll(qs[1..])
  }

  function Translate(q: Query, schema: Catalog, readers: Readers): Result<Plan> {
    var folded :- Fold(q);
    Planned(folded, schema, readers)
  }

  function Planned(root: Query, schema: Catalog, readers: Readers): Result<Plan> {
    if root.MatchNone? then Ok(NoMatch)
    else
      var e :- Lower(root, schema, readers);
      Ok(Filter(e))
  }

  // ----- the pinned value says what the rule says -----

  lemma {:induction false} ParseMeaning(q: Written, w: World)
    ensures Matches(Parse(q), w) <==> WrittenMatches(q, w)
    decreases q, 1
  {
    hide CountMatches, CountWritten, AllMatch;
    if q.WrittenBool? {
      ParseAllMeaning(q.must, w);
      ParseAllMeaning(q.filter, w);
      ParseAllMeaning(q.should, w);
      ParseAllMeaning(q.mustNot, w);
      var r := Parse(q);
      BoolMeaning(r.must, r.filter, r.should, r.mustNot, r.minShould, w);
      CountBounds(r.should, w);
    }
  }

  lemma {:induction false} ParseAllMeaning(qs: seq<Written>, w: World)
    ensures AllMatch(ParseAll(qs), w) <==> forall c :: c in qs ==> WrittenMatches(c, w)
    ensures AnyMatches(ParseAll(qs), w) <==> exists c :: c in qs && WrittenMatches(c, w)
    ensures CountMatches(ParseAll(qs), w) == CountWritten(qs, w)
    decreases qs, 0
  {
    if qs != [] {
      ParseMeaning(qs[0], w);
      ParseAllMeaning(qs[1..], w);
      assert ParseAll(qs)[1..] == ParseAll(qs[1..]);
      assert forall c :: c in qs <==> c == qs[0] || c in qs[1..];
      assert forall c :: c in ParseAll(qs) <==> c == Parse(qs[0]) || c in ParseAll(qs[1..]);
    }
  }

  lemma {:induction false} ParseParsed(q: Written)
    requires WellWritten(q)
    ensures Parsed(Parse(q))
    decreases q, 1
  {
    if q.WrittenBool? {
      forall c | c in q.must || c in q.filter || c in q.should || c in q.mustNot ensures Parsed(Parse(c)) {
        ParseParsed(c);
      }
    }
  }

  /** The whole query path: the plan returns exactly the rows Elasticsearch would. */
  lemma {:induction false} QueryAnswers(q: Written, w: World)
    requires WellWritten(q) && w.schema.Describes(w.row)
    requires Translate(Parse(q), w.schema, w.readers).Ok?
    ensures Answers(Translate(Parse(q), w.schema, w.readers).value, w.row, w.server) <==> WrittenMatches(q, w)
  {
    ParseMeaning(q, w);
    ParseParsed(q);
    var folded := Fold(Parse(q)).value;
    if folded.MatchNone? {
      FoldPreserves(Parse(q), w);
    } else {
      TranslateExact(Parse(q), w);
    }
  }
}
