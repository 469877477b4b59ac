/** fold (internal/translate/es/query.go): boolean identities are removed bottom-up. It keeps the
    matched rows, reaches a normal form and is idempotent. */
module EsFold {
  import opened Wrappers
  import opened Schema
  import opened EsQuery

  function Without(qs: seq<Query>, drop: Query): (r: seq<Query>)
    ensures forall c :: c in r <==> c in qs && c != drop
    ensures |r| <= |qs|
    ensures drop !in qs ==> r == qs
  {
    if qs == [] then []
    else if qs[0] == drop then Without(qs[1..], drop)
    else [qs[0]] + Without(qs[1..], drop)
  }

  // How often a clause occurs in a list.
  function Times(qs: seq<Query>, q: Query): nat {
    if qs == [] then 0 else (if qs[0] == q then 1 else 0) + Times(qs[1..], q)
  }

  function Fold(q: Query): Result<Query>
    decreases q, 1
  {
    match q
    case Bool(must, filter, should, mustNot, minShould) =>
      var must :- FoldAll(must);
      var filter :- FoldAll(filter);
      var should :- FoldAll(should);
      var mustNot :- FoldAll(mustNot);
      Simplify(must, filter, should, mustNot, minShould)
    case _ => Ok(q)
  }

  function FoldAll(qs: seq<Query>): (r: Result<seq<Query>>)
    ensures r.Ok? ==> |r.value| == |qs|
    decreases qs, 0
  {
    if qs == [] then Ok([])
    else
      var head :- Fold(qs[0]);
      var tail :- FoldAll(qs[1..]);
      Ok([head] + tail)
  }

  // What happens to a bool once its clauses are folded.
  function Simplify(must: seq<Query>, filter: seq<Query>, should: seq<Query>, mustNot: seq<Query>, minShould: nat)
    : Result<Query>
  {
    if MatchNone in must || MatchNone in filter || MatchAll in mustNot then Ok(MatchNone)
    else
      var must := Without(must, MatchAll);
      var filter := Without(filter, MatchAll);
      var mustNot := Without(mustNot, MatchNone);
      match KeepShould(should, minShould)
      case Kept(should) => Ok(Rebuild(must, filter, should, mustNot, minShould))
      case Impossible => Ok(MatchNone)
      case TooMany => Err(Unsupported)
  }

  // What is left of the should clauses: some of them, a contradiction, or a k-of-n match.
  datatype ShouldVerdict = Kept(clauses: seq<Query>) | Impossible | TooMany

  function KeepShould(should: seq<Query>, minShould: nat): ShouldVerdict {
    if MatchAll in should && minShould == 1 then Kept([]) // one clause matches unconditionally
    else
      var rest := Without(should, MatchNone);
      if |rest| > 0 && minShould == 0 then Kept([]) // optional clauses only score
      else if |rest| > 0 && minShould > |rest| then Impossible
      else if |rest| > 0 && minShould > 1 then TooMany
      else if |rest| == 0 && MatchNone in should && minShould >= 1 then Impossible
      else Kept(rest)
  }

  function Rebuild(must: seq<Query>, filter: seq<Query>, should: seq<Query>, mustNot: seq<Query>, minShould: nat)
    : Query
  {
    if must == [] && filter == [] && should == [] && mustNot == [] then MatchAll
    else Bool(must, filter, should, mustNot, minShould)
  }

  // ----- meaning -----

  // Clause lists that answer alike, position by position.
  ghost predicate SameMatches(qs: seq<Query>, rs: seq<Query>, w: World) {
    |qs| == |rs| && forall i :: 0 <= i < |qs| ==> Matches(qs[i], w) == Matches(rs[i], w)
  }

  lemma SameCount(qs: seq<Query>, rs: seq<Query>, w: World)
    requires SameMatches(qs, rs, w)
    ensures CountMatches(qs, w) == CountMatches(rs, w)
  {
    if qs != [] {
      assert SameMatches(qs[1..], rs[1..], w);
      SameCount(qs[1..], rs[1..], w);
    }
  }

  ghost predicate AllMatch(qs: seq<Query>, w: World) {
    forall c :: c in qs ==> Matches(c, w)
  }

  ghost predicate AnyMatches(qs: seq<Query>, w: World) {
    exists c :: c in qs && Matches(c, w)
  }

  ghost predicate ShouldMet(should: seq<Query>, minShould: nat, w: World) {
    should == [] || CountMatches(should, w) >= minShould
  }

  ghost predicate BoolMatches(must: seq<Query>, filter: seq<Query>, should: seq<Query>, mustNot: seq<Query>,
                              minShould: nat, w: World)
  {
    AllMatch(must, w) && AllMatch(filter, w) && !AnyMatches(mustNot, w) && ShouldMet(should, minShould, w)
  }

  lemma BoolMeaning(must: seq<Query>, filter: seq<Query>, should: seq<Query>, mustNot: seq<Query>,
                    minShould: nat, w: World)
    ensures Matches(Bool(must, filter, should, mustNot, minShould), w)
         == BoolMatches(must, filter, should, mustNot, minShould, w)
  {
  }

  /** Replacing clauses by clauses that answer alike does not change what a bool matches. */
  lemma Congruence(q: Query, r: Query, w: World)
    requires q.Bool? && r.Bool? && q.minShould == r.minShould
    requires SameMatches(q.must, r.must, w) && SameMatches(q.filter, r.filter, w)
    requires SameMatches(q.should, r.should, w) && SameMatches(q.mustNot, r.mustNot, w)
    ensures Matches(q, w) == Matches(r, w)
  {
    SameCount(q.should, r.should, w);
    SameLists(q.must, r.must, w);
    SameLists(q.filter, r.filter, w);
    SameLists(q.mustNot, r.mustNot, w);
    BoolMeaning(q.must, q.filter, q.should, q.mustNot, q.minShould, w);
    BoolMeaning(r.must, r.filter, r.should, r.mustNot, r.minShould, w);
  }

  lemma SameLists(qs: seq<Query>, rs: seq<Query>, w: World)
    requires SameMatches(qs, rs, w)
    ensures AllMatch(qs, w) == AllMatch(rs, w) && AnyMatches(qs, w) == AnyMatches(rs, w)
  {
    forall i | 0 <= i < |qs| ensures qs[i] in qs && rs[i] in rs && Matches(qs[i], w) == Matches(rs[i], w) {}
  }

  lemma WithoutNoneCount(qs: seq<Query>, w: World)
    ensures CountMatches(Without(qs, MatchNone), w) == CountMatches(qs, w)
  {
    if qs != [] {
      WithoutNoneCount(qs[1..], w);
      if qs[0] != MatchNone {
        assert Without(qs, MatchNone)[1..] == Without(qs[1..], MatchNone);
      }
    }
  }

  // Dropping an identity of a clause group keeps the group's verdict; its zero decides it.
  lemma DropIdentities(qs: seq<Query>, w: World)
    ensures AllMatch(Without(qs, MatchAll), w) == AllMatch(qs, w)
    ensures AnyMatches(Without(qs, MatchNone), w) == AnyMatches(qs, w)
    ensures MatchNone in qs ==> !AllMatch(qs, w)
    ensures MatchAll in qs ==> AnyMatches(qs, w)
  {
    if AnyMatches(qs, w) {
      var c :| c in qs && Matches(c, w);
      assert c in Without(qs, MatchNone);
    }
  }

  lemma DropShould(should: seq<Query>, minShould: nat, w: World)
    ensures MatchAll in should && minShould == 1 ==> ShouldMet(should, minShould, w)
    ensures minShould == 0 ==> ShouldMet(should, minShould, w)
    ensures var rest := Without(should, MatchNone);
            && (rest != [] || MatchNone !in should ==> ShouldMet(rest, minShould, w) == ShouldMet(should, minShould, w))
            && (rest != [] && minShould > |rest| ==> !ShouldMet(should, minShould, w))
            && (rest == [] && MatchNone in should && minShould >= 1 ==> !ShouldMet(should, minShould, w))
  {
    CountBounds(should, w);
    WithoutNoneCount(should, w);
    CountBounds(Without(should, MatchNone), w);
    DropIdentities(should, w);
  }

  lemma RebuildMeaning(must: seq<Query>, filter: seq<Query>, should: seq<Query>, mustNot: seq<Query>,
                       minShould: nat, w: World)
    ensures Matches(Rebuild(must, filter, should, mustNot, minShould), w)
         == BoolMatches(must, filter, should, mustNot, minShould, w)
  {
    BoolMeaning(must, filter, should, mustNot, minShould, w);
  }

  lemma SimplifyPreserves(must: seq<Query>, filter: seq<Query>, should: seq<Query>, mustNot: seq<Query>,
                          minShould: nat, w: World)
    requires Simplify(must, filter, should, mustNot, minShould).Ok?
    ensures Matches(Simplify(must, filter, should, mustNot, minShould).value, w)
         == BoolMatches(must, filter, should, mustNot, minShould, w)
  {
    hide AllMatch, AnyMatches, CountMatches, Rebuild;
    DropIdentities(must, w);
    DropIdentities(filter, w);
    DropIdentities(mustNot, w);
    DropShould(should, minShould, w);
    var m, f, n := Without(must, MatchAll), Without(filter, MatchAll), Without(mustNot, MatchNone);
    RebuildMeaning(m, f, [], n, minShould, w);
    RebuildMeaning(m, f, Without(should, MatchNone), n, minShould, w);
  }

  /** Folding keeps the set of matched rows. */
  lemma {:induction false} FoldPreserves(q: Query, w: World)
    requires Fold(q).Ok?
    ensures Matches(Fold(q).value, w) == Matches(q, w)
    decreases q, 1
  {
    if q.Bool? {
      FoldAllPreserves(q.must, w);
      FoldAllPreserves(q.filter, w);
      FoldAllPreserves(q.should, w);
      FoldAllPreserves(q.mustNot, w);
      var must, filter := FoldAll(q.must).value, FoldAll(q.filter).value;
      var should, mustNot := FoldAll(q.should).value, FoldAll(q.mustNot).value;
      SimplifyPreserves(must, filter, should, mustNot, q.minShould, w);
      BoolMeaning(must, filter, should, mustNot, q.minShould, w);
      Congruence(q, Bool(must, filter, should, mustNot, q.minShould), w);
    }
  }

  lemma {:induction false} FoldAllPreserves(qs: seq<Query>, w: World)
    requires FoldAll(qs).Ok?
    ensures SameMatches(qs, FoldAll(qs).value, w)
    decreases qs, 0
  {
    if qs != [] {
      FoldPreserves(qs[0], w);
      FoldAllPreserves(qs[1..], w);
    }
  }

  // ----- normal form -----

  predicate Constant(q: Query) {
    q.MatchAll? || q.MatchNone?
  }

  /** No constant below the root, a surviving should needs exactly one match, no empty bool. */
  ghost predicate Normal(q: Query) {
    match q
    case Bool(must, filter, should, mustNot, minShould) =>
      && (forall c :: c in must || c in filter || c in should || c in mustNot ==> !Constant(c) && Normal(c))
      && (should != [] ==> minShould == 1)
      && must + filter + should + mustNot != []
    case _ => true
  }

  lemma {:induction false} FoldNormal(q: Query)
    requires Fold(q).Ok?
    ensures Normal(Fold(q).value)
    decreases q, 1
  {
    if q.Bool? {
      FoldAllNormal(q.must);
      FoldAllNormal(q.filter);
      FoldAllNormal(q.should);
      FoldAllNormal(q.mustNot);
      SimplifyNormal(FoldAll(q.must).value, FoldAll(q.filter).value, FoldAll(q.should).value,
                     FoldAll(q.mustNot).value, q.minShould);
    }
  }

  lemma {:induction false} FoldAllNormal(qs: seq<Query>)
    requires FoldAll(qs).Ok?
    ensures forall c :: c in FoldAll(qs).value ==> Normal(c)
    decreases qs, 0
  {
    if qs != [] {
      FoldNormal(qs[0]);
      FoldAllNormal(qs[1..]);
    }
  }

  lemma SimplifyNormal(must: seq<Query>, filter: seq<Query>, should: seq<Query>, mustNot: seq<Query>, minShould: nat)
    requires forall c :: c in must || c in filter || c in should || c in mustNot ==> Normal(c)
    requires Simplify(must, filter, should, mustNot, minShould).Ok?
    ensures Normal(Simplify(must, filter, should, mustNot, minShould).value)
  {
  }

  /** A normal tree is a fixed point of fold. */
  lemma {:induction false} NormalIsFixed(q: Query)
    requires Normal(q)
    ensures Fold(q) == Ok(q)
    decreases q, 1
  {
    if q.Bool? {
      NormalAllFixed(q.must);
      NormalAllFixed(q.filter);
      NormalAllFixed(q.should);
      NormalAllFixed(q.mustNot);
    }
  }

  lemma {:induction false} NormalAllFixed(qs: seq<Query>)
    requires forall c :: c in qs ==> Normal(c)
    ensures FoldAll(qs) == Ok(qs)
    decreases qs, 0
  {
    if qs != [] {
      NormalIsFixed(qs[0]);
      NormalAllFixed(qs[1..]);
      assert qs == [qs[0]] + qs[1..];
    }
  }

  lemma FoldIdempotent(q: Query)
    requires Fold(q).Ok?
    ensures Fold(Fold(q).value) == Fold(q)
  {
    FoldNormal(q);
    NormalIsFixed(Fold(q).value);
  }
}
