/** The filter of a knn clause (internal/translate/es/knn.go, request.go), which is lowered without being
    folded: what it answers, and when that is what Elasticsearch answers. */
module EsKnn {
  import opened Wrappers
  import opened Milvus
  import opened Schema
  import opened EsQuery
  import opened EsFold
  import opened EsLower
  import opened EsExact
  import opened EsTranslate

  function KnnRoot(filters: seq<Query>): Query {
    Bool([], filters, [], [], 0)
  }

  /** The knn filter is exact where its clauses are already as folding would leave them. */
  lemma {:induction false} KnnAnswers(filters: seq<Query>, w: World)
    requires AllLowerable(filters) && w.schema.Describes(w.row)
    requires Planned(KnnRoot(filters), w.schema, w.readers).Ok?
    ensures Answers(Planned(KnnRoot(filters), w.schema, w.readers).value, w.row, w.server)
       <==> Matches(KnnRoot(filters), w)
  {
    LowerExact(KnnRoot(filters), w);
  }

  // ----- how an unfolded filter is read -----

  // The query without its vacuous clauses, and one should clause required of every bool.
  ghost function AsRead(q: Query): Query
    decreases q, 1
  {
    match q
    case Bool(must, filter, should, mustNot, _) =>
      Bool(AllAsRead(must), AllAsRead(filter), AllAsRead(should), AllAsRead(mustNot), 1)
    case _ => q
  }

  ghost function AllAsRead(qs: seq<Query>): (r: seq<Query>)
    ensures |r| <= |qs|
    decreases qs, 0
  {
    if qs == [] then []
    else (if Vacuous(qs[0]) then [] else [AsRead(qs[0])]) + AllAsRead(qs[1..])
  }

  // The clauses read in a list are those of its clauses that are not vacuous.
  lemma {:induction false} ReadClauses(qs: seq<Query>)
    ensures forall c :: c in qs && !Vacuous(c) ==> AsRead(c) in AllAsRead(qs)
    ensures forall r :: r in AllAsRead(qs) ==> exists c :: c in qs && !Vacuous(c) && r == AsRead(c)
    ensures AllAsRead(qs) == [] <==> forall c :: c in qs ==> Vacuous(c)
  {
    hide AsRead, Vacuous;
    if qs != [] {
      ReadClauses(qs[1..]);
      assert forall c :: c in qs <==> c == qs[0] || c in qs[1..];
    }
  }

  lemma {:induction false} ReadIsLowerable(q: Query)
    requires Parsed(q)
    ensures Lowerable(AsRead(q)) && Parsed(AsRead(q)) && (Vacuous(AsRead(q)) <==> Vacuous(q))
  {
    if q.Bool? {
      ReadClauses(q.must);
      ReadClauses(q.filter);
      ReadClauses(q.should);
      ReadClauses(q.mustNot);
      forall c | c in q.must || c in q.filter || c in q.should || c in q.mustNot
        ensures Lowerable(AsRead(c)) && Parsed(AsRead(c)) && (Vacuous(AsRead(c)) <==> Vacuous(c))
      {
        ReadIsLowerable(c);
      }
      ReadBoolLowerable(q);
    }
  }

  lemma {:induction false} ReadBoolLowerable(q: Query)
    requires q.Bool?
    requires forall c :: c in q.must || c in q.filter || c in q.should || c in q.mustNot ==>
      Lowerable(AsRead(c)) && Parsed(AsRead(c)) && (Vacuous(AsRead(c)) <==> Vacuous(c))
    ensures Lowerable(AsRead(q)) && Parsed(AsRead(q)) && (Vacuous(AsRead(q)) <==> Vacuous(q))
  {
    var r := AsRead(q);
    ReadClauses(q.must);
    ReadClauses(q.filter);
    ReadClauses(q.should);
    ReadClauses(q.mustNot);
    forall c | c in r.must || c in r.filter || c in r.should || c in r.mustNot
      ensures Lowerable(c) && Parsed(c) && !Vacuous(c)
    {
      var d :| (d in q.must || d in q.filter || d in q.should || d in q.mustNot) && !Vacuous(d) && c == AsRead(d);
    }
    assert Vacuous(r) <==> r.must == [] && r.filter == [] && r.should == [] && r.mustNot == [] by {
      assert r.must != [] ==> r.must[0] in r.must;
      assert r.filter != [] ==> r.filter[0] in r.filter;
      assert r.should != [] ==> r.should[0] in r.should;
      assert r.mustNot != [] ==> r.mustNot[0] in r.mustNot;
    }
  }

  // Lowering does not tell a query from what it is read as.
  lemma {:induction false} ReadLowersSame(q: Query, w: World)
    requires Parsed(q) && w.schema.Describes(w.row) && Lower(q, w.schema, w.readers).Ok?
    ensures Lower(AsRead(q), w.schema, w.readers) == Lower(q, w.schema, w.readers)
    decreases q, 1
  {
    if q.Bool? {
      ReadAllLowerSame(q.must, w);
      ReadAllLowerSame(q.filter, w);
      ReadAllLowerSame(q.should, w);
      ReadAllLowerSame(q.mustNot, w);
    }
  }

  lemma {:induction false} ReadAllLowerSame(qs: seq<Query>, w: World)
    requires (forall c :: c in qs ==> Parsed(c)) && w.schema.Describes(w.row)
    requires LowerAll(qs, w.schema, w.readers).Ok?
    ensures LowerAll(AllAsRead(qs), w.schema, w.readers) == LowerAll(qs, w.schema, w.readers)
    decreases qs, 0
  {
    hide Lower, AsRead, Vacuous, Parsed, Lowerable, Guarded, Matches;
    if qs != [] {
      assert qs[0] in qs;
      ReadLowersSame(qs[0], w);
      ReadAllLowerSame(qs[1..], w);
      ReadIsLowerable(qs[0]);
      LowerExact(AsRead(qs[0]), w);
      if Vacuous(qs[0]) {
        assert [] + AllAsRead(qs[1..]) == AllAsRead(qs[1..]);
      } else {
        assert AllAsRead(qs) == [AsRead(qs[0])] + AllAsRead(qs[1..]);
        assert AllAsRead(qs)[1..] == AllAsRead(qs[1..]);
      }
    }
  }

  /** Any knn filter that is planned is read as if every bool in it, at any depth, had a
      minimum_should_match of 1 and no clause that matches everything, those under must_not included. */
  lemma {:induction false} UnfoldedReads(filters: seq<Query>, w: World)
    requires (forall c :: c in filters ==> Parsed(c)) && w.schema.Describes(w.row)
    requires Planned(KnnRoot(filters), w.schema, w.readers).Ok?
    ensures Answers(Planned(KnnRoot(filters), w.schema, w.readers).value, w.row, w.server)
       <==> Matches(AsRead(KnnRoot(filters)), w)
  {
    hide Lower, AsRead, Lowerable, Matches, Guarded, Vacuous;
    var root := KnnRoot(filters);
    ReadLowersSame(root, w);
    ReadIsLowerable(root);
    LowerExact(AsRead(root), w);
  }

  /** Where that is what was written, at every bool: nothing vacuous under must_not, and should clauses of
      which the vacuous ones leave exactly one more to be found. */
  ghost predicate ReadsRightThroughout(q: Query) {
    match q
    case Bool(must, filter, should, mustNot, minShould) =>
      && (forall c :: c in must || c in filter || c in should || c in mustNot ==> ReadsRightThroughout(c))
      && (forall c :: c in mustNot ==> !Vacuous(c))
      && (should == [] ||
          if forall c :: c in should ==> Vacuous(c) then minShould <= |should|
          else minShould == VacuousIn(should) + 1)
    case _ => true
  }

  ghost function VacuousIn(qs: seq<Query>): nat {
    if qs == [] then 0 else (if Vacuous(qs[0]) then 1 else 0) + VacuousIn(qs[1..])
  }

  lemma {:induction false} VacuousMatches(q: Query, w: World)
    requires Vacuous(q) && ReadsRightThroughout(q)
    ensures Matches(q, w)
  {
    if q.Bool? {
      forall c | c in q.must || c in q.filter || c in q.should ensures Matches(c, w) {
        VacuousMatches(c, w);
      }
      CountEvery(q.should, w);
    }
  }

  lemma {:induction false} CountEvery(qs: seq<Query>, w: World)
    ensures (forall c :: c in qs ==> Matches(c, w)) ==> CountMatches(qs, w) == |qs|
  {
    if qs != [] {
      CountEvery(qs[1..], w);
      assert qs[0] in qs;
    }
  }

  /** Comparisons, nested bools, any number of clauses: such a filter means what it says. */
  lemma {:induction false} RightThroughoutIsExact(q: Query, w: World)
    requires ReadsRightThroughout(q)
    ensures Matches(AsRead(q), w) <==> Matches(q, w)
    decreases q, 1
  {
    if q.Bool? {
      var r := AsRead(q);
      ReadListMatches(q.must, w);
      ReadListMatches(q.filter, w);
      ReadListMatches(q.should, w);
      ReadListMatches(q.mustNot, w);
      AllVacuous(q.should);
      AllVacuous(q.mustNot);
      ReadClauses(q.should);
      CountBounds(r.should, w);
      CountBounds(r.mustNot, w);
      CountBounds(q.mustNot, w);
      BoolMeaning(q.must, q.filter, q.should, q.mustNot, q.minShould, w);
      BoolMeaning(r.must, r.filter, r.should, r.mustNot, r.minShould, w);
    }
  }

  lemma {:induction false} AllVacuous(qs: seq<Query>)
    ensures (forall c :: c in qs ==> Vacuous(c)) ==> VacuousIn(qs) == |qs|
    ensures (forall c :: c in qs ==> !Vacuous(c)) ==> VacuousIn(qs) == 0
  {
    hide AsRead, Vacuous;
    if qs != [] {
      AllVacuous(qs[1..]);
      assert forall c :: c in qs <==> c == qs[0] || c in qs[1..];
    }
  }

  // The vacuous clauses of a list all match, and are the ones that are not read.
  lemma {:induction false} ReadListMatches(qs: seq<Query>, w: World)
    requires forall c :: c in qs ==> ReadsRightThroughout(c)
    ensures AllMatch(AllAsRead(qs), w) <==> AllMatch(qs, w)
    ensures CountMatches(qs, w) == VacuousIn(qs) + CountMatches(AllAsRead(qs), w)
    decreases qs, 0
  {
    hide AsRead, Vacuous, Matches, ReadsRightThroughout;
    if qs != [] {
      assert qs[0] in qs;
      ReadListMatches(qs[1..], w);
      assert forall c :: c in qs <==> c == qs[0] || c in qs[1..];
      if Vacuous(qs[0]) {
        VacuousMatches(qs[0], w);
        assert [] + AllAsRead(qs[1..]) == AllAsRead(qs[1..]);
      } else {
        RightThroughoutIsExact(qs[0], w);
        var rest := AllAsRead(qs[1..]);
        assert AllAsRead(qs) == [AsRead(qs[0])] + rest && AllAsRead(qs)[1..] == rest;
        assert forall c :: c in AllAsRead(qs) <==> c == AsRead(qs[0]) || c in rest;
      }
    }
  }

  /** A knn filter that reads right throughout is answered as Elasticsearch does on every row. */
  lemma {:induction false} KnnExactThroughout(filters: seq<Query>, w: World)
    requires (forall c :: c in filters ==> Parsed(c) && ReadsRightThroughout(c)) && w.schema.Describes(w.row)
    requires Planned(KnnRoot(filters), w.schema, w.readers).Ok?
    ensures Answers(Planned(KnnRoot(filters), w.schema, w.readers).value, w.row, w.server)
       <==> Matches(KnnRoot(filters), w)
  {
    hide Matches, AsRead, Planned, Answers, Vacuous;
    UnfoldedReads(filters, w);
    RightThroughoutIsExact(KnnRoot(filters), w);
  }

  lemma {:induction false} RootMeaning(b: Query, w: World)
    ensures Matches(KnnRoot([b]), w) <==> Matches(b, w)
  {
    assert b in [b];
  }

  /** must_not over match_all: Elasticsearch matches nothing, and the plan is the filter that passes every
      row. */
  lemma {:induction false} MustNotAllPassesAll(w: World)
    ensures var root := KnnRoot([Bool([], [], [], [MatchAll], 0)]);
      && Planned(root, w.schema, w.readers) == Ok(Filter(Nil))
      && Answers(Filter(Nil), w.row, w.server) && !Matches(root, w)
  {
    var b := Bool([], [], [], [MatchAll], 0);
    assert [b][0] == b && [b][1..] == [] && [MatchAll][1..] == [];
    assert LowerAll([MatchAll], w.schema, w.readers) == Ok([]);
    assert Lower(b, w.schema, w.readers) == Ok(Nil);
    assert LowerAll([b], w.schema, w.readers) == Ok([]);
    assert MatchAll in b.mustNot && Matches(MatchAll, w);
    RootMeaning(b, w);
  }

  // ----- exactly when that is right -----

  // Constants and exists clauses.
  ghost predicate Plain(qs: seq<Query>) {
    forall c :: c in qs ==> c.MatchAll? || c.MatchNone? || c.Exists?
  }

  // No exists clause of should or must_not occurs twice, and each can miss its field.
  ghost predicate Apart(b: Query, schema: Catalog)
    requires b.Bool?
  {
    && (forall i, j :: 0 <= i < j < |b.should| && b.should[i].Exists? ==> b.should[i] != b.should[j])
    && (forall c: Query :: c in b.should && c.Exists? ==> c !in b.must && c !in b.filter)
    && (forall c: Query :: c in b.mustNot && c.Exists? ==> c !in b.must && c !in b.filter && c !in b.should)
    && (forall c: Query :: (c in b.should || c in b.mustNot) && c.Exists? ==> schema.Nullable(c.field))
  }

  ghost predicate PlainBool(b: Query, schema: Catalog) {
    b.Bool? && Plain(b.must) && Plain(b.filter) && Plain(b.should) && Plain(b.mustNot) && Apart(b, schema)
  }

  ghost predicate AnyExists(qs: seq<Query>) {
    exists c :: c in qs && c.Exists?
  }

  /** What to check before sending such a filter. A match_none under must or filter decides it. A match_all
      under must_not is lost, which only goes unnoticed when every should clause is match_none. Otherwise
      the match_all clauses of should must leave exactly one match to be found. */
  ghost predicate ReadsRight(b: Query)
    requires b.Bool?
  {
    var all := Times(b.should, MatchAll);
    || MatchNone in b.must || MatchNone in b.filter
    || (MatchAll in b.mustNot && !AnyExists(b.should) && MatchNone in b.should)
    || (MatchAll !in b.mustNot &&
        if b.should == [] then true
        else if AnyExists(b.should) then b.minShould == all + 1
        else if MatchNone in b.should then b.minShould > all
        else b.minShould <= all)
  }

  ghost predicate KnnExact(root: Query, row: Row, server: Server, schema: Catalog, readers: Readers) {
    var plan := Planned(root, schema, readers);
    plan.Ok? && (Answers(plan.value, row, server) <==> Matches(root, World(row, server, schema, readers)))
  }

  /** A knn filter that is one bool over exists, match_all and match_none clauses is answered as
      Elasticsearch does on every row the schema describes if and only if it reads right. */
  lemma {:induction false} KnnExactWhen(b: Query, schema: Catalog, readers: Readers, server: Server)
    requires PlainBool(b, schema) && "" !in schema.nulls
    ensures Planned(KnnRoot([b]), schema, readers).Ok?
    ensures ReadsRight(b)
       <==> forall row | schema.Describes(row) :: KnnExact(KnnRoot([b]), row, server, schema, readers)
  {
    hide Matches, Lower, LowerAll, Answers, Planned, Lowerable, PlainBool, ReadsRight, AsRead;
    PlainLowers(b, schema, readers);
    RootLowers(b, schema, readers);
    PlainParsed(b, schema);
    forall row | schema.Describes(row)
      ensures KnnExact(KnnRoot([b]), row, server, schema, readers)
         <==> (Matches(AsRead(b), World(row, server, schema, readers))
           <==> Matches(b, World(row, server, schema, readers)))
      ensures ReadsRight(b) ==>
        (Matches(AsRead(b), World(row, server, schema, readers)) <==> Matches(b, World(row, server, schema, readers)))
    {
      var w := World(row, server, schema, readers);
      UnfoldedReads([b], w);
      ReadRootMeaning(b, w);
      RootMeaning(b, w);
      if ReadsRight(b) {
        RightIsExact(b, w);
      }
    }
    if !ReadsRight(b) {
      var row := WrongOn(b, schema, server, readers);
    }
  }

  lemma {:induction false} PlainLowers(b: Query, schema: Catalog, readers: Readers)
    requires PlainBool(b, schema)
    ensures b.Bool? && Lower(b, schema, readers).Ok?
  {
    PlainAllLower(b.must, schema, readers);
    PlainAllLower(b.filter, schema, readers);
    PlainAllLower(b.should, schema, readers);
    PlainAllLower(b.mustNot, schema, readers);
  }

  lemma {:induction false} PlainParsed(b: Query, schema: Catalog)
    requires PlainBool(b, schema)
    ensures Parsed(b)
  {
  }

  // In a list of constants and exists clauses only match_all is vacuous.
  lemma {:induction false} PlainReads(qs: seq<Query>)
    requires Plain(qs)
    ensures AllAsRead(qs) == Without(qs, MatchAll)
  {
    if qs != [] {
      PlainReads(qs[1..]);
    }
  }

  lemma {:induction false} PlainAsRead(b: Query, schema: Catalog)
    requires PlainBool(b, schema)
    ensures AsRead(b) == Bool(Without(b.must, MatchAll), Without(b.filter, MatchAll), Without(b.should, MatchAll),
                              Without(b.mustNot, MatchAll), 1)
  {
    PlainReads(b.must);
    PlainReads(b.filter);
    PlainReads(b.should);
    PlainReads(b.mustNot);
  }

  lemma {:induction false} VacuousReadMatches(q: Query, w: World)
    requires Vacuous(q)
    ensures Matches(AsRead(q), w)
  {
    if q.Bool? {
      ReadClauses(q.must);
      ReadClauses(q.filter);
      ReadClauses(q.should);
      ReadClauses(q.mustNot);
    }
  }

  lemma {:induction false} ReadRootMeaning(b: Query, w: World)
    ensures Matches(AsRead(KnnRoot([b])), w) <==> Matches(AsRead(b), w)
  {
    hide Matches, Vacuous;
    var read := AllAsRead([b]);
    assert [b][1..] == [] && AllAsRead([]) == [];
    assert read == if Vacuous(b) then [] else [AsRead(b)];
    BoolMeaning([], read, [], [], 1, w);
    if Vacuous(b) {
      VacuousReadMatches(b, w);
    }
  }

  lemma {:induction false} PlainAllLower(qs: seq<Query>, schema: Catalog, readers: Readers)
    requires Plain(qs)
    ensures LowerAll(qs, schema, readers).Ok?
  {
    if qs != [] {
      PlainAllLower(qs[1..], schema, readers);
    }
  }

  lemma {:induction false} RootLowers(b: Query, schema: Catalog, readers: Readers)
    requires Lower(b, schema, readers).Ok?
    ensures Planned(KnnRoot([b]), schema, readers).Ok?
  {
    assert [b][0] == b && [b][1..] == [];
    assert LowerAll([], schema, readers) == Ok([]);
    assert LowerAll([b], schema, readers).Ok?;
  }

  // Each match_all under should is one match, the others are counted one by one.
  lemma {:induction false} CountApart(qs: seq<Query>, w: World)
    ensures CountMatches(qs, w) == Times(qs, MatchAll) + CountMatches(Without(qs, MatchAll), w)
  {
    if qs != [] {
      CountApart(qs[1..], w);
      if qs[0] != MatchAll {
        assert Without(qs, MatchAll) == [qs[0]] + Without(qs[1..], MatchAll);
        assert Without(qs, MatchAll)[1..] == Without(qs[1..], MatchAll);
      }
    }
  }

  lemma {:induction false} NoneMatch(qs: seq<Query>, w: World)
    requires Plain(qs) && !AnyExists(qs)
    ensures CountMatches(Without(qs, MatchAll), w) == 0
  {
    CountBounds(Without(qs, MatchAll), w);
  }

  // The two readings of a bool, in terms of its lists.
  lemma {:induction false} BothReadings(b: Query, w: World)
    requires PlainBool(b, w.schema)
    ensures Matches(b, w)
       <==> AllMatch(b.must, w) && AllMatch(b.filter, w) && !AnyMatches(b.mustNot, w)
              && (b.should == [] ||
                  Times(b.should, MatchAll) + CountMatches(Without(b.should, MatchAll), w) >= b.minShould)
    ensures Matches(AsRead(b), w)
       <==> AllMatch(b.must, w) && AllMatch(b.filter, w) && !AnyMatches(Without(b.mustNot, MatchAll), w)
              && (Without(b.should, MatchAll) == [] || CountMatches(Without(b.should, MatchAll), w) >= 1)
  {
    hide Matches, CountMatches, AllMatch, AnyMatches, AsRead, Plain, Apart;
    BoolMeaning(b.must, b.filter, b.should, b.mustNot, b.minShould, w);
    PlainAsRead(b, w.schema);
    var r := AsRead(b);
    BoolMeaning(r.must, r.filter, r.should, r.mustNot, r.minShould, w);
    DropIdentities(b.must, w);
    DropIdentities(b.filter, w);
    CountApart(b.should, w);
  }

  lemma {:induction false} DroppedShould(should: seq<Query>)
    requires Plain(should)
    ensures Without(should, MatchAll) == [] <==> MatchNone !in should && !AnyExists(should)
  {
    var rest := Without(should, MatchAll);
    assert rest != [] ==> rest[0] in rest;
    assert forall c :: c in should ==> c in rest || c == MatchAll;
  }

  lemma {:induction false} RightIsExact(b: Query, w: World)
    requires PlainBool(b, w.schema) && ReadsRight(b)
    ensures Matches(AsRead(b), w) <==> Matches(b, w)
  {
    hide Matches, CountMatches, AllMatch, AnyMatches, AsRead;
    BothReadings(b, w);
    DropIdentities(b.must, w);
    DropIdentities(b.filter, w);
    DropIdentities(b.mustNot, w);
    DroppedShould(b.should);
    if !AnyExists(b.should) {
      NoneMatch(b.should, w);
    }
  }

  // ----- the row that shows it wrong -----

  // The cells the clauses ask for, and everything that cannot be null.
  function RowWith(present: seq<Query>, schema: Catalog): Row {
    f => if Exists(f) in present || !schema.Nullable(f) then Some(BoolCell(true)) else None
  }

  // Which should clause the row matches: the first exists clause, or none.
  function FirstExists(qs: seq<Query>): (r: seq<Query>)
    ensures AnyExists(qs) ==> |r| == 1 && r[0] in qs && r[0].Exists?
    ensures !AnyExists(qs) ==> r == []
  {
    if qs == [] then []
    else if qs[0].Exists? then [qs[0]]
    else
      assert AnyExists(qs) <==> AnyExists(qs[1..]) by {
        assert forall c :: c in qs <==> c == qs[0] || c in qs[1..];
      }
      FirstExists(qs[1..])
  }

  lemma {:induction false} WrongOn(b: Query, schema: Catalog, server: Server, readers: Readers) returns (row: Row)
    requires PlainBool(b, schema) && !ReadsRight(b) && "" !in schema.nulls
    ensures schema.Describes(row)
    ensures var w := World(row, server, schema, readers); Matches(AsRead(b), w) != Matches(b, w)
  {
    hide Matches, CountMatches, AllMatch, AnyMatches, AsRead, Apart;
    var all := Times(b.should, MatchAll);
    var one := if MatchAll in b.mustNot || b.minShould > all then FirstExists(b.should) else [];
    row := RowWith(b.must + b.filter + one, schema);
    var w := World(row, server, schema, readers);
    OnWitness(b, one, w);
    BothReadings(b, w);
    DropIdentities(b.mustNot, w);
    DroppedShould(b.should);
  }

  lemma {:induction false} OnWitness(b: Query, one: seq<Query>, w: World)
    requires PlainBool(b, w.schema) && MatchNone !in b.must && MatchNone !in b.filter
    requires one == [] || one == FirstExists(b.should)
    requires w.row == RowWith(b.must + b.filter + one, w.schema)
    ensures AllMatch(b.must, w) && AllMatch(b.filter, w)
    ensures !AnyMatches(Without(b.mustNot, MatchAll), w)
    ensures CountMatches(Without(b.should, MatchAll), w) == |one|
  {
    hide CountMatches, AnyExists, Times, FirstExists;
    OnlyOne(b, one);
    RowMatches(b, one, w);
    CountApart(b.should, w);
    CountOne(b.should, one, w);
  }

  lemma {:induction false} RowMatches(b: Query, one: seq<Query>, w: World)
    requires PlainBool(b, w.schema) && MatchNone !in b.must && MatchNone !in b.filter
    requires forall c :: c in one ==> c in b.should && c.Exists?
    requires w.row == RowWith(b.must + b.filter + one, w.schema)
    ensures AllMatch(b.must, w) && AllMatch(b.filter, w) && !AnyMatches(Without(b.mustNot, MatchAll), w)
    ensures forall c :: c in b.should ==> (Matches(c, w) <==> c == MatchAll || c in one)
  {
    var present := b.must + b.filter + one;
    assert forall c :: c in present <==> c in b.must || c in b.filter || c in one;
  }

  lemma {:induction false} OnlyOne(b: Query, one: seq<Query>)
    requires b.Bool? && (one == [] || one == FirstExists(b.should))
    requires forall i, j :: 0 <= i < j < |b.should| && b.should[i].Exists? ==> b.should[i] != b.should[j]
    ensures forall c :: c in one ==> c in b.should && c.Exists? && Times(b.should, c) == 1
    ensures |one| <= 1
  {
    if one != [] {
      assert AnyExists(b.should);
      OccursOnce(b.should, one[0]);
    }
  }

  lemma {:induction false} OccursOnce(qs: seq<Query>, q: Query)
    requires forall i, j :: 0 <= i < j < |qs| && qs[i] == q ==> qs[i] != qs[j]
    ensures Times(qs, q) == if q in qs then 1 else 0
  {
    if qs != [] {
      OccursOnce(qs[1..], q);
    }
  }

  // A list in which only the match_all clauses and the given one match.
  lemma {:induction false} CountOne(qs: seq<Query>, one: seq<Query>, w: World)
    requires |one| <= 1 && MatchAll !in one
    requires forall c :: c in qs ==> (Matches(c, w) <==> c == MatchAll || c in one)
    ensures CountMatches(qs, w) == Times(qs, MatchAll) + if one == [] then 0 else Times(qs, one[0])
  {
    hide Matches;
    if qs != [] {
      CountOne(qs[1..], one, w);
    }
  }
}
