/** The main results on the Elasticsearch front: lowering is exact, end to end. */
module EsExact {
  import opened Wrappers
  import opened Text
  import opened Milvus
  import opened Schema
  import opened EsQuery
  import opened EsFold
  import opened EsLower

  // Clauses buildExpr turns into "no expression".
  ghost predicate Vacuous(q: Query) {
    match q
    case MatchAll => true
    case Bool(must, filter, should, mustNot, _) =>
      forall c :: c in must || c in filter || c in should || c in mustNot ==> Vacuous(c)
    case _ => false
  }

  /** What buildExpr relies on: should clauses only where exactly one must match, and nothing that
      lowers to "no expression" under should or must_not. */
  ghost predicate Lowerable(q: Query) {
    match q
    case Bool(must, filter, should, mustNot, minShould) =>
      && (forall c :: c in must || c in filter || c in should || c in mustNot ==> Lowerable(c))
      && (forall c :: c in should || c in mustNot ==> !Vacuous(c))
      && (should != [] ==> minShould == 1)
    case _ => true
  }

  /** Folding establishes what buildExpr relies on. */
  lemma {:induction false} NormalIsLowerable(q: Query)
    requires Normal(q)
    ensures Lowerable(q) && (Vacuous(q) ==> q.MatchAll?)
  {
    if q.Bool? {
      forall c | c in q.must || c in q.filter || c in q.should || c in q.mustNot
        ensures Lowerable(c) && !Vacuous(c)
      {
        NormalIsLowerable(c);
      }
      var c := (q.must + q.filter + q.should + q.mustNot)[0];
      assert c in q.must || c in q.filter || c in q.should || c in q.mustNot;
    }
  }

  // ----- groups of expressions -----

  ghost predicate AllPass(es: seq<Expr>, w: World) {
    forall e :: e in es ==> Passes(e, w.row, w.server)
  }

  ghost predicate AnyPasses(es: seq<Expr>, w: World) {
    exists e :: e in es && Passes(e, w.row, w.server)
  }

  ghost predicate AllGuarded(es: seq<Expr>, schema: Catalog) {
    forall e :: e in es ==> Guarded(e, schema)
  }

  lemma {:induction false} GroupedPasses(es: seq<Expr>, all: bool, w: World)
    ensures AllPass(Grouped(es, all), w) <==> if all then AllPass(es, w) else es == [] || AnyPasses(es, w)
    ensures AllGuarded(es, w.schema) ==> AllGuarded(Grouped(es, all), w.schema)
    ensures Grouped(es, all) == [] <==> es == []
  {
    if |es| == 1 {
      assert es == [es[0]] && es[0] in es;
    } else if |es| > 1 {
      AndPasses(es, w.row, w.server);
      OrPasses(es, w.row, w.server);
      var group := if all then And(es) else Or(es);
      assert Grouped(es, all) == [group];
      assert group in Grouped(es, all);
    }
  }

  lemma {:induction false} ConjunctionPasses(es: seq<Expr>, w: World)
    ensures Passes(Conjunction(es), w.row, w.server) <==> AllPass(es, w)
    ensures es != [] && AllGuarded(es, w.schema) ==> Guarded(Conjunction(es), w.schema)
  {
    if |es| == 1 {
      assert es == [es[0]];
    } else if |es| > 1 {
      AndPasses(es, w.row, w.server);
    }
  }

  // ----- leaves -----

  lemma {:induction false} LowerLeafExact(q: Query, w: World)
    requires !q.Bool? && Parsed(q) && Lower(q, w.schema, w.readers).Ok?
    ensures var e := Lower(q, w.schema, w.readers).value;
            && (Passes(e, w.row, w.server) <==> Matches(q, w))
            && (e.Nil? <==> q.MatchAll?) && (!e.Nil? ==> Guarded(e, w.schema))
  {
    match q {
      case Terms(f, vs) => TermsExact(q, w);
      case Match(f, v, operator) => MatchExact(q, w);
      case Range(f, bounds) => RangeExact(q, w);
      case Term(f, v) => if w.row(f).Some? { ValueHoldsCoerced(f, EQ, v, w); }
      case _ =>
    }
  }

  lemma {:induction false} TermsExact(q: Query, w: World)
    requires q.Terms? && Lower(q, w.schema, w.readers).Ok?
    ensures Passes(Lower(q, w.schema, w.readers).value, w.row, w.server) <==> Matches(q, w)
  {
    var vs := CoerceAll(q.field, q.values, w.schema, w.readers).value;
    if w.row(q.field).Some? {
      AnyValueHolds(q.field, q.values, vs, w);
    }
  }

  lemma {:induction false} AnyValueHolds(field: string, written: seq<Scalar>, vs: seq<Value>, w: World)
    requires w.row(field).Some? && |written| == |vs|
    requires forall i :: 0 <= i < |vs| ==> Coerce(field, written[i], w.schema, w.readers) == Ok(vs[i])
    ensures (exists v :: v in vs && w.server.Holds(EQ, w.row(field).value, ReadBack(v)))
      <==> (exists v :: v in written && ValueHolds(field, EQ, v, w))
  {
    hide ValueHolds, Coerce;
    forall v ensures ValueHolds(field, EQ, v, w)
                <==> Coerce(field, v, w.schema, w.readers).Ok? && w.server.Holds(EQ, w.row(field).value,
                  ReadBack(Coerce(field, v, w.schema, w.readers).value))
    {
      ValueHoldsCoerced(field, EQ, v, w);
    }
    if v :| v in vs && w.server.Holds(EQ, w.row(field).value, ReadBack(v)) {
      var i :| 0 <= i < |vs| && vs[i] == v;
      assert written[i] in written && ValueHolds(field, EQ, written[i], w);
    }
    if v :| v in written && ValueHolds(field, EQ, v, w) {
      var i :| 0 <= i < |vs| && written[i] == v;
      assert vs[i] in vs;
    }
  }

  lemma {:induction false} RangeExact(q: Query, w: World)
    requires q.Range? && q.bounds != [] && Lower(q, w.schema, w.readers).Ok?
    ensures var e := Lower(q, w.schema, w.readers).value;
            (Passes(e, w.row, w.server) <==> Matches(q, w)) && Guarded(e, w.schema)
  {
    var es := LowerBounds(q.field, q.bounds, w.schema, w.readers).value;
    forall i | 0 <= i < |es|
      ensures es[i] in es && q.bounds[i] in q.bounds
      ensures Passes(es[i], w.row, w.server) <==>
        w.row(q.field).Some? && ValueHolds(q.field, q.bounds[i].op, q.bounds[i].value, w)
    {
      if w.row(q.field).Some? {
        ValueHoldsCoerced(q.field, q.bounds[i].op, q.bounds[i].value, w);
      }
    }
    assert AllPass(es, w) <==> Matches(q, w);
    AndPasses(es, w.row, w.server);
  }

  lemma {:induction false} MatchExact(q: Query, w: World)
    requires q.Match? && Lower(q, w.schema, w.readers).Ok?
    ensures var e := Lower(q, w.schema, w.readers).value;
            (Passes(e, w.row, w.server) <==> Matches(q, w)) && Guarded(e, w.schema)
  {
    hide ValueHolds, TokensHold, Coerce;
    if w.row(q.field).Some? {
      ValueHoldsCoerced(q.field, EQ, q.value, w);
      TokensHoldTokenized(q.field, q.value, q.operator, w);
    }
    if !ComparesExactly(w.schema.TypeOf(q.field)) {
      var tokens := Tokenize(ScalarText(q.value));
      FieldsAreWords(ScalarText(q.value), IsSpace);
      if tokens != [] {
        if q.operator == "and" {
          AllTokens(q.field, tokens, w);
        } else {
          TermsOfJoin(tokens);
        }
      }
    }
  }

  lemma {:induction false} AllTokens(field: string, tokens: seq<string>, w: World)
    requires tokens != [] && forall t :: t in tokens ==> Word(t)
    ensures var e := And(EachToken(field, tokens));
      && (Passes(e, w.row, w.server) <==>
          w.row(field).Some? && forall t :: t in tokens ==> w.server.contains(w.row(field).value, t))
      && Guarded(e, w.schema)
  {
    var es := EachToken(field, tokens);
    AndPasses(es, w.row, w.server);
    forall i | 0 <= i < |tokens|
      ensures tokens[i] in tokens && es[i] in es
      ensures Passes(es[i], w.row, w.server) <==> w.row(field).Some? && w.server.contains(w.row(field).value, tokens[i])
    {
      TermsOfJoin([tokens[i]]);
    }
    assert es[0] in es;
  }

  // ----- tokens -----

  predicate Word(t: string) {
    t != "" && ' ' !in t
  }

  lemma {:induction false} FieldsAreWords(s: string, isSeparator: char -> bool)
    requires isSeparator(' ')
    ensures forall t :: t in Fields(s, isSeparator) ==> Word(t)
    decreases |s|
  {
    if s != "" {
      if isSeparator(s[0]) {
        FieldsAreWords(s[1..], isSeparator);
      } else {
        FieldsAreWords(s[WordLength(s, isSeparator)..], isSeparator);
      }
    }
  }

  /** Splitting the joined tokens gives the tokens back, so TEXT_MATCH ors exactly them. */
  lemma {:induction false} TermsOfJoin(words: seq<string>)
    requires forall t :: t in words ==> Word(t)
    ensures QueryTerms(Join(words)) == words
  {
    if words != [] {
      var rest := if |words| == 1 then "" else " " + Join(words[1..]);
      assert Join(words) == words[0] + rest;
      TermsOfJoin(words[1..]);
      FirstField(words[0], rest);
      assert words == [words[0]] + words[1..];
    }
  }

  lemma {:induction false} FirstField(word: string, rest: string)
    requires Word(word) && (rest == "" || rest[0] == ' ')
    ensures QueryTerms(word + rest) == [word] + (if rest == "" then [] else QueryTerms(rest[1..]))
  {
    var s := word + rest;
    var n := WordLength(s, IsBlank);
    assert forall i :: 0 <= i < |word| ==> s[i] == word[i] && s[i] in word;
    assert rest != "" ==> s[|word|] == ' ';
    assert s[0] == word[0] && word[0] in word;
    assert s[..n] == word && s[n..] == rest;
    assert QueryTerms(s) == [word] + Fields(rest, IsBlank);
  }

  // ----- bool -----

  // What lowering a list of clauses comes to on one row.
  ghost predicate ListExact(qs: seq<Query>, es: seq<Expr>, w: World) {
    && AllGuarded(es, w.schema)
    && (AllPass(es, w) <==> AllMatch(qs, w))
    && (es == [] <==> forall c :: c in qs ==> Vacuous(c))
    && ((forall c :: c in qs ==> !Vacuous(c)) ==>
        && (AnyPasses(es, w) <==> AnyMatches(qs, w))
        && (es == [] <==> qs == []))
  }

  ghost predicate AllLowerable(qs: seq<Query>) {
    forall c :: c in qs ==> Lowerable(c) && Parsed(c)
  }

  /** Lowering is exact: the expression is true on a row just when the query matches it, and it stays
      inside the expressions that can be complemented. */
  lemma {:induction false} LowerExact(q: Query, w: World)
    requires Lowerable(q) && Parsed(q) && w.schema.Describes(w.row)
    requires Lower(q, w.schema, w.readers).Ok?
    ensures var e := Lower(q, w.schema, w.readers).value;
            && (Passes(e, w.row, w.server) <==> Matches(q, w))
            && (e.Nil? <==> Vacuous(q)) && (!e.Nil? ==> Guarded(e, w.schema))
    decreases q, 1
  {
    if q.Bool? {
      LowerAllExact(q.must, w);
      LowerAllExact(q.filter, w);
      LowerAllExact(q.should, w);
      LowerAllExact(q.mustNot, w);
      BoolExact(q, LowerAll(q.must, w.schema, w.readers).value, LowerAll(q.filter, w.schema, w.readers).value,
                LowerAll(q.should, w.schema, w.readers).value, LowerAll(q.mustNot, w.schema, w.readers).value, w);
    } else {
      LowerLeafExact(q, w);
    }
  }

  lemma {:induction false} LowerAllExact(qs: seq<Query>, w: World)
    requires AllLowerable(qs) && w.schema.Describes(w.row)
    requires LowerAll(qs, w.schema, w.readers).Ok?
    ensures ListExact(qs, LowerAll(qs, w.schema, w.readers).value, w)
    decreases qs, 0
  {
    if qs != [] {
      LowerExact(qs[0], w);
      LowerAllExact(qs[1..], w);
      ListExactCons(qs[0], Lower(qs[0], w.schema, w.readers).value, qs[1..],
                    LowerAll(qs[1..], w.schema, w.readers).value, w);
      assert qs == [qs[0]] + qs[1..];
    }
  }

  lemma {:induction false} ListExactCons(q: Query, e: Expr, qs: seq<Query>, es: seq<Expr>, w: World)
    requires Passes(e, w.row, w.server) <==> Matches(q, w)
    requires (e.Nil? <==> Vacuous(q)) && (!e.Nil? ==> Guarded(e, w.schema))
    requires ListExact(qs, es, w)
    ensures ListExact([q] + qs, if e.Nil? then es else [e] + es, w)
  {
    hide Vacuous, Matches, Guarded;
    assert forall c :: c in [q] + qs <==> c == q || c in qs;
    assert forall d :: d in [e] + es <==> d == e || d in es;
  }

  lemma {:induction false} BoolExact(q: Query, must: seq<Expr>, filter: seq<Expr>, should: seq<Expr>,
    mustNot: seq<Expr>, w: World)
    requires q.Bool? && Lowerable(q) && w.schema.Describes(w.row)
    requires ListExact(q.must, must, w) && ListExact(q.filter, filter, w)
    requires ListExact(q.should, should, w) && ListExact(q.mustNot, mustNot, w)
    ensures var parts := Grouped(must + filter, true) + Grouped(should, false) + NegatedAll(mustNot, w.schema);
            && (Passes(Conjunction(parts), w.row, w.server) <==> Matches(q, w))
            && (parts == [] <==> Vacuous(q))
            && (Conjunction(parts).Nil? <==> Vacuous(q))
            && (parts != [] ==> Guarded(Conjunction(parts), w.schema))
  {
    var both, parts := must + filter, Grouped(must + filter, true) + Grouped(should, false)
      + NegatedAll(mustNot, w.schema);
    GroupedPasses(both, true, w);
    GroupedPasses(should, false, w);
    MustNotExact(mustNot, w);
    ConjunctionPasses(parts, w);
    ShouldExact(q.should, w);
    BoolMeaning(q.must, q.filter, q.should, q.mustNot, q.minShould, w);
  }

  lemma {:induction false} MustNotExact(es: seq<Expr>, w: World)
    requires AllGuarded(es, w.schema) && w.schema.Describes(w.row)
    ensures AllPass(NegatedAll(es, w.schema), w) <==> !AnyPasses(es, w)
    ensures AllGuarded(NegatedAll(es, w.schema), w.schema)
  {
    NegatedAllComplement(es, w.schema, w.row, w.server);
    forall i | 0 <= i < |es| ensures Guarded(NegatedAll(es, w.schema)[i], w.schema) {
      NegatedGuarded(es[i], w.schema);
    }
  }

  lemma {:induction false} ShouldExact(should: seq<Query>, w: World)
    ensures ShouldMet(should, 1, w) <==> should == [] || AnyMatches(should, w)
  {
    CountBounds(should, w);
  }

  /** End to end: what Translate sends for a query clause answers every row as Elasticsearch does. */
  lemma {:induction false} TranslateExact(q: Query, w: World)
    requires Parsed(q) && w.schema.Describes(w.row)
    requires Fold(q).Ok? && Lower(Fold(q).value, w.schema, w.readers).Ok?
    ensures Passes(Lower(Fold(q).value, w.schema, w.readers).value, w.row, w.server) <==> Matches(q, w)
  {
    FoldPreserves(q, w);
    FoldNormal(q);
    FoldParsed(q);
    NormalIsLowerable(Fold(q).value);
    LowerExact(Fold(q).value, w);
  }

  lemma {:induction false} FoldParsed(q: Query)
    requires Parsed(q) && Fold(q).Ok?
    ensures Parsed(Fold(q).value)
    decreases q, 1
  {
    if q.Bool? {
      FoldAllParsed(q.must);
      FoldAllParsed(q.filter);
      FoldAllParsed(q.should);
      FoldAllParsed(q.mustNot);
    }
  }

  lemma {:induction false} FoldAllParsed(qs: seq<Query>)
    requires FoldAll(qs).Ok? && forall c :: c in qs ==> Parsed(c)
    ensures forall c :: c in FoldAll(qs).value ==> Parsed(c)
    decreases qs, 0
  {
    if qs != [] {
      FoldParsed(qs[0]);
      FoldAllParsed(qs[1..]);
    }
  }
}
