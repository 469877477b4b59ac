/** joinRows (internal/catalog/eval.go): the FROM clause, joined left to right. A combination holds, for each
    source joined so far, the position of its row, or None for the null row of an unmatched LEFT join. */
module JoinRows {
  import opened Wrappers
  import opened Loops

  type Combo = seq<Option<nat>>

  // A source: how many rows it has, whether it joins LEFT, and its ON condition, which is asked of the
  // combination up to and including this source. No condition at all holds always.
  datatype Source = Source(rows: nat, left: bool, on: Option<Combo -> Result<bool>>)

  function Holds(s: Source, c: Combo): Result<bool> {
    if s.on.None? then Ok(true) else s.on.value(c)
  }

  // The rows of a source from the j-th on that match a combination.
  function Matches(s: Source, c: Combo, j: nat): Result<seq<Combo>>
    requires j <= s.rows
    decreases s.rows - j
  {
    if j == s.rows then Ok([])
    else
      var holds :- Holds(s, c + [Some(j)]);
      var more :- Matches(s, c, j + 1);
      Ok(if holds then [c + [Some(j)]] + more else more)
  }

  // One combination joined with a source: its matches, or the null row where LEFT finds none.
  function Extend(s: Source, c: Combo): Result<seq<Combo>> {
    var matches :- Matches(s, c, 0);
    Ok(if s.left && matches == [] then [c + [None]] else matches)
  }

  function ExtendAll(s: Source, combos: seq<Combo>): Result<seq<Combo>> {
    if combos == [] then Ok([])
    else
      var head :- Extend(s, combos[0]);
      var tail :- ExtendAll(s, combos[1..]);
      Ok(head + tail)
  }

  /** The left-deep join. */
  function Join(sources: seq<Source>): Result<seq<Combo>> {
    if sources == [] then Ok([[]])
    else
      var combos :- Join(sources[..|sources| - 1]);
      ExtendAll(sources[|sources| - 1], combos)
  }

  // ----- the loops -----

  method JoinAll(sources: seq<Source>) returns (r: Result<seq<Combo>>)
    ensures r == Join(sources)
  {
    var combos: seq<Combo> := [[]];
    for i := 0 to |sources|
      invariant Join(sources[..i]) == Ok(combos)
    {
      assert sources[..i + 1][..i] == sources[..i];
      var next := JoinNext(sources[i], combos);
      if next.Err? {
        JoinFails(sources, i + 1);
        return next;
      }
      combos := next.value;
    }
    assert sources[..|sources|] == sources;
    return Ok(combos);
  }

  lemma {:induction false} JoinFails(sources: seq<Source>, i: nat)
    requires i <= |sources| && Join(sources[..i]).Err?
    ensures Join(sources) == Err(Join(sources[..i]).error)
    decreases |sources| - i
  {
    if i < |sources| {
      assert sources[..i + 1][..i] == sources[..i];
      JoinFails(sources, i + 1);
    } else {
      assert sources[..i] == sources;
    }
  }

  // The loop over the combinations so far, and for each the loop over the source's rows.
  method JoinNext(s: Source, combos: seq<Combo>) returns (r: Result<seq<Combo>>)
    ensures r == ExtendAll(s, combos)
  {
    hide Extend, Matches, Holds;
    var next: seq<Combo> := [];
    Start(combos, ExtendAll(s, combos));
    for k := 0 to |combos|
      invariant ExtendAll(s, combos) == Prefixed(next, ExtendAll(s, combos[k..]))
    {
      Rest(combos, k);
      var c := combos[k];
      var more := JoinOne(s, c);
      if more.Err? {
        return Err(more.error);
      }
      AppendAll(next, more.value, ExtendAll(s, combos[k + 1..]));
      next := next + more.value;
    }
    Finish(next);
    return Ok(next);
  }

  lemma AppendAll<T>(done: seq<T>, xs: seq<T>, rest: Result<seq<T>>)
    ensures Prefixed(done, Prefixed(xs, rest)) == Prefixed(done + xs, rest)
  {
    if rest.Ok? {
      assert done + (xs + rest.value) == done + xs + rest.value;
    }
  }

  method JoinOne(s: Source, c: Combo) returns (r: Result<seq<Combo>>)
    ensures r == Extend(s, c)
  {
    hide Holds;
    var out: seq<Combo> := [];
    var matched := false;
    assert Matches(s, c, 0).Ok? ==> [] + Matches(s, c, 0).value == Matches(s, c, 0).value;
    for j := 0 to s.rows
      invariant Matches(s, c, 0) == Prefixed(out, Matches(s, c, j))
      invariant matched <==> out != []
    {
      var c2 := c + [Some(j)];
      var holds := Holds(s, c2);
      if holds.Err? {
        return Err(holds.error);
      }
      if !holds.value {
        continue;
      }
      matched := true;
      Append(out, c2, Matches(s, c, j + 1));
      out := out + [c2];
    }
    Finish(out);
    if s.left && !matched {
      return Ok([c + [None]]);
    }
    return Ok(out);
  }

  // ----- the relation -----

  // A row of a source matches a combination.
  ghost predicate Pairs(s: Source, c: Combo, j: nat) {
    j < s.rows && (s.on.Some? ==> s.on.value(c + [Some(j)]) == Ok(true))
  }

  ghost predicate NothingPairs(s: Source, c: Combo) {
    forall j: nat :: !Pairs(s, c, j)
  }

  // The condition can be decided on every row of the source.
  ghost predicate Decided(s: Source, c: Combo) {
    s.on.Some? ==> forall j: nat :: j < s.rows ==> s.on.value(c + [Some(j)]).Ok?
  }

  // The last place of a combination: a matching row, or the null row of a LEFT join that nothing matches.
  ghost predicate LastJoins(s: Source, c: Combo, last: Option<nat>) {
    match last
    case Some(j) => Pairs(s, c, j)
    case None => s.left && NothingPairs(s, c)
  }

  /** The relational definition: every place of the combination joins with the places before it. */
  ghost predicate Joined(sources: seq<Source>, c: Combo) {
    |c| == |sources| && forall i :: 0 <= i < |c| ==> LastJoins(sources[i], c[..i], c[i])
  }

  // Order by the position in each source, left to right; the null row comes last.
  ghost predicate Earlier(a: Combo, b: Combo) {
    exists i :: 0 <= i < |a| && i < |b| && a[..i] == b[..i] && a[i].Some? && b[i].Some? && a[i].value < b[i].value
  }

  ghost predicate InOrder(cs: seq<Combo>) {
    forall a, b :: 0 <= a < b < |cs| ==> Earlier(cs[a], cs[b])
  }

  // A combination extended by one place that joins.
  ghost predicate Extends(s: Source, c: Combo, x: Combo) {
    |x| == |c| + 1 && x[..|c|] == c && LastJoins(s, c, x[|c|])
  }

  lemma {:induction false} PairsHold(s: Source, c: Combo)
    ensures forall j: nat :: Pairs(s, c, j) <==> j < s.rows && Holds(s, c + [Some(j)]) == Ok(true)
  {
  }

  lemma {:induction false} MatchesAre(s: Source, c: Combo, j: nat)
    requires j <= s.rows && Matches(s, c, j).Ok?
    ensures forall x: Combo :: x in Matches(s, c, j).value <==>
      |x| == |c| + 1 && x[..|c|] == c && x[|c|].Some? && x[|c|].value >= j && Pairs(s, c, x[|c|].value)
    ensures InOrder(Matches(s, c, j).value)
    decreases s.rows - j
  {
    hide Holds, Pairs;
    PairsHold(s, c);
    if j < s.rows {
      MatchesAre(s, c, j + 1);
      var here, more := c + [Some(j)], Matches(s, c, j + 1).value;
      forall x | x in more ensures Earlier(here, x) {
        assert here[..|c|] == c && here[|c|] == Some(j);
      }
      forall x: Combo | |x| == |c| + 1 && x[..|c|] == c && x[|c|] == Some(j) ensures x == here {
        assert x == x[..|c|] + [x[|c|]];
      }
    }
  }

  lemma ExtendIs(s: Source, c: Combo)
    requires Extend(s, c).Ok?
    ensures forall x :: x in Extend(s, c).value <==> Extends(s, c, x)
    ensures InOrder(Extend(s, c).value)
  {
    hide Holds, Matches;
    MatchesAre(s, c, 0);
    var matches := Matches(s, c, 0).value;
    if matches == [] {
      forall j: nat ensures !Pairs(s, c, j) {
        if Pairs(s, c, j) {
          WitnessIn(s, c, j);
        }
      }
      assert (c + [None])[..|c|] == c;
      forall x: Combo | |x| == |c| + 1 && x[..|c|] == c && x[|c|].None? ensures x == c + [None] {
        assert x == x[..|c|] + [x[|c|]];
      }
    } else {
      assert matches[0] in matches;
    }
  }

  lemma WitnessIn(s: Source, c: Combo, j: nat)
    requires Matches(s, c, 0).Ok? && Pairs(s, c, j)
    ensures c + [Some(j)] in Matches(s, c, 0).value
  {
    hide Holds, Matches, Pairs;
    MatchesAre(s, c, 0);
    var x := c + [Some(j)];
    assert x[..|c|] == c && x[|c|] == Some(j);
  }

  lemma LongerStaysEarlier(a: Combo, b: Combo, x: Combo, y: Combo)
    requires Earlier(a, b) && |a| <= |x| && |b| <= |y| && x[..|a|] == a && y[..|b|] == b
    ensures Earlier(x, y)
  {
    var i :| 0 <= i < |a| && i < |b| && a[..i] == b[..i] && a[i].Some? && b[i].Some? && a[i].value < b[i].value;
    assert x[..i] == x[..|a|][..i] && y[..i] == y[..|b|][..i];
    assert x[i] == x[..|a|][i] && y[i] == y[..|b|][i];
  }

  lemma {:induction false} ExtendAllIs(s: Source, combos: seq<Combo>)
    requires ExtendAll(s, combos).Ok? && InOrder(combos)
    ensures forall x :: x in ExtendAll(s, combos).value <==> exists c :: c in combos && Extends(s, c, x)
    ensures InOrder(ExtendAll(s, combos).value)
  {
    hide Extend, Extends, Earlier;
    if combos != [] {
      var c, rest := combos[0], combos[1..];
      var head, tail := Extend(s, c).value, ExtendAll(s, rest).value;
      ExtendIs(s, c);
      ExtendAllIs(s, rest);
      forall x, y | x in head && y in tail ensures Earlier(x, y) {
        var d :| d in rest && Extends(s, d, y);
        var k :| 0 <= k < |rest| && rest[k] == d;
        assert Earlier(combos[0], combos[k + 1]);
        assert Extends(s, c, x);
        Prefixes(s, c, x);
        Prefixes(s, d, y);
        LongerStaysEarlier(c, d, x, y);
      }
      assert forall d :: d in combos <==> d == c || d in rest;
    }
  }

  lemma Prefixes(s: Source, c: Combo, x: Combo)
    requires Extends(s, c, x)
    ensures |c| <= |x| && x[..|c|] == c
  {
  }

  lemma JoinedStep(sources: seq<Source>, x: Combo)
    requires sources != []
    ensures Joined(sources, x) <==>
      |x| == |sources| && Joined(sources[..|sources| - 1], x[..|x| - 1])
      && LastJoins(sources[|sources| - 1], x[..|x| - 1], x[|x| - 1])
  {
    hide LastJoins;
    if |x| == |sources| {
      var n := |x| - 1;
      assert forall i :: 0 <= i < n ==> x[..n][..i] == x[..i] && x[..n][i] == x[i] && sources[..n][i] == sources[i];
    }
  }

  /** The join yields exactly the combinations of the relational definition, each once, in the order of
      their rows' positions from left to right. */
  lemma {:induction false} JoinIsRelation(sources: seq<Source>)
    requires Join(sources).Ok?
    ensures forall x :: x in Join(sources).value <==> Joined(sources, x)
    ensures InOrder(Join(sources).value)
    decreases |sources|
  {
    hide ExtendAll, LastJoins, Earlier, Joined;
    if sources == [] {
      NoSources();
    } else {
      var n := |sources| - 1;
      JoinIsRelation(sources[..n]);
      var combos := Join(sources[..n]).value;
      ExtendAllIs(sources[n], combos);
      forall x ensures x in Join(sources).value <==> Joined(sources, x) {
        JoinedStep(sources, x);
        if c :| c in combos && Extends(sources[n], c, x) {
          JoinedLength(sources[..n], c);
        }
        assert Joined(sources, x) ==> x[..|x| - 1] in combos;
      }
    }
  }

  lemma {:induction false} MatchesSucceed(s: Source, c: Combo, j: nat)
    requires j <= s.rows
    ensures Matches(s, c, j).Ok? <==> forall k: nat :: j <= k < s.rows ==> Holds(s, c + [Some(k)]).Ok?
    decreases s.rows - j
  {
    hide Holds;
    if j < s.rows {
      MatchesSucceed(s, c, j + 1);
    }
  }

  lemma {:induction false} ExtendSucceeds(s: Source, c: Combo)
    ensures Extend(s, c).Ok? <==> Decided(s, c)
  {
    hide Matches;
    MatchesSucceed(s, c, 0);
    assert s.on.Some? ==> forall j: nat :: Holds(s, c + [Some(j)]) == s.on.value(c + [Some(j)]);
  }

  lemma {:induction false} ExtendAllSucceeds(s: Source, combos: seq<Combo>)
    ensures ExtendAll(s, combos).Ok? <==> forall c :: c in combos ==> Decided(s, c)
  {
    hide Extend, Decided;
    if combos != [] {
      ExtendSucceeds(s, combos[0]);
      ExtendAllSucceeds(s, combos[1..]);
      assert forall c :: c in combos <==> c == combos[0] || c in combos[1..];
    }
  }

  // Every condition can be decided on every combination it is asked of.
  ghost predicate AllDecided(sources: seq<Source>) {
    forall i, c :: 0 <= i < |sources| && Joined(sources[..i], c) ==> Decided(sources[i], c)
  }

  /** The join succeeds exactly when every condition can be decided wherever it is asked. */
  lemma {:induction false} JoinSucceedsWhen(sources: seq<Source>)
    ensures Join(sources).Ok? <==> AllDecided(sources)
    decreases |sources|
  {
    hide ExtendAll, Joined, Decided;
    if sources != [] {
      var n := |sources| - 1;
      JoinSucceedsWhen(sources[..n]);
      assert forall i :: 0 <= i < n ==> sources[..n][..i] == sources[..i] && sources[..n][i] == sources[i];
      if Join(sources[..n]).Ok? {
        JoinIsRelation(sources[..n]);
        ExtendAllSucceeds(sources[n], Join(sources[..n]).value);
      }
    }
  }

  lemma JoinedLength(sources: seq<Source>, c: Combo)
    ensures Joined(sources, c) ==> |c| == |sources|
  {
  }

  lemma NoSources()
    ensures forall x :: x in Join([]).value <==> Joined([], x)
    ensures InOrder(Join([]).value)
  {
  }

  ghost predicate Prolongs(x: Combo, c: Combo) {
    |x| == |c| + 1 && x[..|c|] == c
  }

  /** A LEFT join keeps every combination to its left, and the null row is there exactly when nothing
      matched. */
  lemma {:induction false} LeftKeeps(sources: seq<Source>, c: Combo)
    requires sources != [] && sources[|sources| - 1].left && Join(sources).Ok?
    requires Join(sources[..|sources| - 1]).Ok? && c in Join(sources[..|sources| - 1]).value
    ensures exists x :: x in Join(sources).value && Prolongs(x, c)
    ensures c + [None] in Join(sources).value <==> NothingPairs(sources[|sources| - 1], c)
  {
    hide Pairs, Join;
    var n := |sources| - 1;
    JoinIsRelation(sources);
    JoinIsRelation(sources[..n]);
    JoinedLength(sources[..n], c);
    var nulls := c + [None];
    assert nulls[..n] == c && nulls[n] == None;
    JoinedStep(sources, nulls);
    if j: nat :| Pairs(sources[n], c, j) {
      var x := c + [Some(j)];
      assert x[..n] == c && x[n] == Some(j);
      JoinedStep(sources, x);
      assert x in Join(sources).value;
    } else {
      assert nulls in Join(sources).value;
    }
  }
}
