/** fold as it runs: the clause slices of the tree it is given are overwritten in place while the
    folded bool is built over fresh slices. The result is the folded tree, and the caller's own tree,
    although overwritten, still matches the same rows, whether fold succeeds or stops half-way. */
module EsFoldInPlace {
  import opened Wrappers
  import opened Schema
  import opened EsQuery
  import opened EsFold

  // A queryNode: a leaf clause, or a bool struct holding four slices. Copying the struct shares the slices.
  datatype Node =
    | Leaf(query: Query)
    | Branch(must: array<Node>, filter: array<Node>, should: array<Node>, mustNot: array<Node>, minShould: nat)

  // A slice and the trees its elements root.
  datatype Slice = Slice(items: array<Node>, kids: seq<Tree>)

  // The shape of a node on the heap.
  datatype Tree =
    | LeafTree(query: Query)
    | BranchTree(must: Slice, filter: Slice, should: Slice, mustNot: Slice, minShould: nat)

  function NodeOf(t: Tree): Node {
    match t
    case LeafTree(q) => Leaf(q)
    case BranchTree(m, f, s, n, minShould) => Branch(m.items, f.items, s.items, n.items, minShould)
  }

  // The query a tree stands for.
  function QueryOf(t: Tree): Query
    decreases t, 1
  {
    match t
    case LeafTree(q) => q
    case BranchTree(m, f, s, n, minShould) =>
      Bool(QueriesOf(m.kids), QueriesOf(f.kids), QueriesOf(s.kids), QueriesOf(n.kids), minShould)
  }

  function QueriesOf(ts: seq<Tree>): (qs: seq<Query>)
    ensures |qs| == |ts|
    ensures forall i :: 0 <= i < |ts| ==> qs[i] == QueryOf(ts[i])
    decreases ts, 0
  {
    if ts == [] then [] else [QueryOf(ts[0])] + QueriesOf(ts[1..])
  }

  // Every slice of a tree.
  ghost function Slices(t: Tree): set<Slice> {
    match t
    case LeafTree(_) => {}
    case BranchTree(m, f, s, n, _) => Within(m) + Within(f) + Within(s) + Within(n)
  }

  ghost function Within(s: Slice): set<Slice> {
    {s} + SlicesOf(s.kids)
  }

  ghost function SlicesOf(ts: seq<Tree>): set<Slice> {
    set t, s | t in ts && s in Slices(t) :: s
  }

  ghost function Arrays(ss: set<Slice>): set<array<Node>> {
    set s | s in ss :: s.items
  }

  // The heap holds a slice: its elements are the roots of its trees.
  ghost predicate Stored(s: Slice)
    reads s.items
  {
    s.items.Length == |s.kids| && forall i :: 0 <= i < |s.kids| ==> s.items[i] == NodeOf(s.kids[i])
  }

  ghost predicate AllStored(ss: set<Slice>)
    reads Arrays(ss)
  {
    forall s :: s in ss ==> Stored(s)
  }

  // No slice occurs twice in the tree.
  ghost predicate Separate(t: Tree) {
    match t
    case LeafTree(q) => !q.Bool?
    case BranchTree(m, f, s, n, _) =>
      && SliceSeparate(m) && SliceSeparate(f) && SliceSeparate(s) && SliceSeparate(n)
      && Arrays(Within(m)) !! Arrays(Within(f)) !! Arrays(Within(s)) !! Arrays(Within(n))
  }

  ghost predicate SliceSeparate(s: Slice) {
    s.items !in Arrays(SlicesOf(s.kids)) && AllSeparate(s.kids)
  }

  ghost predicate AllSeparate(ts: seq<Tree>) {
    ts == [] || (Separate(ts[0]) && AllSeparate(ts[1..]) && Arrays(Slices(ts[0])) !! Arrays(SlicesOf(ts[1..])))
  }

  ghost predicate Equivalent(q: Query, r: Query) {
    forall w: World :: Matches(q, w) == Matches(r, w)
  }

  // The same slice with other elements that match the same rows.
  ghost predicate Renewed(s: Slice, s': Slice) {
    && s.items == s'.items && |s.kids| == |s'.kids|
    && forall i :: 0 <= i < |s.kids| ==> Equivalent(QueryOf(s.kids[i]), QueryOf(s'.kids[i]))
  }

  ghost predicate RenewedTree(t: Tree, t': Tree) {
    && t.BranchTree? && t'.BranchTree? && t.minShould == t'.minShould
    && Renewed(t.must, t'.must) && Renewed(t.filter, t'.filter)
    && Renewed(t.should, t'.should) && Renewed(t.mustNot, t'.mustNot)
  }

  ghost predicate GroupFolded(s: Slice, s': Slice) {
    FoldAll(QueriesOf(s.kids)) == Ok(QueriesOf(s'.kids))
  }

  ghost predicate GroupsFolded(t: Tree, t': Tree)
    requires t.BranchTree? && t'.BranchTree?
  {
    && GroupFolded(t.must, t'.must) && GroupFolded(t.filter, t'.filter)
    && GroupFolded(t.should, t'.should) && GroupFolded(t.mustNot, t'.mustNot)
  }

  ghost function SlicesBelow(t: Tree): set<Slice>
    requires t.BranchTree?
  {
    SlicesOf(t.must.kids) + SlicesOf(t.filter.kids) + SlicesOf(t.should.kids) + SlicesOf(t.mustNot.kids)
  }

  // Each tree is the folded form of its counterpart.
  ghost predicate FoldedTo(ts: seq<Tree>, folded: seq<Tree>) {
    |ts| == |folded| && forall i :: 0 <= i < |ts| ==> Fold(QueryOf(ts[i])) == Ok(QueryOf(folded[i]))
  }

  // Nothing but the slice's elements and what they reach is touched.
  method FoldSlice(items: array<Node>, ghost s: Slice) returns (error: Option<Error>, ghost after: Slice)
    requires s.items == items && SliceSeparate(s) && AllStored(Within(s))
    modifies Arrays(Within(s))
    ensures AllStored(Within(after)) && Renewed(s, after)
    ensures forall a :: a in Arrays(Within(after)) ==> a in Arrays(Within(s)) || fresh(a)
    ensures error.Some? ==> FoldAll(QueriesOf(s.kids)) == Err(error.value)
    ensures error.None? ==> FoldAll(QueriesOf(s.kids)) == Ok(QueriesOf(after.kids))
    ensures error.None? ==> fresh(Arrays(SlicesOf(after.kids)))
    decreases s, 0
  {
    hide *;
    SliceParts(s);
    assert allocated(Arrays(Within(s)));
    ghost var region := Arrays(Within(s));
    ghost var kids := s.kids; // what the elements root by now
    NothingDone(s);
    error := None;
    var i := 0;
    while i < items.Length
      invariant 0 <= i <= items.Length == |s.kids| == |kids| && kids[i..] == s.kids[i..]
      invariant Stored(Slice(items, kids))
      invariant AllStored(SlicesOf(kids[..i])) && fresh(Arrays(SlicesOf(kids[..i])))
      invariant Arrays(SlicesOf(kids[..i])) !! region
      invariant AllStored(SlicesOf(kids[i..])) && AllSeparate(kids[i..])
      invariant items !in Arrays(SlicesOf(kids[i..])) && Arrays(SlicesOf(kids[i..])) <= region
      invariant FoldedTo(s.kids[..i], kids[..i])
    {
      ghost var done, kid, rest := kids[..i], kids[i], kids[i + 1..];
      Split(kids[i..]);
      Element(Slice(items, kids), i);
      assert kids[i..][1..] == rest;
      assert allocated(Arrays(SlicesOf(done))) && Arrays(SlicesOf(done)) !! Arrays(Slices(kid));
      var child, kidAfter, folded := FoldNode(items[i], kid);
      assert AllStored(SlicesOf(done));
      assert AllStored(SlicesOf(rest));
      if child.Err? {
        after := Slice(items, kids[i := kidAfter]);
        assert after.kids == done + [kidAfter] + rest;
        SameRoot(items, kids, i, kidAfter);
        SlicesSnoc(done, kidAfter);
        SlicesAppend(done + [kidAfter], rest);
        WithinStored(after);
        assert s.kids[i + 1..] == rest && Arrays(SlicesOf(rest)) <= region && Arrays(Slices(kid)) <= region;
        Stopped(s, done, kidAfter, after, child.error);
        assert Arrays(Within(after))
          == {items} + (Arrays(SlicesOf(done)) + Arrays(Slices(kidAfter)) + Arrays(SlicesOf(rest)));
        return Some(child.error), after;
      }
      ghost var nodes := items[..];
      StoredIsRoots(items, kids);
      Reroot(nodes, kids, i, folded);
      assert items !in Arrays(SlicesOf(done)) && items !in Arrays(Slices(folded));
      items[i] := child.value;
      assert items[..] == nodes[i := NodeOf(folded)];
      assert AllStored(SlicesOf(done));
      assert AllStored(SlicesOf(rest));
      assert AllStored(Slices(folded));
      kids := kids[i := folded];
      StoredIsRoots(items, kids);
      assert kids[..i + 1] == done + [folded] && s.kids[..i + 1] == s.kids[..i] + [kid];
      SlicesSnoc(done, folded);
      FoldedSnoc(s.kids[..i], done, kid, folded);
      i := i + 1;
    }
    after := Slice(items, kids);
    assert s.kids[..i] == s.kids && kids[..i] == kids;
    WithinStored(after);
    Finished(s, after);
  }

  ghost predicate Roots(nodes: seq<Node>, kids: seq<Tree>) {
    |nodes| == |kids| && forall j :: 0 <= j < |kids| ==> nodes[j] == NodeOf(kids[j])
  }

  lemma {:induction false} StoredIsRoots(items: array<Node>, kids: seq<Tree>)
    ensures Stored(Slice(items, kids)) <==> Roots(items[..], kids)
  {
    assert forall j :: 0 <= j < items.Length ==> items[j] == items[..][j];
  }

  lemma {:induction false} Reroot(nodes: seq<Node>, kids: seq<Tree>, i: nat, kid: Tree)
    requires Roots(nodes, kids) && i < |kids|
    ensures Roots(nodes[i := NodeOf(kid)], kids[i := kid])
  {
  }

  lemma {:induction false} SameRoot(items: array<Node>, kids: seq<Tree>, i: nat, kid: Tree)
    requires Stored(Slice(items, kids)) && i < |kids| && NodeOf(kid) == NodeOf(kids[i])
    ensures Stored(Slice(items, kids[i := kid]))
  {
  }

  lemma {:induction false} WithinStored(s: Slice)
    requires Stored(s) && AllStored(SlicesOf(s.kids))
    ensures AllStored(Within(s)) && Arrays(Within(s)) == {s.items} + Arrays(SlicesOf(s.kids))
  {
  }

  lemma {:induction false} NothingDone(s: Slice)
    ensures AllStored(SlicesOf(s.kids[..0])) && Arrays(SlicesOf(s.kids[..0])) == {}
    ensures FoldedTo(s.kids[..0], s.kids[..0])
  {
  }

  lemma {:induction false} SliceParts(s: Slice)
    requires SliceSeparate(s) && AllStored(Within(s))
    ensures Stored(s) && AllStored(SlicesOf(s.kids)) && AllSeparate(s.kids)
    ensures s.items !in Arrays(SlicesOf(s.kids))
    ensures Arrays(Within(s)) == {s.items} + Arrays(SlicesOf(s.kids))
    ensures s.items.Length == |s.kids|
  {
  }

  lemma {:induction false} Split(ts: seq<Tree>)
    requires ts != [] && AllSeparate(ts) && AllStored(SlicesOf(ts))
    ensures Separate(ts[0]) && AllStored(Slices(ts[0])) && AllSeparate(ts[1..]) && AllStored(SlicesOf(ts[1..]))
    ensures Arrays(SlicesOf(ts)) == Arrays(Slices(ts[0])) + Arrays(SlicesOf(ts[1..]))
    ensures Arrays(Slices(ts[0])) !! Arrays(SlicesOf(ts[1..]))
  {
    SlicesCons(ts[0], ts[1..]);
    assert ts == [ts[0]] + ts[1..];
  }

  lemma {:induction false} SlicesCons(t: Tree, ts: seq<Tree>)
    ensures SlicesOf([t] + ts) == Slices(t) + SlicesOf(ts)
  {
    assert forall u :: u in [t] + ts <==> u == t || u in ts;
  }

  lemma {:induction false} SlicesSnoc(ts: seq<Tree>, t: Tree)
    ensures SlicesOf(ts + [t]) == SlicesOf(ts) + Slices(t)
    ensures Arrays(SlicesOf(ts + [t])) == Arrays(SlicesOf(ts)) + Arrays(Slices(t))
    ensures AllStored(SlicesOf(ts)) && AllStored(Slices(t)) ==> AllStored(SlicesOf(ts + [t]))
  {
    assert forall u :: u in ts + [t] <==> u == t || u in ts;
  }

  lemma {:induction false} SlicesAppend(ts: seq<Tree>, us: seq<Tree>)
    ensures SlicesOf(ts + us) == SlicesOf(ts) + SlicesOf(us)
    ensures Arrays(SlicesOf(ts + us)) == Arrays(SlicesOf(ts)) + Arrays(SlicesOf(us))
    ensures AllStored(SlicesOf(ts)) && AllStored(SlicesOf(us)) ==> AllStored(SlicesOf(ts + us))
  {
    assert forall u :: u in ts + us <==> u in ts || u in us;
  }

  lemma {:induction false} FoldedSnoc(ts: seq<Tree>, done: seq<Tree>, t: Tree, folded: Tree)
    requires FoldedTo(ts, done) && Fold(QueryOf(t)) == Ok(QueryOf(folded))
    ensures FoldedTo(ts + [t], done + [folded])
  {
  }

  lemma {:induction false} Element(s: Slice, i: nat)
    requires Stored(s) && i < |s.kids|
    ensures i < s.items.Length == |s.kids| && s.items[i] == NodeOf(s.kids[i])
  {
  }

  lemma {:induction false} Finished(s: Slice, after: Slice)
    requires FoldedTo(s.kids, after.kids) && s.items == after.items
    ensures Renewed(s, after) && FoldAll(QueriesOf(s.kids)) == Ok(QueriesOf(after.kids))
  {
    FoldedQueries(s.kids, after.kids);
    FoldedIsEquivalent(s.kids, after.kids);
  }

  lemma {:induction false} Stopped(s: Slice, done: seq<Tree>, kid: Tree, after: Slice, e: Error)
    requires |done| < |s.kids| && after == Slice(s.items, done + [kid] + s.kids[|done| + 1..])
    requires FoldedTo(s.kids[..|done|], done)
    requires Fold(QueryOf(s.kids[|done|])) == Err(e) && Equivalent(QueryOf(kid), QueryOf(s.kids[|done|]))
    ensures Renewed(s, after) && FoldAll(QueriesOf(s.kids)) == Err(e)
  {
    hide Fold, FoldAll, QueryOf, QueriesOf, Equivalent;
    FoldedIsEquivalent(s.kids[..|done|], done);
    assert forall i :: 0 <= i < |done| ==> s.kids[..|done|][i] == s.kids[i];
    StoppedQueries(s.kids, |done|, e);
    forall i | 0 <= i < |s.kids| ensures Equivalent(QueryOf(s.kids[i]), QueryOf(after.kids[i])) {
      SelfEquivalent(QueryOf(s.kids[i]));
      SymmetricEquivalent(QueryOf(kid), QueryOf(s.kids[|done|]));
    }
  }

  lemma {:induction false} SelfEquivalent(q: Query)
    ensures Equivalent(q, q)
  {
  }

  lemma {:induction false} SymmetricEquivalent(q: Query, r: Query)
    requires Equivalent(q, r)
    ensures Equivalent(r, q)
  {
  }

  lemma {:induction false} StoppedQueries(ts: seq<Tree>, n: nat, e: Error)
    requires n < |ts| && Fold(QueryOf(ts[n])) == Err(e)
    requires forall i :: 0 <= i < n ==> Fold(QueryOf(ts[i])).Ok?
    ensures FoldAll(QueriesOf(ts)) == Err(e)
  {
    hide Fold, QueryOf;
    assert QueriesOf(ts)[1..] == QueriesOf(ts[1..]);
    if n > 0 {
      StoppedQueries(ts[1..], n - 1, e);
    }
  }

  lemma {:induction false} FoldedQueries(ts: seq<Tree>, folded: seq<Tree>)
    requires FoldedTo(ts, folded)
    ensures FoldAll(QueriesOf(ts)) == Ok(QueriesOf(folded))
  {
    if ts != [] {
      FoldedQueries(ts[1..], folded[1..]);
      assert QueriesOf(ts)[1..] == QueriesOf(ts[1..]);
    }
  }

  lemma {:induction false} FoldedIsEquivalent(ts: seq<Tree>, folded: seq<Tree>)
    requires FoldedTo(ts, folded)
    ensures forall i :: 0 <= i < |ts| ==> Equivalent(QueryOf(ts[i]), QueryOf(folded[i]))
  {
    forall i, w: World | 0 <= i < |ts| ensures Matches(QueryOf(ts[i]), w) == Matches(QueryOf(folded[i]), w) {
      FoldPreserves(QueryOf(ts[i]), w);
    }
  }

  method FoldNode(n: Node, ghost t: Tree) returns (r: Result<Node>, ghost after: Tree, ghost folded: Tree)
    requires Separate(t) && AllStored(Slices(t)) && n == NodeOf(t)
    modifies Arrays(Slices(t))
    // the caller's tree: same root, overwritten below it, same matches
    ensures NodeOf(after) == n && AllStored(Slices(after))
    ensures Equivalent(QueryOf(after), QueryOf(t))
    ensures forall a :: a in Arrays(Slices(after)) ==> a in Arrays(Slices(t)) || fresh(a)
    // the result
    ensures r.Err? ==> Fold(QueryOf(t)) == Err(r.error)
    ensures r.Ok? ==> Fold(QueryOf(t)) == Ok(QueryOf(folded)) && r.value == NodeOf(folded)
    ensures r.Ok? ==> AllStored(Slices(folded)) && fresh(Arrays(Slices(folded)))
    decreases t, 1
  {
    hide *;
    NodeShape(t);
    match n
    case Leaf(_) =>
      LeafIsFolded(t);
      return Ok(n), t, t;
    case Branch(must, filter, should, mustNot, minShould) =>
      BranchParts(t);
      var error;
      error, after := FoldGroups(must, filter, should, mustNot, minShould, t);
      folded := after;
      RenewedBranch(t, after);
      NodeShape(after);
      assert NodeOf(after) == n;
      if error.Some? {
        return Err(error.value), after, t;
      }
      BranchFolds(t, after);
      assert allocated(Arrays(Slices(after)));
      r, folded := BuildFolded(must, filter, should, mustNot, minShould, after);
      assert forall a :: a in Arrays(SlicesBelow(after)) ==> fresh(a);
  }

  // The four clause groups, in the order fold visits them; the first error stops it.
  method FoldGroups(must: array<Node>, filter: array<Node>, should: array<Node>, mustNot: array<Node>,
                    minShould: nat, ghost t: Tree) returns (error: Option<Error>, ghost after: Tree)
    requires Separate(t) && AllStored(Slices(t)) && t.BranchTree?
    requires Branch(must, filter, should, mustNot, minShould) == NodeOf(t)
    modifies Arrays(Slices(t))
    ensures AllStored(Slices(after)) && RenewedTree(t, after)
    ensures forall a :: a in Arrays(Slices(after)) ==> a in Arrays(Slices(t)) || fresh(a)
    ensures error.Some? ==> Fold(QueryOf(t)) == Err(error.value)
    ensures error.None? ==> GroupsFolded(t, after) && fresh(Arrays(SlicesBelow(after)))
    decreases t, 0
  {
    hide *;
    NodeShape(t);
    BranchParts(t);
    SelfRenewed(t);
    ghost var region := Arrays(Slices(t));
    assert allocated(region);
    ghost var m, f, s, x := t.must, t.filter, t.should, t.mustNot;
    error, m := FoldSlice(must, t.must);
    assert AllStored(Within(f));
    assert AllStored(Within(s));
    assert AllStored(Within(x));
    if error.None? {
      assert allocated(Arrays(Within(m))) && Arrays(Within(m)) !! Arrays(Within(t.filter));
      error, f := FoldSlice(filter, t.filter);
      assert AllStored(Within(m));
      assert AllStored(Within(s));
      assert AllStored(Within(x));
      if error.None? {
        assert allocated(Arrays(Within(m))) && Arrays(Within(m)) !! Arrays(Within(t.should));
        assert allocated(Arrays(Within(f))) && Arrays(Within(f)) !! Arrays(Within(t.should));
        error, s := FoldSlice(should, t.should);
        assert AllStored(Within(m));
        assert AllStored(Within(f));
        assert AllStored(Within(x));
        if error.None? {
          assert allocated(Arrays(Within(m))) && Arrays(Within(m)) !! Arrays(Within(t.mustNot));
          assert allocated(Arrays(Within(f))) && Arrays(Within(f)) !! Arrays(Within(t.mustNot));
          assert allocated(Arrays(Within(s))) && Arrays(Within(s)) !! Arrays(Within(t.mustNot));
          error, x := FoldSlice(mustNot, t.mustNot);
          assert AllStored(Within(m));
          assert AllStored(Within(f));
          assert AllStored(Within(s));
        }
      }
    }
    after := BranchTree(m, f, s, x, minShould);
    assert region == Arrays(Within(t.must)) + Arrays(Within(t.filter)) + Arrays(Within(t.should))
      + Arrays(Within(t.mustNot));
    AllRenewed(t, after);
    GroupsTogether(after);
    if error.Some? {
      ErrorOfGroups(t, error.value);
    } else {
      GroupsDone(t, after);
    }
  }

  lemma {:induction false} NodeShape(t: Tree)
    ensures t.LeafTree? <==> NodeOf(t).Leaf?
    ensures t.LeafTree? ==> NodeOf(t) == Leaf(t.query)
    ensures t.BranchTree? ==>
      NodeOf(t) == Branch(t.must.items, t.filter.items, t.should.items, t.mustNot.items, t.minShould)
  {
  }

  lemma {:induction false} LeafIsFolded(t: Tree)
    requires t.LeafTree? && Separate(t)
    ensures Fold(QueryOf(t)) == Ok(QueryOf(t)) && NodeOf(t) == Leaf(t.query) && Slices(t) == {} && Arrays({}) == {}
    ensures AllStored({}) && Equivalent(QueryOf(t), QueryOf(t))
  {
  }

  lemma {:induction false} BranchParts(t: Tree)
    requires t.BranchTree? && Separate(t) && AllStored(Slices(t))
    ensures NodeOf(t) == Branch(t.must.items, t.filter.items, t.should.items, t.mustNot.items, t.minShould)
    ensures SliceSeparate(t.must) && SliceSeparate(t.filter) && SliceSeparate(t.should) && SliceSeparate(t.mustNot)
    ensures Arrays(Within(t.must)) !! Arrays(Within(t.filter)) !! Arrays(Within(t.should)) !! Arrays(Within(t.mustNot))
    ensures AllStored(Within(t.must)) && AllStored(Within(t.filter))
    ensures AllStored(Within(t.should)) && AllStored(Within(t.mustNot))
    ensures Arrays(Slices(t))
      == Arrays(Within(t.must)) + Arrays(Within(t.filter)) + Arrays(Within(t.should)) + Arrays(Within(t.mustNot))
  {
  }

  lemma {:induction false} RenewedBranch(t: Tree, t': Tree)
    requires RenewedTree(t, t')
    ensures t'.BranchTree? && t.minShould == t'.minShould
    ensures NodeOf(t') == NodeOf(t) && Equivalent(QueryOf(t'), QueryOf(t))
  {
    forall w: World ensures Matches(QueryOf(t'), w) == Matches(QueryOf(t), w) {
      Congruence(QueryOf(t), QueryOf(t'), w);
    }
  }

  lemma {:induction false} BranchFolds(t: Tree, t': Tree)
    requires RenewedTree(t, t') && GroupsFolded(t, t')
    ensures Fold(QueryOf(t)) == Simplify(QueriesOf(t'.must.kids), QueriesOf(t'.filter.kids), QueriesOf(t'.should.kids),
                                         QueriesOf(t'.mustNot.kids), t.minShould)
  {
  }

  lemma {:induction false} SelfRenewed(t: Tree)
    requires t.BranchTree?
    ensures Renewed(t.must, t.must) && Renewed(t.filter, t.filter)
    ensures Renewed(t.should, t.should) && Renewed(t.mustNot, t.mustNot)
  {
  }

  lemma {:induction false} AllRenewed(t: Tree, t': Tree)
    requires t.BranchTree? && t'.BranchTree? && t.minShould == t'.minShould
    requires Renewed(t.must, t'.must) && Renewed(t.filter, t'.filter)
    requires Renewed(t.should, t'.should) && Renewed(t.mustNot, t'.mustNot)
    ensures RenewedTree(t, t')
  {
  }

  lemma {:induction false} GroupsTogether(t: Tree)
    requires t.BranchTree?
    requires AllStored(Within(t.must)) && AllStored(Within(t.filter))
    requires AllStored(Within(t.should)) && AllStored(Within(t.mustNot))
    ensures AllStored(Slices(t))
    ensures Arrays(Slices(t))
      == Arrays(Within(t.must)) + Arrays(Within(t.filter)) + Arrays(Within(t.should)) + Arrays(Within(t.mustNot))
    ensures Arrays(SlicesBelow(t)) == Arrays(SlicesOf(t.must.kids)) + Arrays(SlicesOf(t.filter.kids))
                                    + Arrays(SlicesOf(t.should.kids)) + Arrays(SlicesOf(t.mustNot.kids))
  {
    var m, f, s, x := SlicesOf(t.must.kids), SlicesOf(t.filter.kids), SlicesOf(t.should.kids), SlicesOf(t.mustNot.kids);
    ArraysOfUnion(m, f, s, x);
    ArraysOfUnion(Within(t.must), Within(t.filter), Within(t.should), Within(t.mustNot));
    StoredUnion(Within(t.must), Within(t.filter), Within(t.should), Within(t.mustNot));
  }

  lemma {:induction false} ArraysOfUnion(a: set<Slice>, b: set<Slice>, c: set<Slice>, d: set<Slice>)
    ensures Arrays(a + b + c + d) == Arrays(a) + Arrays(b) + Arrays(c) + Arrays(d)
  {
  }

  lemma {:induction false} StoredUnion(a: set<Slice>, b: set<Slice>, c: set<Slice>, d: set<Slice>)
    ensures AllStored(a + b + c + d) <==> AllStored(a) && AllStored(b) && AllStored(c) && AllStored(d)
  {
  }

  lemma {:induction false} GroupsDone(t: Tree, t': Tree)
    requires t.BranchTree? && t'.BranchTree? && t.minShould == t'.minShould
    requires FoldAll(QueriesOf(t.must.kids)) == Ok(QueriesOf(t'.must.kids))
    requires FoldAll(QueriesOf(t.filter.kids)) == Ok(QueriesOf(t'.filter.kids))
    requires FoldAll(QueriesOf(t.should.kids)) == Ok(QueriesOf(t'.should.kids))
    requires FoldAll(QueriesOf(t.mustNot.kids)) == Ok(QueriesOf(t'.mustNot.kids))
    ensures GroupsFolded(t, t')
  {
  }

  lemma {:induction false} ErrorOfGroups(t: Tree, e: Error)
    requires t.BranchTree?
    requires
      var must, filter := FoldAll(QueriesOf(t.must.kids)), FoldAll(QueriesOf(t.filter.kids));
      var should, mustNot := FoldAll(QueriesOf(t.should.kids)), FoldAll(QueriesOf(t.mustNot.kids));
      || must == Err(e)
      || (must.Ok? && filter == Err(e))
      || (must.Ok? && filter.Ok? && should == Err(e))
      || (must.Ok? && filter.Ok? && should.Ok? && mustNot == Err(e))
    ensures Fold(QueryOf(t)) == Err(e)
  {
  }

  // ----- the new bool, over fresh slices -----

  method ContainsWhere(items: array<Node>, q: Query, ghost s: Slice) returns (found: bool)
    requires s.items == items && Stored(s) && !q.Bool?
    ensures found <==> q in QueriesOf(s.kids)
  {
    hide *;
    SliceLengths(s);
    QueryMembers(s.kids, q);
    for i := 0 to items.Length
      invariant forall j :: 0 <= j < i ==> QueryOf(s.kids[j]) != q
    {
      Element(s, i);
      SameLeaf(s.kids[i], q);
      if items[i] == Leaf(q) {
        return true;
      }
    }
    return false;
  }

  method DropWhere(items: array<Node>, q: Query, ghost s: Slice) returns (kept: array<Node>, ghost k: Slice)
    requires s.items == items && Stored(s) && !q.Bool?
    ensures fresh(kept) && k.items == kept && Stored(k)
    ensures QueriesOf(k.kids) == Without(QueriesOf(s.kids), q)
    ensures forall t :: t in k.kids ==> t in s.kids
  {
    hide *;
    var out: seq<Node> := [];
    ghost var kids: seq<Tree> := [];
    NoClauses(s, q);
    for i := 0 to items.Length
      invariant Roots(out, kids)
      invariant QueriesOf(kids) == Without(QueriesOf(s.kids[..i]), q)
      invariant forall t :: t in kids ==> t in s.kids
    {
      assert s.kids[..i + 1] == s.kids[..i] + [s.kids[i]];
      QueriesSnoc(s.kids[..i], s.kids[i]);
      WithoutSnoc(QueriesOf(s.kids[..i]), QueryOf(s.kids[i]), q);
      SameLeaf(s.kids[i], q);
      Element(s, i);
      if items[i] != Leaf(q) {
        QueriesSnoc(kids, s.kids[i]);
        RootsSnoc(out, kids, s.kids[i]);
        out := out + [items[i]];
        kids := kids + [s.kids[i]];
      }
    }
    assert s.kids[..items.Length] == s.kids;
    kept := new Node[|out|](i requires 0 <= i < |out| => out[i]);
    assert kept[..] == out;
    k := Slice(kept, kids);
    StoredIsRoots(kept, kids);
  }

  lemma {:induction false} NoClauses(s: Slice, q: Query)
    requires Stored(s)
    ensures s.items.Length == |s.kids| && Roots([], []) && QueriesOf([]) == Without(QueriesOf(s.kids[..0]), q)
  {
  }

  lemma {:induction false} RootsSnoc(nodes: seq<Node>, kids: seq<Tree>, t: Tree)
    requires Roots(nodes, kids)
    ensures Roots(nodes + [NodeOf(t)], kids + [t])
  {
  }

  lemma {:induction false} QueriesSnoc(ts: seq<Tree>, t: Tree)
    ensures QueriesOf(ts + [t]) == QueriesOf(ts) + [QueryOf(t)]
  {
  }

  lemma {:induction false} WithoutSnoc(qs: seq<Query>, c: Query, drop: Query)
    ensures Without(qs + [c], drop) == if c == drop then Without(qs, drop) else Without(qs, drop) + [c]
  {
    if qs != [] {
      WithoutSnoc(qs[1..], c, drop);
      assert (qs + [c])[1..] == qs[1..] + [c];
    }
  }

  lemma {:induction false} SameLeaf(t: Tree, q: Query)
    requires !q.Bool?
    ensures NodeOf(t) == Leaf(q) <==> QueryOf(t) == q
  {
  }

  method BuildFolded(must: array<Node>, filter: array<Node>, should: array<Node>, mustNot: array<Node>,
                     minShould: nat, ghost t: Tree) returns (r: Result<Node>, ghost folded: Tree)
    requires t.BranchTree? && AllStored(Slices(t))
    requires Branch(must, filter, should, mustNot, minShould) == NodeOf(t)
    ensures var result := Simplify(QueriesOf(t.must.kids), QueriesOf(t.filter.kids), QueriesOf(t.should.kids),
                                   QueriesOf(t.mustNot.kids), t.minShould);
            && (r.Err? ==> result == Err(r.error))
            && (r.Ok? ==> result == Ok(QueryOf(folded)) && r.value == NodeOf(folded))
    ensures r.Ok? ==> AllStored(Slices(folded))
    ensures r.Ok? ==> forall a :: a in Arrays(Slices(folded)) ==> a in Arrays(SlicesBelow(t)) || fresh(a)
  {
    hide *;
    NodeShape(t);
    GroupsStored(t);
    assert allocated(Arrays(Slices(t)));
    var noneInMust := ContainsWhere(must, MatchNone, t.must);
    var noneInFilter := ContainsWhere(filter, MatchNone, t.filter);
    var allInMustNot := ContainsWhere(mustNot, MatchAll, t.mustNot);
    SimplifyCases(QueriesOf(t.must.kids), QueriesOf(t.filter.kids), QueriesOf(t.should.kids),
      QueriesOf(t.mustNot.kids), minShould);
    if noneInMust || noneInFilter || allInMustNot {
      ConstantTree(MatchNone);
      return Ok(Leaf(MatchNone)), LeafTree(MatchNone);
    }
    var newMust, m := DropWhere(must, MatchAll, t.must);
    var newFilter, f := DropWhere(filter, MatchAll, t.filter);
    var newMustNot, x := DropWhere(mustNot, MatchNone, t.mustNot);
    var impossible, tooMany, newShould, s := ShouldClauses(should, minShould, t.should);
    if impossible {
      ConstantTree(MatchNone);
      return Ok(Leaf(MatchNone)), LeafTree(MatchNone);
    } else if tooMany {
      return Err(Unsupported), t;
    }
    SliceLengths(m);
    SliceLengths(f);
    SliceLengths(s);
    SliceLengths(x);
    if newMust.Length == 0 && newFilter.Length == 0 && newShould.Length == 0 && newMustNot.Length == 0 {
      ConstantTree(MatchAll);
      return Ok(Leaf(MatchAll)), LeafTree(MatchAll);
    }
    folded := BranchTree(m, f, s, x, minShould);
    Assembled(t, folded);
    r := Ok(Branch(newMust, newFilter, newShould, newMustNot, minShould));
  }

  // Simplify, case by case.
  lemma {:induction false} SimplifyCases(must: seq<Query>, filter: seq<Query>, should: seq<Query>,
    mustNot: seq<Query>, minShould: nat)
    ensures var r, verdict := Simplify(must, filter, should, mustNot, minShould), KeepShould(should, minShould);
            var m, f, x := Without(must, MatchAll), Without(filter, MatchAll), Without(mustNot, MatchNone);
            if MatchNone in must || MatchNone in filter || MatchAll in mustNot then r == Ok(MatchNone)
            else if verdict.Impossible? then r == Ok(MatchNone)
            else if verdict.TooMany? then r == Err(Unsupported)
            else if |m| == |f| == |verdict.clauses| == |x| == 0 then r == Ok(MatchAll)
            else r == Ok(Bool(m, f, verdict.clauses, x, minShould))
  {
  }

  method ShouldClauses(items: array<Node>, minShould: nat, ghost s: Slice)
    returns (impossible: bool, tooMany: bool, kept: array<Node>, ghost k: Slice)
    requires s.items == items && Stored(s)
    ensures impossible == KeepShould(QueriesOf(s.kids), minShould).Impossible?
    ensures tooMany == KeepShould(QueriesOf(s.kids), minShould).TooMany?
    ensures !impossible && !tooMany ==> KeepShould(QueriesOf(s.kids), minShould) == Kept(QueriesOf(k.kids))
    ensures fresh(kept) && k.items == kept && Stored(k) && forall t :: t in k.kids ==> t in s.kids
  {
    hide Stored, Without, QueriesOf, QueryOf;
    var allInShould := ContainsWhere(items, MatchAll, s);
    var hadNone := ContainsWhere(items, MatchNone, s);
    kept, k := DropWhere(items, MatchNone, s);
    SliceLengths(k);
    impossible, tooMany := false, false;
    if (allInShould && minShould == 1) || (kept.Length > 0 && minShould == 0) {
      kept := new Node[0];
      k := Slice(kept, []);
      EmptySlice(k);
    } else if kept.Length > 0 && minShould > kept.Length {
      impossible := true;
    } else if kept.Length > 0 && minShould > 1 {
      tooMany := true;
    } else if kept.Length == 0 && hadNone && minShould >= 1 {
      impossible := true;
    }
  }

  lemma {:induction false} GroupsStored(t: Tree)
    requires t.BranchTree? && AllStored(Slices(t))
    ensures Stored(t.must) && Stored(t.filter) && Stored(t.should) && Stored(t.mustNot)
  {
    assert t.must in Slices(t) && t.filter in Slices(t) && t.should in Slices(t) && t.mustNot in Slices(t);
  }

  lemma {:induction false} ConstantTree(q: Query)
    requires !q.Bool?
    ensures QueryOf(LeafTree(q)) == q && NodeOf(LeafTree(q)) == Leaf(q) && Slices(LeafTree(q)) == {}
    ensures Arrays({}) == {} && AllStored({})
  {
  }

  lemma {:induction false} EmptySlice(s: Slice)
    requires s.items.Length == 0 && s.kids == []
    ensures Stored(s) && QueriesOf(s.kids) == []
  {
  }

  lemma {:induction false} SliceLengths(s: Slice)
    requires Stored(s)
    ensures s.items.Length == |s.kids|
  {
  }

  lemma {:induction false} QueryMembers(ts: seq<Tree>, q: Query)
    ensures q in QueriesOf(ts) <==> exists i :: 0 <= i < |ts| && QueryOf(ts[i]) == q
  {
    hide QueryOf, QueriesOf;
    assert forall i :: 0 <= i < |ts| ==> QueriesOf(ts)[i] in QueriesOf(ts);
  }

  lemma {:induction false} BelowWithin(t: Tree)
    requires t.BranchTree?
    ensures Slices(t) == {t.must, t.filter, t.should, t.mustNot} + SlicesBelow(t)
  {
  }

  lemma {:induction false} KidsSubset(ks: seq<Tree>, ts: seq<Tree>)
    requires forall k :: k in ks ==> k in ts
    ensures SlicesOf(ks) <= SlicesOf(ts)
  {
  }

  lemma {:induction false} Assembled(t: Tree, folded: Tree)
    requires t.BranchTree? && AllStored(Slices(t)) && folded.BranchTree?
    requires Stored(folded.must) && Stored(folded.filter) && Stored(folded.should) && Stored(folded.mustNot)
    requires forall k :: k in folded.must.kids ==> k in t.must.kids
    requires forall k :: k in folded.filter.kids ==> k in t.filter.kids
    requires forall k :: k in folded.should.kids ==> k in t.should.kids
    requires forall k :: k in folded.mustNot.kids ==> k in t.mustNot.kids
    ensures AllStored(Slices(folded))
    ensures Arrays(Slices(folded)) <= Arrays(SlicesBelow(t))
        + {folded.must.items, folded.filter.items, folded.should.items, folded.mustNot.items}
    ensures NodeOf(folded) == Branch(folded.must.items, folded.filter.items, folded.should.items,
                                     folded.mustNot.items, folded.minShould)
    ensures QueryOf(folded) == Bool(QueriesOf(folded.must.kids), QueriesOf(folded.filter.kids),
                                    QueriesOf(folded.should.kids), QueriesOf(folded.mustNot.kids), folded.minShould)
  {
    hide AllStored, Arrays, Within, SlicesOf, QueriesOf;
    var own := {folded.must, folded.filter, folded.should, folded.mustNot};
    KidsSubset(folded.must.kids, t.must.kids);
    KidsSubset(folded.filter.kids, t.filter.kids);
    KidsSubset(folded.should.kids, t.should.kids);
    KidsSubset(folded.mustNot.kids, t.mustNot.kids);
    BelowWithin(folded);
    BelowWithin(t);
    ArraysWithin(Slices(folded), SlicesBelow(t), folded);
    StoredWithin(Slices(folded), Slices(t), own);
  }

  lemma {:induction false} ArraysWithin(ss: set<Slice>, below: set<Slice>, t: Tree)
    requires t.BranchTree? && ss <= {t.must, t.filter, t.should, t.mustNot} + below
    ensures Arrays(ss) <= Arrays(below) + {t.must.items, t.filter.items, t.should.items, t.mustNot.items}
  {
  }

  lemma {:induction false} StoredWithin(ss: set<Slice>, stored: set<Slice>, own: set<Slice>)
    requires AllStored(stored) && ss <= stored + own && forall s :: s in own ==> Stored(s)
    ensures AllStored(ss)
  {
  }
}
