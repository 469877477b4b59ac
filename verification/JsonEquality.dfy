/** jsonValueEqual (internal/esserver/write.go): equality of decoded JSON values. */
module JsonEquality {

  // A decoded value. Numbers keep their text; an object is a map, so a repeated name keeps its last value.
  datatype Json =
    | JNull
    | JBool(flag: bool)
    | JString(text: string)
    | JNumber(text: string)
    | JArray(items: seq<Json>)
    | JObject(members: map<string, Json>)

  predicate JsonValueEqual(a: Json, b: Json)
    decreases a, 1
  {
    match a
    case JNull => b.JNull?
    case JBool(x) => b.JBool? && x == b.flag
    case JString(x) => b.JString? && x == b.text
    case JNumber(x) => b.JNumber? && x == b.text
    case JArray(xs) => b.JArray? && |xs| == |b.items| && ItemsEqual(xs, b.items)
    case JObject(ms) =>
      b.JObject? && |ms| == |b.members|
      && forall k :: k in ms ==> k in b.members && JsonValueEqual(ms[k], b.members[k])
  }

  predicate ItemsEqual(xs: seq<Json>, ys: seq<Json>)
    requires |xs| == |ys|
    decreases xs, 0
  {
    xs == [] || (JsonValueEqual(xs[0], ys[0]) && ItemsEqual(xs[1..], ys[1..]))
  }

  /** It relates exactly the equal values, hence is reflexive, symmetric and transitive. */
  lemma {:induction false} EqualsExactly(a: Json, b: Json)
    ensures JsonValueEqual(a, b) <==> a == b
    decreases a, 1
  {
    match a {
      case JArray(xs) =>
        if b.JArray? && |xs| == |b.items| {
          ItemsExactly(xs, b.items);
        }
      case JObject(ms) =>
        if b.JObject? {
          MembersExactly(a, b);
        }
      case _ =>
    }
  }

  lemma {:induction false} ItemsExactly(xs: seq<Json>, ys: seq<Json>)
    requires |xs| == |ys|
    ensures ItemsEqual(xs, ys) <==> xs == ys
    decreases xs, 0
  {
    if xs != [] {
      EqualsExactly(xs[0], ys[0]);
      ItemsExactly(xs[1..], ys[1..]);
      assert xs == [xs[0]] + xs[1..] && ys == [ys[0]] + ys[1..];
    }
  }

  lemma {:induction false} MembersExactly(a: Json, b: Json)
    requires a.JObject? && b.JObject?
    ensures JsonValueEqual(a, b) <==> a == b
    decreases a, 0
  {
    forall k | k in a.members && k in b.members
      ensures JsonValueEqual(a.members[k], b.members[k]) <==> a.members[k] == b.members[k]
    {
      EqualsExactly(a.members[k], b.members[k]);
    }
    if JsonValueEqual(a, b) {
      assert a.members.Keys <= b.members.Keys;
      SameSize(a.members.Keys, b.members.Keys);
    }
  }

  lemma {:induction false} SameSize(x: set<string>, y: set<string>)
    requires x <= y && |x| == |y|
    ensures x == y
  {
    if k :| k in y && k !in x {
      assert x <= y - {k};
      Subset(x, y - {k});
    }
  }

  lemma {:induction false} Subset(x: set<string>, y: set<string>)
    requires x <= y
    ensures |x| <= |y|
  {
    if k :| k in x {
      Subset(x - {k}, y - {k});
    }
  }

  // ----- member order -----

  // The members of an object as written; the decoder keeps the last of a repeated name.
  function DecodeMembers(written: seq<(string, Json)>): map<string, Json> {
    if written == [] then map[]
    else DecodeMembers(written[..|written| - 1])[written[|written| - 1].0 := written[|written| - 1].1]
  }

  ghost predicate NamesDistinct(written: seq<(string, Json)>) {
    forall i, j :: 0 <= i < j < |written| ==> written[i].0 != written[j].0
  }

  lemma {:induction false} DecodedIs(written: seq<(string, Json)>)
    requires NamesDistinct(written)
    ensures forall k :: k in DecodeMembers(written) <==> exists i :: 0 <= i < |written| && written[i].0 == k
    ensures forall i :: 0 <= i < |written| ==>
      written[i].0 in DecodeMembers(written) && DecodeMembers(written)[written[i].0] == written[i].1
  {
    if written != [] {
      var n := |written| - 1;
      DecodedIs(written[..n]);
      assert forall i :: 0 <= i < n ==> written[..n][i] == written[i];
      forall k ensures k in DecodeMembers(written) <==> exists i :: 0 <= i < |written| && written[i].0 == k {
        if i :| 0 <= i < |written| && written[i].0 == k {
          assert i < n ==> written[..n][i].0 == k;
        }
      }
    }
  }

  /** Objects that differ only in the order of their members are equal. */
  lemma MemberOrderIsIrrelevant(a: seq<(string, Json)>, b: seq<(string, Json)>)
    requires NamesDistinct(a) && NamesDistinct(b) && multiset(a) == multiset(b)
    ensures JsonValueEqual(JObject(DecodeMembers(a)), JObject(DecodeMembers(b)))
  {
    DecodedIs(a);
    DecodedIs(b);
    var x, y := DecodeMembers(a), DecodeMembers(b);
    forall i | 0 <= i < |a| ensures a[i].0 in y && y[a[i].0] == a[i].1 {
      assert a[i] in multiset(a);
      assert a[i] in b;
      var j :| 0 <= j < |b| && b[j] == a[i];
    }
    forall j | 0 <= j < |b| ensures b[j].0 in x {
      assert b[j] in multiset(b);
      assert b[j] in a;
      var i :| 0 <= i < |a| && a[i] == b[j];
    }
    assert x == y;
    EqualsExactly(JObject(x), JObject(y));
  }
}
