/** Loops that append one result after another and stop at the first error. */
module Loops {
  import opened Wrappers

  // A list under construction, followed by what the rest of the loop still produces.
  function Prefixed<T>(done: seq<T>, rest: Result<seq<T>>): Result<seq<T>> {
    match rest case Ok(tail) => Ok(done + tail) case Err(e) => Err(e)
  }

  lemma Start<S, T>(items: seq<S>, rest: Result<seq<T>>)
    ensures items[0..] == items && Prefixed([], rest) == rest
  {
    if rest.Ok? {
      assert [] + rest.value == rest.value;
    }
  }

  lemma Rest<S>(items: seq<S>, i: nat)
    requires i < |items|
    ensures items[i..][0] == items[i] && items[i..][1..] == items[i + 1..] && items[i] in items
  {
  }

  lemma Append<T>(done: seq<T>, x: T, rest: Result<seq<T>>)
    ensures Prefixed(done, Prefixed([x], rest)) == Prefixed(done + [x], rest)
  {
    if rest.Ok? {
      assert done + ([x] + rest.value) == done + [x] + rest.value;
    }
  }

  lemma Finish<T>(done: seq<T>)
    ensures Prefixed(done, Ok([])) == Ok(done)
  {
    assert done + [] == done;
  }
}
