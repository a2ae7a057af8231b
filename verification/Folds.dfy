// Steps that commute give the same result in any order.
module Folds {

  function Fold<A, S>(step: (A, S) -> S, list: seq<A>, state: S): S {
    if list == [] then state
    else step(list[|list| - 1], Fold(step, list[..|list| - 1], state))
  }

  function Without<A>(list: seq<A>, k: nat): seq<A>
    requires k < |list|
  {
    list[..k] + list[k + 1..]
  }

  // The steps keep the states of a kind, and commute on them.
  ghost predicate Commute<A(!new), S(!new)>(step: (A, S) -> S, kept: S -> bool, elements: set<A>) {
    && (forall a, s :: a in elements && kept(s) ==> kept(step(a, s)))
    && (forall a, b, s :: a in elements && b in elements && a != b && kept(s) ==>
          step(a, step(b, s)) == step(b, step(a, s)))
  }

  predicate AreIn<A(==)>(list: seq<A>, elements: set<A>) {
    forall a :: a in list ==> a in elements
  }

  lemma {:induction false} FoldKeeps<A(!new), S(!new)>(
    step: (A, S) -> S, kept: S -> bool, elements: set<A>, list: seq<A>, state: S
  )
    requires Commute(step, kept, elements) && AreIn(list, elements) && kept(state)
    ensures kept(Fold(step, list, state))
  {
    if list != [] {
      FoldKeeps(step, kept, elements, list[..|list| - 1], state);
    }
  }

  // Any step can be made the last one.
  lemma {:induction false} MoveToEnd<A(!new), S(!new)>(
    step: (A, S) -> S, kept: S -> bool, elements: set<A>, list: seq<A>, k: nat, state: S
  )
    requires Commute(step, kept, elements) && AreIn(list, elements) && kept(state) && k < |list|
    ensures Fold(step, list, state) == step(list[k], Fold(step, Without(list, k), state))
    decreases |list|
  {
    var n := |list| - 1;
    if k == n {
      assert Without(list, k) == list[..n];
    } else {
      var rest := Without(list[..n], k);
      MoveToEnd(step, kept, elements, list[..n], k, state);
      assert Without(list, k) == rest + [list[n]];
      assert Without(list, k)[..n - 1] == rest;
      FoldKeeps(step, kept, elements, rest, state);
    }
  }

  lemma RemoveSame<A>(first: seq<A>, second: seq<A>, k: nat)
    requires multiset(first) == multiset(second) && first != [] && k < |second| && second[k] == first[|first| - 1]
    ensures multiset(first[..|first| - 1]) == multiset(Without(second, k))
  {
    var front, last := first[..|first| - 1], first[|first| - 1];
    assert first == front + [last];
    assert second == second[..k] + [last] + second[k + 1..];
    assert multiset(first) == multiset(front) + multiset{last};
    assert multiset(second) == multiset(Without(second, k)) + multiset{last};
    assert multiset(front) == multiset(first) - multiset{last};
    assert multiset(Without(second, k)) == multiset(second) - multiset{last};
  }

  lemma {:induction false} FoldInAnyOrder<A(!new), S(!new)>(
    step: (A, S) -> S, kept: S -> bool, elements: set<A>, first: seq<A>, second: seq<A>, state: S
  )
    requires Commute(step, kept, elements) && AreIn(first, elements) && kept(state)
    requires multiset(first) == multiset(second)
    ensures Fold(step, first, state) == Fold(step, second, state)
    decreases |first|
  {
    assert |first| == |multiset(first)| == |multiset(second)| == |second|;
    if first != [] {
      var last := first[|first| - 1];
      assert last in multiset(second);
      var k :| 0 <= k < |second| && second[k] == last;
      assert AreIn(second, elements) by {
        assert forall a :: a in second ==> a in multiset(first);
      }
      MoveToEnd(step, kept, elements, second, k, state);
      RemoveSame(first, second, k);
      FoldInAnyOrder(step, kept, elements, first[..|first| - 1], Without(second, k), state);
    }
  }
}
