// Lists of positions: the positions of true in a list of flags.
module Indices {

  // The increasing list of the positions of true.
  function IndicesOf(flags: seq<bool>): (indices: seq<nat>)
    ensures forall k :: 0 <= k < |indices| ==> indices[k] < |flags|
  {
    if flags == [] then []
    else
      var last := |flags| - 1;
      IndicesOf(flags[..last]) + (if flags[last] then [last] else [])
  }

  lemma {:induction false} IndicesOfIncreasing(flags: seq<bool>)
    ensures var indices := IndicesOf(flags);
            && (forall i :: i in indices <==> 0 <= i < |flags| && flags[i])
            && (forall j, k :: 0 <= j < k < |indices| ==> indices[j] < indices[k])
  {
    if flags != [] {
      IndicesOfIncreasing(flags[..|flags| - 1]);
    }
  }

  lemma {:induction false} IndicesOfInjective(first: seq<bool>, second: seq<bool>)
    requires |first| == |second| && IndicesOf(first) == IndicesOf(second)
    ensures first == second
  {
    IndicesOfIncreasing(first);
    IndicesOfIncreasing(second);
    assert forall i :: 0 <= i < |first| ==> (first[i] <==> i in IndicesOf(first));
    assert forall i :: 0 <= i < |first| ==> (second[i] <==> i in IndicesOf(second));
  }

  // Keeps the indices that are flagged.
  function Filter(indices: seq<nat>, flags: seq<bool>): (filtered: seq<nat>)
    requires forall k :: 0 <= k < |indices| ==> indices[k] < |flags|
    ensures forall k :: 0 <= k < |filtered| ==> filtered[k] < |flags|
  {
    if indices == [] then []
    else
      var last := indices[|indices| - 1];
      Filter(indices[..|indices| - 1], flags) + (if flags[last] then [last] else [])
  }

  function Both(first: seq<bool>, second: seq<bool>): (both: seq<bool>)
    requires |first| == |second|
    ensures |both| == |first|
    ensures forall i :: 0 <= i < |both| ==> both[i] == (first[i] && second[i])
  {
    seq(|first|, i requires 0 <= i < |first| => first[i] && second[i])
  }

  lemma {:induction false} FilterIndicesOf(first: seq<bool>, second: seq<bool>, n: nat)
    requires |first| == |second| && n <= |first|
    ensures Filter(IndicesOf(first[..n]), second) == IndicesOf(Both(first, second)[..n])
  {
    if n > 0 {
      FilterIndicesOf(first, second, n - 1);
      var rest := IndicesOf(first[..n - 1]);
      assert first[..n][..n - 1] == first[..n - 1];
      assert Both(first, second)[..n][..n - 1] == Both(first, second)[..n - 1];
      if first[n - 1] {
        assert (rest + [n - 1])[..|rest|] == rest;
      } else {
        assert IndicesOf(first[..n]) == rest;
      }
    }
  }

  lemma {:induction false} FilterIndices(first: seq<bool>, second: seq<bool>)
    requires |first| == |second|
    ensures Filter(IndicesOf(first), second) == IndicesOf(Both(first, second))
  {
    FilterIndicesOf(first, second, |first|);
    assert first[..|first|] == first;
    assert Both(first, second)[..|first|] == Both(first, second);
  }

  lemma {:induction false} FilterStartsWith(indices: seq<nat>, n: nat, flags: seq<bool>)
    requires forall k :: 0 <= k < |indices| ==> indices[k] < |flags|
    requires n <= |indices| && Filter(indices[..n], flags) != []
    ensures Filter(indices, flags) != []
    ensures Filter(indices, flags)[0] == Filter(indices[..n], flags)[0]
    decreases |indices|
  {
    if n == |indices| {
      assert indices[..n] == indices;
    } else {
      var front := indices[..|indices| - 1];
      assert front[..n] == indices[..n];
      FilterStartsWith(front, n, flags);
    }
  }

  lemma {:induction false} IndicesOfNone(flags: seq<bool>)
    requires forall i :: 0 <= i < |flags| ==> !flags[i]
    ensures IndicesOf(flags) == []
  {
    if flags != [] {
      IndicesOfNone(flags[..|flags| - 1]);
    }
  }

  lemma {:induction false} IndicesOfOne(flags: seq<bool>, i: nat)
    requires i < |flags| && forall j :: 0 <= j < |flags| ==> flags[j] == (j == i)
    ensures IndicesOf(flags) == [i]
  {
    var last := |flags| - 1;
    if i < last {
      IndicesOfOne(flags[..last], i);
    } else {
      IndicesOfNone(flags[..last]);
    }
  }
}
