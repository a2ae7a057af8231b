// What a stable sort returns: the standard library's std::stable_sort is modelled
// by a stable insertion sort, and any other stable sort returns the same list.
module StableSorting {
  import opened Comparisons
  import opened Sequences

  ghost predicate IsSorted<T(!new)>(less: (T, T) -> bool, list: seq<T>) {
    forall i, j :: 0 <= i < j < |list| ==> !less(list[j], list[i])
  }

  predicate AreEquivalent<T>(less: (T, T) -> bool, x: T, y: T) {
    !less(x, y) && !less(y, x)
  }

  // The elements that are equivalent to x, in their order.
  function Equivalents<T>(less: (T, T) -> bool, list: seq<T>, x: T): seq<T> {
    if list == [] then []
    else
      var last := list[|list| - 1];
      Equivalents(less, list[..|list| - 1], x) + (if AreEquivalent(less, last, x) then [last] else [])
  }

  // The result holds equivalent elements in the order of the list, and as many of
  // them.
  ghost predicate IsStablePermutation<T(!new)>(less: (T, T) -> bool, list: seq<T>, result: seq<T>) {
    forall x :: Equivalents(less, result, x) == Equivalents(less, list, x)
  }

  // Puts x behind all elements that are not greater.
  function Insert<T>(less: (T, T) -> bool, list: seq<T>, x: T): seq<T> {
    if list == [] then [x]
    else
      var last := |list| - 1;
      if less(x, list[last]) then Insert(less, list[..last], x) + [list[last]] else list + [x]
  }

  function StableSort<T>(less: (T, T) -> bool, list: seq<T>): seq<T> {
    if list == [] then []
    else Insert(less, StableSort(less, list[..|list| - 1]), list[|list| - 1])
  }

  method Sort<T>(less: (T, T) -> bool, list: seq<T>) returns (sorted: seq<T>)
    ensures sorted == StableSort(less, list)
  {
    sorted := [];
    for i := 0 to |list|
      invariant sorted == StableSort(less, list[..i])
    {
      assert list[..i + 1][..i] == list[..i];
      sorted := Insert(less, sorted, list[i]);
    }
    assert list[..|list|] == list;
  }

  // ---- It sorts -------------------------------------------------------------

  lemma {:induction false} InsertHolds<T(!new)>(less: (T, T) -> bool, list: seq<T>, x: T)
    ensures |Insert(less, list, x)| == |list| + 1
    ensures forall i :: 0 <= i <= |list| ==> Insert(less, list, x)[i] == x || Insert(less, list, x)[i] in list
    ensures multiset(Insert(less, list, x)) == multiset(list) + multiset{x}
  {
    if list != [] {
      var last := |list| - 1;
      InsertHolds(less, list[..last], x);
      assert list == list[..last] + [list[last]];
    }
  }

  lemma {:induction false} InsertIsSorted<T(!new)>(less: (T, T) -> bool, list: seq<T>, x: T)
    requires IsStrictWeakOrder(less) && IsSorted(less, list)
    ensures IsSorted(less, Insert(less, list, x))
  {
    if list != [] {
      var last := |list| - 1;
      if less(x, list[last]) {
        InsertIsSorted(less, list[..last], x);
        InsertHolds(less, list[..last], x);
        var front := Insert(less, list[..last], x);
        forall i | 0 <= i < |front|
          ensures !less(list[last], front[i])
        {
          if front[i] != x {
            var k :| 0 <= k < last && list[k] == front[i];
          }
        }
      } else {
        forall i | 0 <= i < |list|
          ensures !less(x, list[i])
        {
          assert i < last ==> !less(list[last], list[i]);
        }
      }
    }
  }

  lemma {:induction false} SortIsSorted<T(!new)>(less: (T, T) -> bool, list: seq<T>)
    requires IsStrictWeakOrder(less)
    ensures IsSorted(less, StableSort(less, list))
    ensures multiset(StableSort(less, list)) == multiset(list)
  {
    if list != [] {
      var last := |list| - 1;
      SortIsSorted(less, list[..last]);
      InsertIsSorted(less, StableSort(less, list[..last]), list[last]);
      InsertHolds(less, StableSort(less, list[..last]), list[last]);
      assert list == list[..last] + [list[last]];
    }
  }

  // ---- It is stable ---------------------------------------------------------

  lemma {:induction false} EquivalentsOfAppend<T(!new)>(less: (T, T) -> bool, list: seq<T>, last: T, x: T)
    ensures Equivalents(less, list + [last], x) ==
            Equivalents(less, list, x) + if AreEquivalent(less, last, x) then [last] else []
  {
    assert (list + [last])[..|list|] == list;
  }

  lemma NotBothEquivalent<T(!new)>(less: (T, T) -> bool, x: T, z: T, y: T)
    requires IsStrictWeakOrder(less) && less(x, z)
    ensures !(AreEquivalent(less, x, y) && AreEquivalent(less, z, y))
  {
    assert !less(x, y) && !less(y, z) ==> !less(x, z);
  }

  lemma {:induction false} InsertKeepsOrder<T(!new)>(less: (T, T) -> bool, list: seq<T>, x: T, y: T)
    requires IsStrictWeakOrder(less)
    ensures Equivalents(less, Insert(less, list, x), y) ==
            Equivalents(less, list, y) + if AreEquivalent(less, x, y) then [x] else []
  {
    if list != [] {
      var last := |list| - 1;
      if less(x, list[last]) {
        InsertKeepsOrder(less, list[..last], x, y);
        EquivalentsOfAppend(less, Insert(less, list[..last], x), list[last], y);
        NotBothEquivalent(less, x, list[last], y);
      } else {
        EquivalentsOfAppend(less, list, x, y);
      }
    } else {
      assert [x][..0] == [];
    }
  }

  lemma {:induction false} SortIsStable<T(!new)>(less: (T, T) -> bool, list: seq<T>)
    requires IsStrictWeakOrder(less)
    ensures IsStablePermutation(less, list, StableSort(less, list))
  {
    forall x: T
      ensures Equivalents(less, StableSort(less, list), x) == Equivalents(less, list, x)
    {
      SortKeepsEquivalents(less, list, x);
    }
  }

  lemma {:induction false} SortKeepsEquivalents<T(!new)>(less: (T, T) -> bool, list: seq<T>, x: T)
    requires IsStrictWeakOrder(less)
    ensures Equivalents(less, StableSort(less, list), x) == Equivalents(less, list, x)
    decreases |list|
  {
    if list != [] {
      var last := |list| - 1;
      SortKeepsEquivalents(less, list[..last], x);
      InsertKeepsOrder(less, StableSort(less, list[..last]), list[last], x);
    }
  }

  // ---- It is the only one ---------------------------------------------------

  lemma {:induction false} EquivalentIsListed<T(!new)>(less: (T, T) -> bool, list: seq<T>, x: T)
    ensures forall y :: y in Equivalents(less, list, x) ==> y in list
    ensures forall i :: 0 <= i < |list| && AreEquivalent(less, list[i], x) ==> list[i] in Equivalents(less, list, x)
  {
    if list != [] {
      EquivalentIsListed(less, list[..|list| - 1], x);
    }
  }

  // The last elements of two sorted lists with the same elements.
  lemma SameLast<T(!new)>(less: (T, T) -> bool, first: seq<T>, second: seq<T>)
    requires IsStrictWeakOrder(less) && IsSorted(less, first) && IsSorted(less, second)
    requires IsStablePermutation(less, first, second) && first != []
    ensures second != [] && first[|first| - 1] == second[|second| - 1]
  {
    var x := first[|first| - 1];
    EquivalentIsListed(less, first, x);
    EquivalentIsListed(less, second, x);
    assert AreEquivalent(less, x, x);
    assert Equivalents(less, second, x) == Equivalents(less, first, x);
    assert x in second;
    var z := second[|second| - 1];
    EquivalentIsListed(less, first, z);
    EquivalentIsListed(less, second, z);
    assert AreEquivalent(less, z, z);
    assert Equivalents(less, second, z) == Equivalents(less, first, z);
    assert z in first;
    assert AreEquivalent(less, x, z) && AreEquivalent(less, z, x) by {
      var i :| 0 <= i < |first| && first[i] == z;
      var j :| 0 <= j < |second| && second[j] == x;
    }
    assert Equivalents(less, first, x)[|Equivalents(less, first, x)| - 1] == x;
    assert Equivalents(less, second, x)[|Equivalents(less, second, x)| - 1] == z;
  }

  lemma CancelRight<T>(a: seq<T>, b: seq<T>, c: seq<T>)
    requires a + c == b + c
    ensures a == b
  {
    assert |a + c| == |b + c|;
    SplitEqually(a, b, c, c);
  }

  lemma {:induction false} StableSortIsUnique<T(!new)>(less: (T, T) -> bool, first: seq<T>, second: seq<T>)
    requires IsStrictWeakOrder(less) && IsSorted(less, first) && IsSorted(less, second)
    requires IsStablePermutation(less, first, second)
    ensures first == second
    decreases |first|
  {
    if first == [] {
      if second != [] {
        SameLast(less, second, first);
      }
    } else {
      SameLast(less, first, second);
      var a, b := first[..|first| - 1], second[..|second| - 1];
      forall x: T
        ensures Equivalents(less, b, x) == Equivalents(less, a, x)
      {
        assert Equivalents(less, second, x) == Equivalents(less, first, x);
        CancelRight(Equivalents(less, b, x), Equivalents(less, a, x),
                    if AreEquivalent(less, first[|first| - 1], x) then [first[|first| - 1]] else []);
      }
      StableSortIsUnique(less, a, b);
    }
  }

  lemma {:induction false} SortOfSorted<T(!new)>(less: (T, T) -> bool, list: seq<T>)
    requires IsStrictWeakOrder(less) && IsSorted(less, list)
    ensures StableSort(less, list) == list
  {
    SortIsSorted(less, list);
    SortIsStable(less, list);
    StableSortIsUnique(less, list, StableSort(less, list));
  }
}
