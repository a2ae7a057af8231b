// Three-way comparisons: negative, zero or positive, as std::string::compare
// returns them; and comparisons of lists built from comparisons of elements.
module Comparisons {

  // The comparison is a total preorder.
  ghost predicate IsComparison<T(!new)>(compare: (T, T) -> int) {
    && (forall x, y :: compare(x, y) < 0 <==> compare(y, x) > 0)
    && (forall x, y, z :: compare(x, y) <= 0 && compare(y, z) <= 0 ==> compare(x, z) <= 0)
  }

  // The first difference decides; a proper prefix is smaller.
  function CompareLists<T>(compare: (T, T) -> int, a: seq<T>, b: seq<T>): int {
    if a == [] || b == [] then |a| - |b|
    else if compare(a[0], b[0]) != 0 then compare(a[0], b[0])
    else CompareLists(compare, a[1..], b[1..])
  }

  lemma {:induction false} ListsAreAntisymmetric<T(!new)>(compare: (T, T) -> int, a: seq<T>, b: seq<T>)
    requires IsComparison(compare)
    ensures CompareLists(compare, a, b) < 0 <==> CompareLists(compare, b, a) > 0
    ensures CompareLists(compare, a, b) == 0 <==> CompareLists(compare, b, a) == 0
  {
    if a != [] && b != [] {
      ListsAreAntisymmetric(compare, a[1..], b[1..]);
      assert compare(a[0], b[0]) < 0 <==> compare(b[0], a[0]) > 0;
      assert compare(b[0], a[0]) < 0 <==> compare(a[0], b[0]) > 0;
    }
  }

  lemma {:induction false} ListsAreTransitive<T(!new)>(compare: (T, T) -> int, a: seq<T>, b: seq<T>, c: seq<T>)
    requires IsComparison(compare)
    requires CompareLists(compare, a, b) <= 0 && CompareLists(compare, b, c) <= 0
    ensures CompareLists(compare, a, c) <= 0
  {
    if a != [] && b != [] && c != [] {
      ElementsCompose(compare, a[0], b[0], c[0]);
      if compare(a[0], b[0]) == 0 && compare(b[0], c[0]) == 0 {
        ListsAreTransitive(compare, a[1..], b[1..], c[1..]);
      }
    }
  }

  lemma ElementsCompose<T(!new)>(compare: (T, T) -> int, x: T, y: T, z: T)
    requires IsComparison(compare) && compare(x, y) <= 0 && compare(y, z) <= 0
    ensures compare(x, z) <= 0
    ensures compare(x, z) == 0 <==> compare(x, y) == 0 && compare(y, z) == 0
  {
    assert compare(y, x) > 0 <==> compare(x, y) < 0;
    assert compare(z, y) > 0 <==> compare(y, z) < 0;
    assert compare(z, x) > 0 <==> compare(x, z) < 0;
    assert compare(x, y) > 0 <==> compare(y, x) < 0;
    assert compare(y, z) > 0 <==> compare(z, y) < 0;
    if compare(z, x) <= 0 {
      assert compare(y, x) <= 0;
      assert compare(z, y) <= 0;
    }
    if compare(x, y) == 0 && compare(y, z) == 0 {
      assert compare(z, x) <= 0;
    }
  }

  lemma ListComparison<T(!new)>(compare: (T, T) -> int)
    requires IsComparison(compare)
    ensures IsComparison((a: seq<T>, b: seq<T>) => CompareLists(compare, a, b))
  {
    forall a: seq<T>, b: seq<T>
      ensures CompareLists(compare, a, b) < 0 <==> CompareLists(compare, b, a) > 0
    {
      ListsAreAntisymmetric(compare, a, b);
    }
    forall a: seq<T>, b: seq<T>, c: seq<T> | CompareLists(compare, a, b) <= 0 && CompareLists(compare, b, c) <= 0
      ensures CompareLists(compare, a, c) <= 0
    {
      ListsAreTransitive(compare, a, b, c);
    }
  }

  lemma {:induction false} EqualListsHaveEqualLength<T>(compare: (T, T) -> int, a: seq<T>, b: seq<T>)
    requires CompareLists(compare, a, b) == 0
    ensures |a| == |b|
  {
    if a != [] && b != [] {
      EqualListsHaveEqualLength(compare, a[1..], b[1..]);
    }
  }

  // The second comparison decides when the first one does not.
  function Then(first: int, second: int): int {
    if first != 0 then first else second
  }

  lemma ThenComparison<T(!new)>(first: (T, T) -> int, second: (T, T) -> int)
    requires IsComparison(first) && IsComparison(second)
    ensures IsComparison((x: T, y: T) => Then(first(x, y), second(x, y)))
  {
    var both := (x: T, y: T) => Then(first(x, y), second(x, y));
    forall x: T, y: T
      ensures both(x, y) < 0 <==> both(y, x) > 0
    {
      assert first(x, y) < 0 <==> first(y, x) > 0;
      assert first(y, x) < 0 <==> first(x, y) > 0;
      assert second(x, y) < 0 <==> second(y, x) > 0;
    }
    forall x: T, y: T, z: T | both(x, y) <= 0 && both(y, z) <= 0
      ensures both(x, z) <= 0
    {
      ElementsCompose(first, x, y, z);
      if first(x, y) == 0 && first(y, z) == 0 {
        ElementsCompose(second, x, y, z);
      }
    }
  }

  // Comparing by a part of the value.
  lemma PartComparison<S(!new), T(!new)>(compare: (T, T) -> int, part: S -> T)
    requires IsComparison(compare)
    ensures IsComparison((x: S, y: S) => compare(part(x), part(y)))
  {
  }

  function CompareChars(a: char, b: char): int {
    a as int - b as int
  }

  function CompareStrings(a: string, b: string): int {
    CompareLists(CompareChars, a, b)
  }

  lemma StringComparison()
    ensures IsComparison(CompareStrings)
  {
    ListComparison(CompareChars);
    assert IsComparison((a: string, b: string) => CompareLists(CompareChars, a, b));
    var lists := (a: string, b: string) => CompareLists(CompareChars, a, b);
    assert forall a: string, b: string :: CompareStrings(a, b) == lists(a, b);
  }

  // What the standard library demands of the order that it sorts by.
  ghost predicate IsStrictWeakOrder<T(!new)>(less: (T, T) -> bool) {
    && (forall x :: !less(x, x))
    && (forall x, y, z :: less(x, y) && less(y, z) ==> less(x, z))
    && (forall x, y, z :: !less(x, y) && !less(y, z) ==> !less(x, z))
  }

  lemma ComparisonGivesOrder<T(!new)>(compare: (T, T) -> int)
    requires IsComparison(compare)
    ensures IsStrictWeakOrder((x: T, y: T) => compare(x, y) < 0)
  {
    var less := (x: T, y: T) => compare(x, y) < 0;
    forall x: T
      ensures !less(x, x)
    {
      assert compare(x, x) < 0 <==> compare(x, x) > 0;
    }
    forall x: T, y: T, z: T | less(x, y) && less(y, z)
      ensures less(x, z)
    {
      ElementsCompose(compare, x, y, z);
    }
    forall x: T, y: T, z: T | !less(x, y) && !less(y, z)
      ensures !less(x, z)
    {
      assert compare(y, x) <= 0 && compare(z, y) <= 0 by {
        assert compare(y, x) > 0 <==> compare(x, y) < 0;
        assert compare(z, y) > 0 <==> compare(y, z) < 0;
      }
      assert compare(z, x) <= 0;
      assert compare(x, z) < 0 <==> compare(z, x) > 0;
    }
  }

  // ---- Sorted lists without duplicates --------------------------------------

  predicate AreIncreasing<T>(compare: (T, T) -> int, keys: seq<T>) {
    forall i, j :: 0 <= i < j < |keys| ==> compare(keys[i], keys[j]) < 0
  }

  // Different values do not compare as equal.
  ghost predicate IsExact<T(!new)>(compare: (T, T) -> int) {
    forall x, y :: compare(x, y) == 0 ==> x == y
  }

  // The keys of a std::map after an insertion.
  function InsertKey<T>(compare: (T, T) -> int, keys: seq<T>, key: T): seq<T> {
    if keys == [] then [key]
    else if compare(key, keys[0]) < 0 then [key] + keys
    else if compare(key, keys[0]) == 0 then keys
    else [keys[0]] + InsertKey(compare, keys[1..], key)
  }

  lemma StringsAreExact()
    ensures IsExact(CompareStrings)
  {
    forall a: string, b: string | CompareStrings(a, b) == 0
      ensures a == b
    {
      EqualStrings(a, b);
    }
  }

  lemma {:induction false} EqualStrings(a: string, b: string)
    requires CompareStrings(a, b) == 0
    ensures a == b
  {
    if a != [] && b != [] {
      EqualStrings(a[1..], b[1..]);
      assert a == [a[0]] + a[1..] && b == [b[0]] + b[1..];
    }
  }

  lemma {:induction false} InsertedKeys<T(!new)>(compare: (T, T) -> int, keys: seq<T>, key: T)
    requires IsExact(compare)
    ensures forall k :: k in InsertKey(compare, keys, key) <==> k in keys || k == key
  {
    if keys != [] {
      InsertedKeys(compare, keys[1..], key);
    }
  }

  // A smaller element in front of an increasing list.
  lemma IncreasingInFront<T(!new)>(compare: (T, T) -> int, key: T, keys: seq<T>)
    requires AreIncreasing(compare, keys)
    requires forall k :: k in keys ==> compare(key, k) < 0
    ensures AreIncreasing(compare, [key] + keys)
  {
    var all := [key] + keys;
    forall i, j | 0 <= i < j < |all|
      ensures compare(all[i], all[j]) < 0
    {
      assert all[j] == keys[j - 1] && keys[j - 1] in keys;
    }
  }

  lemma FirstIsSmallest<T(!new)>(compare: (T, T) -> int, key: T, keys: seq<T>)
    requires IsComparison(compare) && AreIncreasing(compare, keys)
    requires keys != [] && compare(key, keys[0]) < 0
    ensures forall k :: k in keys ==> compare(key, k) < 0
  {
    forall i | 0 <= i < |keys|
      ensures compare(key, keys[i]) < 0
    {
      if i > 0 {
        ElementsCompose(compare, key, keys[0], keys[i]);
      }
    }
  }

  lemma {:induction false} InsertKeepsOrder<T(!new)>(compare: (T, T) -> int, keys: seq<T>, key: T)
    requires IsComparison(compare) && IsExact(compare) && AreIncreasing(compare, keys)
    ensures AreIncreasing(compare, InsertKey(compare, keys, key))
  {
    if keys != [] {
      if compare(key, keys[0]) < 0 {
        FirstIsSmallest(compare, key, keys);
        IncreasingInFront(compare, key, keys);
      } else if compare(key, keys[0]) > 0 {
        InsertKeepsOrder(compare, keys[1..], key);
        InsertedKeys(compare, keys[1..], key);
        assert compare(keys[0], key) < 0;
        assert forall k :: k in keys[1..] ==> compare(keys[0], k) < 0;
        IncreasingInFront(compare, keys[0], InsertKey(compare, keys[1..], key));
      }
    }
  }

  lemma IncreasingKeysDiffer<T(!new)>(compare: (T, T) -> int, keys: seq<T>)
    requires IsComparison(compare) && AreIncreasing(compare, keys)
    ensures forall i, j :: 0 <= i < j < |keys| ==> keys[i] != keys[j]
  {
    forall i, j | 0 <= i < j < |keys|
      ensures keys[i] != keys[j]
    {
      assert compare(keys[i], keys[i]) < 0 <==> compare(keys[i], keys[i]) > 0;
    }
  }
}
