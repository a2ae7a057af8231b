// The order of the micro-operations of an instruction
// (exegesis/itineraries/decomposition.cc): address generations come first, and
// each memory write follows the address generation it belongs to.
module MicroOperations {

  // The indices of the port masks that the memory micro-operations use.
  datatype MemoryMasks = MemoryMasks(loadStore: nat, store: nat, write: nat) {
    predicate IsAddress(mask: nat) {
      mask == loadStore || mask == store
    }

    predicate IsComputation(mask: nat) {
      !IsAddress(mask) && mask != write
    }
  }

  predicate IsHistogram(histogram: seq<int>, masks: MemoryMasks) {
    && (forall i :: 0 <= i < |histogram| ==> histogram[i] >= 0)
    && masks.loadStore < |histogram| && masks.store < |histogram| && masks.write < |histogram|
    && !masks.IsAddress(masks.write)
  }

  function Min(a: int, b: int): int {
    if a < b then a else b
  }

  function Sum(histogram: seq<int>): int {
    if histogram == [] then 0 else Sum(histogram[..|histogram| - 1]) + histogram[|histogram| - 1]
  }

  lemma {:induction false} SumUpdate(histogram: seq<int>, i: nat, value: int)
    requires i < |histogram|
    ensures Sum(histogram[i := value]) == Sum(histogram) - histogram[i] + value
    decreases |histogram|
  {
    var last := |histogram| - 1;
    if i < last {
      assert histogram[i := value][..last] == histogram[..last][i := value];
      SumUpdate(histogram[..last], i, value);
    } else {
      assert histogram[i := value][..last] == histogram[..last];
    }
  }

  lemma {:induction false} SumOfZeros(histogram: seq<int>)
    requires forall i :: 0 <= i < |histogram| ==> histogram[i] == 0
    ensures Sum(histogram) == 0
  {
    if histogram != [] {
      SumOfZeros(histogram[..|histogram| - 1]);
    }
  }

  // ---- What the order is ----------------------------------------------------

  function Repeat(mask: nat, count: int): seq<nat> {
    if count <= 0 then [] else Repeat(mask, count - 1) + [mask]
  }

  function Pairs(address: nat, write: nat, count: int): seq<nat> {
    if count <= 0 then [] else Pairs(address, write, count - 1) + [address] + [write]
  }

  // The micro-operations that are not related to memory, mask by mask.
  function Computations(histogram: seq<int>, masks: MemoryMasks, n: nat): seq<nat>
    requires n <= |histogram|
  {
    if n == 0 then []
    else
      Computations(histogram, masks, n - 1) +
      (if masks.IsComputation(n - 1) then Repeat(n - 1, histogram[n - 1]) else [])
  }

  function NumComputationMasks(histogram: seq<int>, masks: MemoryMasks, n: nat): nat
    requires n <= |histogram|
  {
    if n == 0 then 0
    else
      NumComputationMasks(histogram, masks, n - 1) +
      (if masks.IsComputation(n - 1) && histogram[n - 1] != 0 then 1 else 0)
  }

  // The pairs of a store address with a write; then the load-store addresses are
  // paired with the writes that are left. The two kinds of addresses may be one.
  function StorePairs(histogram: seq<int>, masks: MemoryMasks): int
    requires IsHistogram(histogram, masks)
  {
    Min(histogram[masks.write], histogram[masks.store])
  }

  function LoadStorePairs(histogram: seq<int>, masks: MemoryMasks): int
    requires IsHistogram(histogram, masks)
  {
    if masks.loadStore == masks.store then 0
    else Min(histogram[masks.write] - StorePairs(histogram, masks), histogram[masks.loadStore])
  }

  function LeftOver(histogram: seq<int>, masks: MemoryMasks, mask: nat): int
    requires IsHistogram(histogram, masks) && mask < |histogram|
  {
    histogram[mask] -
    (if mask == masks.write then StorePairs(histogram, masks) + LoadStorePairs(histogram, masks)
     else if mask == masks.store then StorePairs(histogram, masks)
     else if mask == masks.loadStore then LoadStorePairs(histogram, masks)
     else 0)
  }

  function Addresses(histogram: seq<int>, masks: MemoryMasks): seq<nat>
    requires IsHistogram(histogram, masks)
  {
    Repeat(masks.loadStore, LeftOver(histogram, masks, masks.loadStore)) +
    (if masks.loadStore == masks.store then []
     else Repeat(masks.store, LeftOver(histogram, masks, masks.store)))
  }

  function Signature(histogram: seq<int>, masks: MemoryMasks): seq<nat>
    requires IsHistogram(histogram, masks)
  {
    Addresses(histogram, masks)
    + Computations(histogram, masks, |histogram|)
    + Pairs(masks.loadStore, masks.write, LoadStorePairs(histogram, masks))
    + Pairs(masks.store, masks.write, StorePairs(histogram, masks))
    + Repeat(masks.write, LeftOver(histogram, masks, masks.write))
  }

  // ---- The algorithm --------------------------------------------------------

  method PushMany(signature: seq<nat>, mask: nat, count: int) returns (result: seq<nat>)
    requires count >= 0
    ensures result == signature + Repeat(mask, count)
  {
    result := signature;
    for i := 0 to count
      invariant result == signature + Repeat(mask, i)
    {
      result := result + [mask];
    }
  }

  method PushPairs(signature: seq<nat>, address: nat, write: nat, count: int) returns (result: seq<nat>)
    requires count >= 0
    ensures result == signature + Pairs(address, write, count)
  {
    result := signature;
    for i := 0 to count
      invariant result == signature + Pairs(address, write, i)
    {
      result := result + [address];
      result := result + [write];
    }
  }

  // Pushes the computations, counts their masks and clears them.
  method PushComputations(signature: seq<nat>, remaining: seq<int>, masks: MemoryMasks)
    returns (result: seq<nat>, histogram: seq<int>, numMasks: nat)
    requires forall i :: 0 <= i < |remaining| ==> remaining[i] >= 0
    ensures result == signature + Computations(remaining, masks, |remaining|)
    ensures numMasks == NumComputationMasks(remaining, masks, |remaining|)
    ensures |histogram| == |remaining|
    ensures forall i :: 0 <= i < |remaining| ==> histogram[i] == if masks.IsComputation(i) then 0 else remaining[i]
  {
    result, histogram, numMasks := signature, remaining, 0;
    for i := 0 to |remaining|
      invariant result == signature + Computations(remaining, masks, i)
      invariant numMasks == NumComputationMasks(remaining, masks, i)
      invariant |histogram| == |remaining|
      invariant forall j :: 0 <= j < |remaining| ==>
                  histogram[j] == if j < i && masks.IsComputation(j) then 0 else remaining[j]
    {
      if i == masks.store || i == masks.loadStore || i == masks.write {
        continue;
      }
      result := PushMany(result, i, histogram[i]);
      if histogram[i] != 0 {
        numMasks := numMasks + 1;
        histogram := histogram[i := 0];
      }
    }
  }

  method OrderMicroOperations(initial: seq<int>, masks: MemoryMasks)
    returns (signature: seq<nat>, isOrderUnique: bool)
    requires IsHistogram(initial, masks)
    ensures signature == Signature(initial, masks)
    ensures isOrderUnique <==> NumComputationMasks(initial, masks, |initial|) <= 1
  {
    var histogram := initial;
    var numStorePairs := Min(histogram[masks.write], histogram[masks.store]);
    histogram := histogram[masks.write := histogram[masks.write] - numStorePairs];
    histogram := histogram[masks.store := histogram[masks.store] - numStorePairs];
    var numLoadStorePairs := Min(histogram[masks.write], histogram[masks.loadStore]);
    histogram := histogram[masks.write := histogram[masks.write] - numLoadStorePairs];
    histogram := histogram[masks.loadStore := histogram[masks.loadStore] - numLoadStorePairs];
    assert numStorePairs == StorePairs(initial, masks) && numLoadStorePairs == LoadStorePairs(initial, masks);
    signature := PushMany([], masks.loadStore, histogram[masks.loadStore]);
    histogram := histogram[masks.loadStore := 0];
    signature := PushMany(signature, masks.store, histogram[masks.store]);
    histogram := histogram[masks.store := 0];
    assert signature == Addresses(initial, masks);
    assert forall i :: 0 <= i < |initial| && masks.IsComputation(i) ==> histogram[i] == initial[i];
    SameComputations(initial, histogram, masks, |initial|);
    var numMasks;
    signature, histogram, numMasks := PushComputations(signature, histogram, masks);
    signature := PushPairs(signature, masks.loadStore, masks.write, numLoadStorePairs);
    signature := PushPairs(signature, masks.store, masks.write, numStorePairs);
    signature := PushMany(signature, masks.write, histogram[masks.write]);
    histogram := histogram[masks.write := 0];
    // The final CHECKs: everything is consumed, and nothing is added.
    assert forall i :: 0 <= i < |histogram| ==> histogram[i] == 0;
    SignatureSize(initial, masks);
    assert |signature| == Sum(initial);
    isOrderUnique := numMasks <= 1;
  }

  lemma {:induction false} SameComputations(first: seq<int>, second: seq<int>, masks: MemoryMasks, n: nat)
    requires |first| == |second| && n <= |first|
    requires forall i :: 0 <= i < |first| && masks.IsComputation(i) ==> first[i] == second[i]
    ensures Computations(first, masks, n) == Computations(second, masks, n)
    ensures NumComputationMasks(first, masks, n) == NumComputationMasks(second, masks, n)
  {
    if n > 0 {
      SameComputations(first, second, masks, n - 1);
    }
  }

  // ---- Every micro-operation occurs as often as it should -------------------

  function Occurrences(list: seq<nat>, mask: nat): nat {
    if list == [] then 0 else (if list[0] == mask then 1 else 0) + Occurrences(list[1..], mask)
  }

  lemma {:induction false} OccurrencesAre(list: seq<nat>, mask: nat)
    ensures Occurrences(list, mask) == multiset(list)[mask]
  {
    if list != [] {
      OccurrencesAre(list[1..], mask);
      assert list == [list[0]] + list[1..];
    }
  }

  lemma {:induction false} AddCounts(a: seq<nat>, b: seq<nat>, mask: nat)
    ensures Occurrences(a + b, mask) == Occurrences(a, mask) + Occurrences(b, mask)
  {
    if a == [] {
      assert a + b == b;
    } else {
      AddCounts(a[1..], b, mask);
      assert (a + b)[1..] == a[1..] + b;
    }
  }

  lemma {:induction false} AddAllCounts(a: seq<nat>, b: seq<nat>, c: seq<nat>, d: seq<nat>, e: seq<nat>, mask: nat)
    ensures Occurrences(a + b + c + d + e, mask) ==
            Occurrences(a, mask) + Occurrences(b, mask) + Occurrences(c, mask) + Occurrences(d, mask) +
            Occurrences(e, mask)
  {
    AddCounts(a, b, mask);
    AddCounts(a + b, c, mask);
    AddCounts(a + b + c, d, mask);
    AddCounts(a + b + c + d, e, mask);
  }

  lemma {:induction false} RepeatCounts(mask: nat, count: int, other: nat)
    ensures Occurrences(Repeat(mask, count), other) == if other == mask && count > 0 then count else 0
    ensures |Repeat(mask, count)| == if count > 0 then count else 0
  {
    if count > 0 {
      RepeatCounts(mask, count - 1, other);
      AddCounts(Repeat(mask, count - 1), [mask], other);
    }
  }

  lemma {:induction false} PairsCounts(address: nat, write: nat, count: int, other: nat)
    requires address != write
    ensures Occurrences(Pairs(address, write, count), other) ==
            if (other == address || other == write) && count > 0 then count else 0
  {
    if count > 0 {
      PairsCounts(address, write, count - 1, other);
      var front := Pairs(address, write, count - 1);
      AddCounts(front, [address], other);
      AddCounts(front + [address], [write], other);
    }
  }

  lemma {:induction false} ComputationsCounts(histogram: seq<int>, masks: MemoryMasks, n: nat, other: nat)
    requires n <= |histogram| && forall i :: 0 <= i < |histogram| ==> histogram[i] >= 0
    ensures Occurrences(Computations(histogram, masks, n), other) ==
            if other < n && masks.IsComputation(other) then histogram[other] else 0
  {
    if n > 0 {
      ComputationsCounts(histogram, masks, n - 1, other);
      RepeatCounts(n - 1, histogram[n - 1], other);
      AddCounts(Computations(histogram, masks, n - 1),
                if masks.IsComputation(n - 1) then Repeat(n - 1, histogram[n - 1]) else [], other);
    }
  }

  lemma {:induction false} AddressesCounts(histogram: seq<int>, masks: MemoryMasks, mask: nat)
    requires IsHistogram(histogram, masks)
    ensures Occurrences(Addresses(histogram, masks), mask) ==
            if masks.IsAddress(mask) then LeftOver(histogram, masks, mask) else 0
  {
    RepeatCounts(masks.loadStore, LeftOver(histogram, masks, masks.loadStore), mask);
    RepeatCounts(masks.store, LeftOver(histogram, masks, masks.store), mask);
    AddCounts(Repeat(masks.loadStore, LeftOver(histogram, masks, masks.loadStore)),
              if masks.loadStore == masks.store then []
              else Repeat(masks.store, LeftOver(histogram, masks, masks.store)), mask);
    NothingIsNegative(histogram, masks, masks.loadStore);
    NothingIsNegative(histogram, masks, masks.store);
  }

  lemma NothingIsNegative(histogram: seq<int>, masks: MemoryMasks, mask: nat)
    requires IsHistogram(histogram, masks) && mask < |histogram|
    ensures StorePairs(histogram, masks) >= 0 && LoadStorePairs(histogram, masks) >= 0
    ensures LeftOver(histogram, masks, mask) >= 0
  {
  }

  // What each part of the order contributes.
  function Contributions(histogram: seq<int>, masks: MemoryMasks, mask: nat): int
    requires IsHistogram(histogram, masks)
  {
    (if masks.IsAddress(mask) then LeftOver(histogram, masks, mask) else 0) +
    (if mask < |histogram| && masks.IsComputation(mask) then histogram[mask] else 0) +
    (if mask == masks.loadStore || mask == masks.write then LoadStorePairs(histogram, masks) else 0) +
    (if mask == masks.store || mask == masks.write then StorePairs(histogram, masks) else 0) +
    (if mask == masks.write then LeftOver(histogram, masks, masks.write) else 0)
  }

  lemma PartsAddUp(histogram: seq<int>, masks: MemoryMasks, mask: nat)
    requires IsHistogram(histogram, masks)
    ensures Contributions(histogram, masks, mask) == if mask < |histogram| then histogram[mask] else 0
  {
  }

  lemma SignatureCounts(histogram: seq<int>, masks: MemoryMasks, mask: nat)
    requires IsHistogram(histogram, masks)
    ensures multiset(Signature(histogram, masks))[mask] == if mask < |histogram| then histogram[mask] else 0
  {
    NothingIsNegative(histogram, masks, masks.write);
    AddressesCounts(histogram, masks, mask);
    ComputationsCounts(histogram, masks, |histogram|, mask);
    PairsCounts(masks.loadStore, masks.write, LoadStorePairs(histogram, masks), mask);
    PairsCounts(masks.store, masks.write, StorePairs(histogram, masks), mask);
    RepeatCounts(masks.write, LeftOver(histogram, masks, masks.write), mask);
    SignatureParts(histogram, masks, mask);
    assert Occurrences(Signature(histogram, masks), mask) == Contributions(histogram, masks, mask);
    PartsAddUp(histogram, masks, mask);
    OccurrencesAre(Signature(histogram, masks), mask);
  }

  lemma {:induction false} SignatureParts(histogram: seq<int>, masks: MemoryMasks, mask: nat)
    requires IsHistogram(histogram, masks)
    ensures Occurrences(Signature(histogram, masks), mask) ==
            Occurrences(Addresses(histogram, masks), mask) +
            Occurrences(Computations(histogram, masks, |histogram|), mask) +
            Occurrences(Pairs(masks.loadStore, masks.write, LoadStorePairs(histogram, masks)), mask) +
            Occurrences(Pairs(masks.store, masks.write, StorePairs(histogram, masks)), mask) +
            Occurrences(Repeat(masks.write, LeftOver(histogram, masks, masks.write)), mask)
  {
    AddAllCounts(Addresses(histogram, masks), Computations(histogram, masks, |histogram|),
                 Pairs(masks.loadStore, masks.write, LoadStorePairs(histogram, masks)),
                 Pairs(masks.store, masks.write, StorePairs(histogram, masks)),
                 Repeat(masks.write, LeftOver(histogram, masks, masks.write)), mask);
  }

  lemma {:induction false} CountsGiveSize(list: seq<nat>, histogram: seq<int>)
    requires forall mask: nat ::
               multiset(list)[mask] == if mask < |histogram| then histogram[mask] else 0
    ensures |list| == Sum(histogram)
    decreases |list|
  {
    if list == [] {
      forall i | 0 <= i < |histogram|
        ensures histogram[i] == 0
      {
        assert multiset(list)[i] == histogram[i];
      }
      SumOfZeros(histogram);
    } else {
      var last := |list| - 1;
      var mask := list[last];
      assert list == list[..last] + [mask];
      assert multiset(list)[mask] > 0;
      var next := histogram[mask := histogram[mask] - 1];
      forall other: nat
        ensures multiset(list[..last])[other] == if other < |next| then next[other] else 0
      {
        assert multiset(list)[other] == multiset(list[..last])[other] + multiset{mask}[other];
      }
      CountsGiveSize(list[..last], next);
      SumUpdate(histogram, mask, histogram[mask] - 1);
    }
  }

  lemma {:induction false} SignatureSize(histogram: seq<int>, masks: MemoryMasks)
    requires IsHistogram(histogram, masks)
    ensures |Signature(histogram, masks)| == Sum(histogram)
  {
    forall mask: nat
      ensures multiset(Signature(histogram, masks))[mask] == if mask < |histogram| then histogram[mask] else 0
    {
      SignatureCounts(histogram, masks, mask);
    }
    CountsGiveSize(Signature(histogram, masks), histogram);
  }

  // ---- Where addresses and writes are ---------------------------------------

  // The number of places where a write directly follows an address.
  function NumPairs(list: seq<nat>, masks: MemoryMasks): nat {
    if |list| < 2 then 0
    else
      NumPairs(list[..|list| - 1], masks) +
      (if masks.IsAddress(list[|list| - 2]) && list[|list| - 1] == masks.write then 1 else 0)
  }

  function NumAddresses(list: seq<nat>, masks: MemoryMasks): nat {
    if list == [] then 0
    else NumAddresses(list[..|list| - 1], masks) + (if masks.IsAddress(list[|list| - 1]) then 1 else 0)
  }

  function NumWrites(list: seq<nat>, masks: MemoryMasks): nat {
    if list == [] then 0
    else NumWrites(list[..|list| - 1], masks) + (if list[|list| - 1] == masks.write then 1 else 0)
  }

  // No order has more pairs than addresses, or than writes.
  lemma {:induction false} PairsAreBounded(list: seq<nat>, masks: MemoryMasks)
    requires !masks.IsAddress(masks.write)
    ensures NumPairs(list, masks) <= NumWrites(list, masks)
    ensures NumPairs(list, masks) <= NumAddresses(list, masks)
    ensures list != [] && masks.IsAddress(list[|list| - 1]) ==> NumPairs(list, masks) < NumAddresses(list, masks)
  {
    if list != [] {
      PairsAreBounded(list[..|list| - 1], masks);
    }
  }

  lemma {:induction false} NumbersOfCounts(list: seq<nat>, masks: MemoryMasks)
    requires !masks.IsAddress(masks.write)
    ensures NumWrites(list, masks) == multiset(list)[masks.write]
    ensures NumAddresses(list, masks) ==
            multiset(list)[masks.loadStore] +
            if masks.loadStore == masks.store then 0 else multiset(list)[masks.store]
  {
    if list != [] {
      NumbersOfCounts(list[..|list| - 1], masks);
      assert list == list[..|list| - 1] + [list[|list| - 1]];
    }
  }

  // A list in which no write follows an address at the seam.
  lemma {:induction false} PairsOfConcatenation(a: seq<nat>, b: seq<nat>, masks: MemoryMasks)
    requires a != [] && b != [] ==> !(masks.IsAddress(a[|a| - 1]) && b[0] == masks.write)
    ensures NumPairs(a + b, masks) == NumPairs(a, masks) + NumPairs(b, masks)
    decreases |b|
  {
    if b == [] {
      assert a + b == a;
    } else {
      var front := b[..|b| - 1];
      assert (a + b)[..|a + b| - 1] == a + front;
      PairsOfConcatenation(a, front, masks);
      if front == [] && a == [] {
        assert a + b == b;
      }
    }
  }

  // No write at all, or no address at all.
  lemma {:induction false} NoPairsWithout(list: seq<nat>, masks: MemoryMasks)
    requires (forall i :: 0 <= i < |list| ==> list[i] != masks.write) ||
             (forall i :: 0 <= i < |list| ==> !masks.IsAddress(list[i]))
    ensures NumPairs(list, masks) == 0
  {
    if list != [] {
      NoPairsWithout(list[..|list| - 1], masks);
    }
  }

  lemma {:induction false} RepeatHolds(mask: nat, count: int)
    ensures forall i :: 0 <= i < |Repeat(mask, count)| ==> Repeat(mask, count)[i] == mask
  {
    if count > 0 {
      RepeatHolds(mask, count - 1);
    }
  }

  lemma {:induction false} PairsOfPairs(address: nat, count: int, masks: MemoryMasks)
    requires masks.IsAddress(address) && !masks.IsAddress(masks.write)
    ensures var pairs := Pairs(address, masks.write, count);
            && NumPairs(pairs, masks) == (if count > 0 then count else 0)
            && (pairs != [] ==> pairs[0] == address && pairs[|pairs| - 1] == masks.write)
            && (pairs == [] <==> count <= 0)
  {
    if count > 0 {
      var front := Pairs(address, masks.write, count - 1);
      PairsOfPairs(address, count - 1, masks);
      var pairs := Pairs(address, masks.write, count);
      assert pairs[..|pairs| - 1] == front + [address];
      assert (front + [address])[..|front|] == front;
    }
  }

  predicate AreComputations(list: seq<nat>, masks: MemoryMasks) {
    forall i :: 0 <= i < |list| ==>
      list[i] != masks.loadStore && list[i] != masks.store && list[i] != masks.write
  }

  lemma {:induction false} ComputationsHold(histogram: seq<int>, masks: MemoryMasks, n: nat)
    requires n <= |histogram|
    ensures AreComputations(Computations(histogram, masks, n), masks)
  {
    if n > 0 {
      ComputationsHold(histogram, masks, n - 1);
      RepeatHolds(n - 1, histogram[n - 1]);
    }
  }

  lemma AddressesHold(histogram: seq<int>, masks: MemoryMasks)
    requires IsHistogram(histogram, masks)
    ensures var list := Addresses(histogram, masks);
            && (forall i :: 0 <= i < |list| ==> masks.IsAddress(list[i]))
            && (list != [] ==> LeftOver(histogram, masks, masks.write) == 0)
  {
    RepeatHolds(masks.loadStore, LeftOver(histogram, masks, masks.loadStore));
    RepeatHolds(masks.store, LeftOver(histogram, masks, masks.store));
    RepeatCounts(masks.loadStore, LeftOver(histogram, masks, masks.loadStore), 0);
    RepeatCounts(masks.store, LeftOver(histogram, masks, masks.store), 0);
  }

  // The pairs in the order are the ones that the algorithm makes.
  lemma {:induction false} SignaturePairs(histogram: seq<int>, masks: MemoryMasks)
    requires IsHistogram(histogram, masks)
    ensures NumPairs(Signature(histogram, masks), masks) ==
            LoadStorePairs(histogram, masks) + StorePairs(histogram, masks)
  {
    var addresses, computations := Addresses(histogram, masks), Computations(histogram, masks, |histogram|);
    var loadStores := Pairs(masks.loadStore, masks.write, LoadStorePairs(histogram, masks));
    var stores := Pairs(masks.store, masks.write, StorePairs(histogram, masks));
    var writes := Repeat(masks.write, LeftOver(histogram, masks, masks.write));
    AddressesHold(histogram, masks);
    ComputationsHold(histogram, masks, |histogram|);
    PairsOfPairs(masks.loadStore, LoadStorePairs(histogram, masks), masks);
    PairsOfPairs(masks.store, StorePairs(histogram, masks), masks);
    RepeatHolds(masks.write, LeftOver(histogram, masks, masks.write));
    RepeatCounts(masks.write, LeftOver(histogram, masks, masks.write), 0);
    NoPairsWithout(addresses, masks);
    NoPairsWithout(computations, masks);
    NoPairsWithout(writes, masks);
    SeamsHaveNoPairs(addresses, computations, loadStores, stores, writes, masks);
  }

  lemma {:induction false} SeamsHaveNoPairs(
    addresses: seq<nat>, computations: seq<nat>, loadStores: seq<nat>, stores: seq<nat>, writes: seq<nat>,
    masks: MemoryMasks
  )
    requires !masks.IsAddress(masks.write)
    requires AreComputations(computations, masks)
    requires loadStores != [] ==> masks.IsAddress(loadStores[0]) && loadStores[|loadStores| - 1] == masks.write
    requires stores != [] ==> masks.IsAddress(stores[0]) && stores[|stores| - 1] == masks.write
    requires addresses == [] || writes == []
    ensures NumPairs(addresses + computations + loadStores + stores + writes, masks) ==
            NumPairs(addresses, masks) + NumPairs(computations, masks) + NumPairs(loadStores, masks) +
            NumPairs(stores, masks) + NumPairs(writes, masks)
  {
    PairsOfConcatenation(addresses, computations, masks);
    PairsOfConcatenation(addresses + computations, loadStores, masks);
    PairsOfConcatenation(addresses + computations + loadStores, stores, masks);
    PairsOfConcatenation(addresses + computations + loadStores + stores, writes, masks);
  }

  // The number of pairs is maximal among all orders of the micro-operations.
  lemma {:induction false} PairsAreMaximal(histogram: seq<int>, masks: MemoryMasks, other: seq<nat>)
    requires IsHistogram(histogram, masks)
    requires multiset(other) == multiset(Signature(histogram, masks))
    ensures NumPairs(other, masks) <= NumPairs(Signature(histogram, masks), masks)
  {
    SignaturePairs(histogram, masks);
    PairsAreBounded(other, masks);
    NumbersOfCounts(other, masks);
    SignatureCounts(histogram, masks, masks.write);
    SignatureCounts(histogram, masks, masks.loadStore);
    SignatureCounts(histogram, masks, masks.store);
  }

  // A write directly follows an address, and an address is followed by a write.
  predicate IsPairedAt(list: seq<nat>, i: nat, masks: MemoryMasks)
    requires i < |list|
  {
    && (list[i] == masks.write ==> i > 0 && masks.IsAddress(list[i - 1]))
    && (masks.IsAddress(list[i]) ==> i + 1 < |list| && list[i + 1] == masks.write)
  }

  predicate IsPaired(list: seq<nat>, masks: MemoryMasks) {
    forall i :: 0 <= i < |list| ==> IsPairedAt(list, i, masks)
  }

  lemma PairedConcatenation(a: seq<nat>, b: seq<nat>, masks: MemoryMasks)
    requires IsPaired(a, masks) && IsPaired(b, masks)
    ensures IsPaired(a + b, masks)
  {
    forall i | 0 <= i < |a + b|
      ensures IsPairedAt(a + b, i, masks)
    {
      if i < |a| {
        assert IsPairedAt(a, i, masks);
      } else {
        assert IsPairedAt(b, i - |a|, masks);
      }
    }
  }

  lemma {:induction false} PairsArePaired(address: nat, count: int, masks: MemoryMasks)
    requires masks.IsAddress(address) && !masks.IsAddress(masks.write)
    ensures IsPaired(Pairs(address, masks.write, count), masks)
  {
    if count > 0 {
      PairsArePaired(address, count - 1, masks);
      var front := Pairs(address, masks.write, count - 1);
      assert Pairs(address, masks.write, count) == front + [address, masks.write];
      PairedConcatenation(front, [address, masks.write], masks);
    }
  }

  // The micro-operations between the unpaired ones.
  function Middle(histogram: seq<int>, masks: MemoryMasks): seq<nat>
    requires IsHistogram(histogram, masks)
  {
    Computations(histogram, masks, |histogram|)
    + (Pairs(masks.loadStore, masks.write, LoadStorePairs(histogram, masks))
       + Pairs(masks.store, masks.write, StorePairs(histogram, masks)))
  }

  lemma ComputationsArePaired(list: seq<nat>, masks: MemoryMasks)
    requires AreComputations(list, masks)
    ensures IsPaired(list, masks)
  {
  }

  lemma MiddleIsPaired(histogram: seq<int>, masks: MemoryMasks)
    requires IsHistogram(histogram, masks)
    ensures IsPaired(Middle(histogram, masks), masks)
  {
    var loadStores := Pairs(masks.loadStore, masks.write, LoadStorePairs(histogram, masks));
    var stores := Pairs(masks.store, masks.write, StorePairs(histogram, masks));
    ComputationsHold(histogram, masks, |histogram|);
    PairsArePaired(masks.loadStore, LoadStorePairs(histogram, masks), masks);
    PairsArePaired(masks.store, StorePairs(histogram, masks), masks);
    PairedConcatenation(loadStores, stores, masks);
    ComputationsArePaired(Computations(histogram, masks, |histogram|), masks);
    PairedConcatenation(Computations(histogram, masks, |histogram|), loadStores + stores, masks);
  }

  // The addresses without a write come first, the writes without an address come
  // last, there are not both kinds, and all others are paired.
  lemma UnpairedAtTheEnds(histogram: seq<int>, masks: MemoryMasks)
    requires IsHistogram(histogram, masks)
    ensures var addresses := Addresses(histogram, masks);
            var writes := Repeat(masks.write, LeftOver(histogram, masks, masks.write));
            && Signature(histogram, masks) == addresses + Middle(histogram, masks) + writes
            && (forall i :: 0 <= i < |addresses| ==> masks.IsAddress(addresses[i]))
            && (forall i :: 0 <= i < |writes| ==> writes[i] == masks.write)
            && (addresses == [] || writes == [])
            && IsPaired(Middle(histogram, masks), masks)
  {
    AddressesHold(histogram, masks);
    RepeatHolds(masks.write, LeftOver(histogram, masks, masks.write));
    RepeatCounts(masks.write, LeftOver(histogram, masks, masks.write), 0);
    MiddleIsPaired(histogram, masks);
    Regroup(Addresses(histogram, masks), Computations(histogram, masks, |histogram|),
            Pairs(masks.loadStore, masks.write, LoadStorePairs(histogram, masks)),
            Pairs(masks.store, masks.write, StorePairs(histogram, masks)),
            Repeat(masks.write, LeftOver(histogram, masks, masks.write)));
  }

  lemma Regroup(a: seq<nat>, b: seq<nat>, c: seq<nat>, d: seq<nat>, e: seq<nat>)
    ensures a + b + c + d + e == a + (b + (c + d)) + e
  {
  }

  // The order is unique exactly when at most one computation mask is used.
  lemma {:induction false} CountComputationMasks(histogram: seq<int>, masks: MemoryMasks, n: nat)
    requires n <= |histogram|
    ensures NumComputationMasks(histogram, masks, n) ==
            |set i | 0 <= i < n && masks.IsComputation(i) && histogram[i] != 0|
  {
    var used := set i | 0 <= i < n && masks.IsComputation(i) && histogram[i] != 0;
    if n > 0 {
      CountComputationMasks(histogram, masks, n - 1);
      var before := set i | 0 <= i < n - 1 && masks.IsComputation(i) && histogram[i] != 0;
      assert used == before + (if masks.IsComputation(n - 1) && histogram[n - 1] != 0 then {n - 1} else {});
    }
  }
}
