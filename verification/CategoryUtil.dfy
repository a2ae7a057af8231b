// Categories of enum values (exegesis/util/category_util.h): values are read as
// sequences of hexadecimal digits, and a category is a prefix of its members.
module CategoryUtil {

  // The value without its last k digits.
  function DropDigits(value: nat, k: nat): nat {
    if k == 0 then value else DropDigits(value, k - 1) / 16
  }

  ghost predicate InCategory(value: nat, category: nat) {
    exists k: nat :: DropDigits(value, k) == category
  }

  lemma {:induction false} DropDigitsDecreases(value: nat, j: nat, k: nat)
    requires j <= k
    ensures DropDigits(value, k) <= DropDigits(value, j)
  {
    if j < k {
      DropDigitsDecreases(value, j, k - 1);
    }
  }

  // Dropping digits until the value is not larger than the category finds the
  // category if it is a prefix at all.
  method IsInCategory(value: nat, category: nat) returns (isInCategory: bool)
    ensures isInCategory <==> InCategory(value, category)
  {
    var current := value;
    ghost var k: nat := 0;
    while current > category
      invariant current == DropDigits(value, k)
      invariant forall j: nat :: j < k ==> DropDigits(value, j) > category
    {
      current := current / 16;
      k := k + 1;
    }
    if InCategory(value, category) {
      ghost var j: nat :| DropDigits(value, j) == category;
      if k <= j {
        DropDigitsDecreases(value, k, j);
      }
    }
    return current == category;
  }

  // The categories of a value with up to three digits.
  lemma CategoriesOf(value: nat, category: nat)
    requires value < 0x1000
    ensures InCategory(value, category) <==> category in {value, value / 16, value / 256, 0}
  {
    assert DropDigits(value, 0) == value;
    assert DropDigits(value, 1) == value / 16;
    assert DropDigits(value, 2) == value / 16 / 16 == value / 256;
    assert DropDigits(value, 3) == DropDigits(value, 2) / 16 == 0;
    forall k: nat
      ensures DropDigits(value, k) in {value, value / 16, value / 256, 0}
    {
      if k > 3 {
        DropDigitsDecreases(value, 3, k);
      }
    }
  }
}
