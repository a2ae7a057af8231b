// Facts about concatenated sequences.
module Sequences {

  lemma DropFront<T>(front: seq<T>, rest: seq<T>)
    ensures (front + rest)[|front|..] == rest && (front + rest)[..|front|] == front
  {
  }

  lemma SplitEqually<T>(a: seq<T>, b: seq<T>, c: seq<T>, d: seq<T>)
    requires a + c == b + d && |a| == |b|
    ensures a == b && c == d
  {
    DropFront(a, c);
    DropFront(b, d);
  }

  lemma Associate<T>(a: seq<T>, b: seq<T>, c: seq<T>)
    ensures (a + b) + c == a + (b + c)
  {
  }
}
