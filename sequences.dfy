/** Pure sequence map: the specification that both `calculate` versions
    are proved against, with the properties a caller relies on. */
module Sequences {

  /** The sequence whose i-th element is f applied to the i-th element of s. */
  function Map<T, U>(s: seq<T>, f: T -> U): (r: seq<U>)
    ensures |r| == |s|
  {
    if s == [] then [] else [f(s[0])] + Map(s[1..], f)
  }

  /** The output has the input's length and holds f(s[i]) at every index i. */
  lemma {:induction false} MapPointwise<T, U>(s: seq<T>, f: T -> U)
    ensures |Map(s, f)| == |s|
    ensures forall i :: 0 <= i < |s| ==> Map(s, f)[i] == f(s[i])
  {
    if s != [] {
      MapPointwise(s[1..], f);
    }
  }

  /** Mapping a sequence built one element at a time: the shape of a loop
      that writes output[i] for i = 0, 1, 2, ... */
  lemma {:induction false} MapSnoc<T, U>(s: seq<T>, x: T, f: T -> U)
    ensures Map(s + [x], f) == Map(s, f) + [f(x)]
  {
    if s == [] {
      assert [x][1..] == [];
    } else {
      assert (s + [x])[1..] == s[1..] + [x];
      MapSnoc(s[1..], x, f);
    }
  }

  /** Map distributes over concatenation. */
  lemma {:induction false} MapAppend<T, U>(a: seq<T>, b: seq<T>, f: T -> U)
    ensures Map(a + b, f) == Map(a, f) + Map(b, f)
  {
    if a == [] {
      assert a + b == b;
    } else {
      assert (a + b)[1..] == a[1..] + b;
      MapAppend(a[1..], b, f);
    }
  }

  /** Mapping with the identity yields a sequence equal to the input. */
  lemma {:induction false} MapIdentity<T>(s: seq<T>)
    ensures Map(s, x => x) == s
  {
    if s != [] {
      MapIdentity(s[1..]);
    }
  }

  /** Two maps in a row are one map with the composed transformation. */
  lemma {:induction false} MapCompose<T, U, V>(s: seq<T>, f: T -> U, g: U -> V)
    ensures Map(Map(s, f), g) == Map(s, x => g(f(x)))
  {
    if s != [] {
      MapCompose(s[1..], f, g);
    }
  }
}
