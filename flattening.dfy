/** `flatten(list)`: a depth-first flatten of arbitrarily nested number
    lists. Each call loops over its list, appending a number as it is and
    appending the flattening of a nested list. */
module Flattening {

  /** An element of a nested list: `typeof x == 'number'` selects Num. */
  datatype Nested = Num(value: int) | List(items: seq<Nested>)

  /** What `flatten` returns for `list`: the leaves of its elements, from
      the left, one number per leaf. */
  function Flatten(list: seq<Nested>): (r: seq<int>)
    ensures |r| == LeafCount(list)
    decreases list
  {
    if list == [] then [] else Leaves(list[0]) + Flatten(list[1..])
  }

  /** What one element contributes: a number itself, a nested list its
      flattening; again one number per leaf. */
  function Leaves(x: Nested): (r: seq<int>)
    ensures |r| == LeafCount([x])
    decreases x
  {
    assert [x][1..] == [];
    match x
    case Num(v) => [v]
    case List(xs) => Flatten(xs)
  }

  /** The loop as the source writes it: `ans = ans.concat(x)` for a
      number, `ans = ans.concat(flatten(x))` for a nested list. */
  method FlattenLoop(list: seq<Nested>) returns (ans: seq<int>)
    ensures ans == Flatten(list)
    decreases list
  {
    ans := [];
    for i := 0 to |list|
      invariant ans == Flatten(list[..i])
    {
      var x := list[i];
      FlattenAppend(list[..i], [x]);
      FlattenSingle(x);
      assert list[..i + 1] == list[..i] + [x];
      match x {
        case Num(v) =>
          ans := ans + [v];
        case List(xs) =>
          var p := FlattenLoop(xs);
          ans := ans + p;
      }
    }
    assert list[..|list|] == list;
  }

  /** Flattening distributes over concatenation of the outer lists. */
  lemma {:induction false} FlattenAppend(a: seq<Nested>, b: seq<Nested>)
    ensures Flatten(a + b) == Flatten(a) + Flatten(b)
    decreases a
  {
    if a == [] {
      assert a + b == b;
    } else {
      assert (a + b)[0] == a[0];
      assert (a + b)[1..] == a[1..] + b;
      FlattenAppend(a[1..], b);
    }
  }

  /** The number of numeric leaves in a nested list. */
  function LeafCount(list: seq<Nested>): nat
    decreases list
  {
    if list == [] then 0
    else
      (match list[0]
       case Num(_) => 1
       case List(xs) => LeafCount(xs))
      + LeafCount(list[1..])
  }

  /** Whether n is a leaf of list at any depth. */
  predicate HasLeaf(list: seq<Nested>, n: int)
    decreases list
  {
    list != [] &&
    ((match list[0]
      case Num(v) => v == n
      case List(xs) => HasLeaf(xs, n))
     || HasLeaf(list[1..], n))
  }

  /** A number occurs in the result exactly when it is a leaf of the input. */
  lemma {:induction false} FlattenLeaves(list: seq<Nested>, n: int)
    ensures n in Flatten(list) <==> HasLeaf(list, n)
    decreases list
  {
    if list != [] {
      match list[0] {
        case Num(_) =>
        case List(xs) => FlattenLeaves(xs, n);
      }
      FlattenLeaves(list[1..], n);
    }
  }

  /** A list all of whose elements are numbers. */
  predicate IsFlat(list: seq<Nested>)
  {
    forall i :: 0 <= i < |list| ==> list[i].Num?
  }

  /** The numbers of a flat seq<int>, as nested-list elements. */
  function Nums(s: seq<int>): (r: seq<Nested>)
    ensures |r| == |s| && IsFlat(r)
    ensures forall i :: 0 <= i < |s| ==> r[i] == Num(s[i])
  {
    if s == [] then [] else [Num(s[0])] + Nums(s[1..])
  }

  /** An already flat list comes back element for element. */
  lemma {:induction false} FlattenFlat(list: seq<Nested>)
    requires IsFlat(list)
    ensures |Flatten(list)| == |list|
    ensures forall i :: 0 <= i < |list| ==> Num(Flatten(list)[i]) == list[i]
    decreases list
  {
    if list != [] {
      assert list[0].Num?;
      assert IsFlat(list[1..]) by {
        forall i | 0 <= i < |list[1..]| ensures list[1..][i].Num? {
          assert list[1..][i] == list[i + 1];
        }
      }
      FlattenFlat(list[1..]);
    }
  }

  /** Flattening is idempotent: flattening the result again (as a list of
      numbers) gives the same result. */
  lemma FlattenIdempotent(list: seq<Nested>)
    ensures Flatten(Nums(Flatten(list))) == Flatten(list)
  {
    var r := Flatten(list);
    FlattenFlat(Nums(r));
  }

  /** A one-element list flattens to that element's leaves. */
  lemma FlattenSingle(x: Nested)
    ensures Flatten([x]) == Leaves(x)
  {
    assert [x][1..] == [];
  }

  lemma FlattenPair(x: Nested, y: Nested)
    ensures Flatten([x, y]) == Leaves(x) + Leaves(y)
  {
    assert [x, y][1..] == [y];
    FlattenSingle(y);
  }

  lemma FlattenTriple(x: Nested, y: Nested, z: Nested)
    ensures Flatten([x, y, z]) == Leaves(x) + Leaves(y) + Leaves(z)
  {
    assert [x, y, z][1..] == [y, z];
    FlattenPair(y, z);
  }

  lemma FlattenQuadruple(w: Nested, x: Nested, y: Nested, z: Nested)
    ensures Flatten([w, x, y, z]) == Leaves(w) + Leaves(x) + Leaves(y) + Leaves(z)
  {
    assert [w, x, y, z][1..] == [x, y, z];
    FlattenTriple(x, y, z);
  }

  /** The sample `b = [1, [1, 2], a, [[[3, 2], [4], [[[5, [[6]]]]]]]]`. */
  function Sample(): seq<Nested>
  {
    [Num(1), List([Num(1), Num(2)]), SampleA(), SampleLast()]
  }

  /** `a = [1, 2]` */
  function SampleA(): Nested
  {
    List([Num(1), Num(2)])
  }

  /** `[[[3, 2], [4], [[[5, [[6]]]]]]]` */
  function SampleLast(): Nested
  {
    List([List([List([Num(3), Num(2)]), List([Num(4)]), SampleDeepest()])])
  }

  /** `[[[5, [[6]]]]]` */
  function SampleDeepest(): Nested
  {
    List([List([List([Num(5), List([List([Num(6)])])])])])
  }

  lemma SampleFlattened()
    ensures Flatten(Sample()) == [1, 1, 2, 1, 2, 3, 2, 4, 5, 6]
  {
    SampleLastLeaves();
    FlattenPair(Num(1), Num(2));
    FlattenQuadruple(Num(1), List([Num(1), Num(2)]), SampleA(), SampleLast());
  }

  lemma SampleLastLeaves()
    ensures Leaves(SampleLast()) == [3, 2, 4, 5, 6]
  {
    SampleDeepestLeaves();
    FlattenPair(Num(3), Num(2));
    FlattenSingle(Num(4));
    FlattenTriple(List([Num(3), Num(2)]), List([Num(4)]), SampleDeepest());
    FlattenSingle(List([List([Num(3), Num(2)]), List([Num(4)]), SampleDeepest()]));
  }

  lemma SampleDeepestLeaves()
    ensures Leaves(SampleDeepest()) == [5, 6]
  {
    FlattenSingle(Num(6));
    FlattenSingle(List([Num(6)]));
    FlattenPair(Num(5), List([List([Num(6)])]));
    FlattenSingle(List([Num(5), List([List([Num(6)])])]));
    FlattenSingle(List([List([Num(5), List([List([Num(6)])])])]));
  }
}
