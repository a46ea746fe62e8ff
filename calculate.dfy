/** `calculate(arr, logic)`: builds a fresh output array by visiting every
    index that `arr.keys()` yields and storing `logic(arr[idx])` there. */
module Calculate {
  import opened Sequences

  /** `diameter`, the integer transform the examples apply to the radii:
      an even number whose half is the radius. */
  function Diameter(r: int): (d: int)
    ensures d % 2 == 0 && d / 2 == r
  {
    2 * r
  }

  /** The indices that `keys()` yields for an array of length n, in order. */
  function Keys(n: nat): (ks: seq<nat>)
    ensures |ks| == n
    ensures forall k :: 0 <= k < n ==> ks[k] == k
  {
    if n == 0 then [] else Keys(n - 1) + [n - 1]
  }

  /** The key-iterating version. The input has no `modifies` clause, so it
      cannot change; `calls` records the index of every callback call. */
  method Calculate<T, U(0)>(arr: array<T>, logic: T -> U) returns (output: array<U>, ghost calls: seq<nat>)
    ensures fresh(output)
    ensures output[..] == Map(arr[..], logic)
    ensures calls == Keys(arr.Length)
  {
    var keys := Keys(arr.Length);
    output := new U[arr.Length];
    calls := [];
    for j := 0 to |keys|
      invariant fresh(output)
      invariant output.Length == arr.Length
      invariant calls == keys[..j]
      invariant output[..j] == Map(arr[..j], logic)
    {
      var idx := keys[j];
      output[idx] := logic(arr[idx]);
      calls := calls + [idx];
      assert arr[..j + 1] == arr[..j] + [arr[j]];
      assert output[..j + 1] == output[..j] + [output[j]];
      MapSnoc(arr[..j], arr[j], logic);
    }
    assert arr[..] == arr[..arr.Length];
    assert output[..] == output[..arr.Length];
  }

  /** `calculate(radii, diameter)` on the radii [1, 2, 3, 4]. */
  method DiametersOfRadii() returns (diameters: seq<int>)
    ensures diameters == [2, 4, 6, 8]
  {
    var radii := new int[4];
    radii[0], radii[1], radii[2], radii[3] := 1, 2, 3, 4;
    var output, _ := Calculate(radii, Diameter);
    diameters := output[..];
    assert radii[..] == [1, 2, 3, 4];
    MapPointwise(radii[..], Diameter);
  }
}
