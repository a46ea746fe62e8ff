/** `Array.prototype.calculate(logic_callback)`: the map polyfill. The
    receiver `this` becomes the explicit parameter `receiver`; the loop runs
    i = 0, 1, ..., length - 1 and stores `logic_callback(this[i])` at i. */
module CalculatePolyfill {
  import opened Sequences
  import Calculate

  /** The index-loop version; `calls` records the index of every callback
      call, and `receiver` has no `modifies` clause, so it cannot change. */
  method CalculatePolyfill<T, U(0)>(receiver: array<T>, logicCallback: T -> U)
    returns (output: array<U>, ghost calls: seq<nat>)
    ensures fresh(output)
    ensures output[..] == Map(receiver[..], logicCallback)
    ensures |calls| == receiver.Length
    ensures forall k :: 0 <= k < |calls| ==> calls[k] == k
  {
    output := new U[receiver.Length];
    calls := [];
    var i := 0;
    while i < receiver.Length
      invariant 0 <= i <= receiver.Length
      invariant fresh(output)
      invariant output.Length == receiver.Length
      invariant |calls| == i
      invariant forall k :: 0 <= k < i ==> calls[k] == k
      invariant output[..i] == Map(receiver[..i], logicCallback)
    {
      output[i] := logicCallback(receiver[i]);
      calls := calls + [i];
      assert receiver[..i + 1] == receiver[..i] + [receiver[i]];
      assert output[..i + 1] == output[..i] + [output[i]];
      MapSnoc(receiver[..i], receiver[i], logicCallback);
      i := i + 1;
    }
    assert receiver[..] == receiver[..receiver.Length];
    assert output[..] == output[..receiver.Length];
  }

  /** The key-iterating `calculate` and the index-loop polyfill give equal
      outputs for the same array and callback, and call the callback on the
      same indices in the same order. */
  method VersionsAgree<T, U(0)>(arr: array<T>, logic: T -> U)
    returns (byKeys: array<U>, byIndex: array<U>, ghost keyCalls: seq<nat>, ghost indexCalls: seq<nat>)
    ensures byKeys[..] == byIndex[..]
    ensures keyCalls == indexCalls
  {
    byKeys, keyCalls := Calculate.Calculate(arr, logic);
    byIndex, indexCalls := CalculatePolyfill(arr, logic);
  }

  /** `radii.calculate(diameter)` on the radii [1, 2, 3, 4]. */
  method DiametersOfRadii() returns (diameters: seq<int>)
    ensures diameters == [2, 4, 6, 8]
  {
    var radii := new int[4];
    radii[0], radii[1], radii[2], radii[3] := 1, 2, 3, 4;
    var output, _ := CalculatePolyfill(radii, Calculate.Diameter);
    diameters := output[..];
    assert radii[..] == [1, 2, 3, 4];
    MapPointwise(radii[..], Calculate.Diameter);
  }
}
