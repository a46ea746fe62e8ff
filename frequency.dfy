/** `f(s)`: a character-frequency Map built in a loop over s with
    `has`/`get`/`set`. A JavaScript Map remembers the order in which its
    keys were first set, so the model returns that order beside the counts. */
module Frequency {

  /** The number of occurrences of c in s. */
  function Occurrences(s: string, c: char): nat
  {
    if s == [] then 0
    else Occurrences(s[..|s| - 1], c) + (if s[|s| - 1] == c then 1 else 0)
  }

  predicate NoDuplicates(ks: seq<char>)
  {
    forall i, j :: 0 <= i < j < |ks| ==> ks[i] != ks[j]
  }

  /** The distinct characters of s in order of first occurrence: the order
      in which `ans.set` first adds them. There are never more of them than
      characters in s. */
  function Distinct(s: string): (r: seq<char>)
    ensures |r| <= |s|
  {
    if s == [] then []
    else
      var d := Distinct(s[..|s| - 1]);
      if s[|s| - 1] in d then d else d + [s[|s| - 1]]
  }

  /** Each character of s occurs once in the key order, and nothing else. */
  lemma {:induction false} DistinctKeys(s: string)
    ensures NoDuplicates(Distinct(s))
    ensures forall c :: c in Distinct(s) <==> c in s
  {
    if s != [] {
      var p, x := s[..|s| - 1], s[|s| - 1];
      assert s == p + [x];
      DistinctKeys(p);
      MembersSnoc(p, x);
    }
  }

  /** The index of the first occurrence of c in s. */
  function FirstIndex(s: string, c: char): (k: nat)
    requires c in s
    ensures k < |s| && s[k] == c && c !in s[..k]
  {
    if s[0] == c then 0 else 1 + FirstIndex(s[1..], c)
  }

  /** Any index holding c with no c before it is the first index of c. */
  lemma FirstIndexUnique(s: string, c: char, k: nat)
    requires k < |s| && s[k] == c && c !in s[..k]
    ensures FirstIndex(s, c) == k
  {
  }

  /** The key order is the order of first occurrence: of two keys, the
      earlier one first occurs earlier in s. */
  lemma {:induction false} DistinctOrder(s: string)
    ensures forall c :: c in Distinct(s) ==> c in s
    ensures forall i, j :: 0 <= i < j < |Distinct(s)| ==>
      FirstIndex(s, Distinct(s)[i]) < FirstIndex(s, Distinct(s)[j])
  {
    DistinctKeys(s);
    if s != [] {
      var p, x := s[..|s| - 1], s[|s| - 1];
      assert s == p + [x];
      DistinctOrder(p);
      DistinctKeys(p);
      var d := Distinct(p);
      forall c | c in d ensures FirstIndex(s, c) == FirstIndex(p, c) {
        var k := FirstIndex(p, c);
        assert s[..k] == p[..k];
        FirstIndexUnique(s, c, k);
      }
      if x !in d {
        assert x !in s[..|p|] by { assert s[..|p|] == p; }
        FirstIndexUnique(s, x, |p|);
        assert Distinct(s) == d + [x];
      }
    }
  }

  /** counts has exactly the characters of s as keys, each mapped to its
      number of occurrences. */
  predicate CountsOf(s: string, counts: map<char, nat>)
  {
    && (forall c :: c in counts <==> c in s)
    && (forall c :: c in counts ==> counts[c] == Occurrences(s, c))
  }

  /** One loop step: `set(char, get(char) + 1)` or `set(char, 1)`. */
  lemma CountStep(done: string, ch: char, counts: map<char, nat>)
    requires CountsOf(done, counts)
    ensures CountsOf(done + [ch], if ch in counts then counts[ch := counts[ch] + 1] else counts[ch := 1])
  {
    OccurrencesSnoc(done, ch);
    MembersSnoc(done, ch);
    if ch !in counts {
      OccurrencesAbsent(done, ch);
    }
  }

  /** The loop over `for (let char of s)`. */
  method Frequencies(s: string) returns (keys: seq<char>, counts: map<char, nat>)
    ensures keys == Distinct(s)
    ensures NoDuplicates(keys) && forall c :: c in keys <==> c in counts
    ensures forall c :: c in counts <==> c in s
    ensures forall c :: c in counts ==> counts[c] == Occurrences(s, c)
  {
    keys, counts := [], map[];
    for i := 0 to |s|
      invariant keys == Distinct(s[..i])
      invariant forall c :: c in keys <==> c in counts
      invariant CountsOf(s[..i], counts)
    {
      var ch := s[i];
      assert s[..i + 1] == s[..i] + [ch];
      CountStep(s[..i], ch, counts);
      DistinctSnoc(s[..i], ch);
      if ch in counts {
        counts := counts[ch := counts[ch] + 1];
      } else {
        counts := counts[ch := 1];
        keys := keys + [ch];
      }
    }
    assert s[..|s|] == s;
    DistinctKeys(s);
  }

  /** One more character adds one occurrence of itself and of nothing else. */
  lemma OccurrencesSnoc(p: string, x: char)
    ensures forall c :: Occurrences(p + [x], c) == Occurrences(p, c) + (if c == x then 1 else 0)
  {
    assert (p + [x])[..|p|] == p;
  }

  lemma MembersSnoc(p: string, x: char)
    ensures forall c :: c in p + [x] <==> c in p || c == x
  {
  }

  /** One more character is added to the key order if it is new. */
  lemma DistinctSnoc(p: string, x: char)
    ensures Distinct(p + [x]) == if x in Distinct(p) then Distinct(p) else Distinct(p) + [x]
  {
    assert (p + [x])[..|p|] == p;
  }

  lemma {:induction false} OccurrencesAbsent(s: string, c: char)
    requires c !in s
    ensures Occurrences(s, c) == 0
  {
    if s != [] {
      assert s[|s| - 1] in s;
      OccurrencesAbsent(s[..|s| - 1], c);
    }
  }

  /** Only characters of s are counted, each at least once. */
  lemma {:induction false} OccurrencesPositive(s: string, c: char)
    ensures Occurrences(s, c) >= 1 <==> c in s
  {
    if s == [] {
    } else if c == s[|s| - 1] {
    } else {
      assert s == s[..|s| - 1] + [s[|s| - 1]];
      OccurrencesPositive(s[..|s| - 1], c);
    }
  }

  /** The counts of the keys ks in s, added up in the order of ks. */
  function SumCounts(ks: seq<char>, s: string): nat
  {
    if ks == [] then 0 else Occurrences(s, ks[0]) + SumCounts(ks[1..], s)
  }

  /** Appending c to s adds one occurrence to the sum exactly when c is one
      of the (distinct) keys. */
  lemma {:induction false} SumCountsSnoc(ks: seq<char>, s: string, c: char)
    requires NoDuplicates(ks)
    ensures SumCounts(ks, s + [c]) == SumCounts(ks, s) + (if c in ks then 1 else 0)
  {
    if ks != [] {
      assert (s + [c])[..|s + [c]| - 1] == s;
      assert NoDuplicates(ks[1..]) by {
        forall i, j | 0 <= i < j < |ks[1..]| ensures ks[1..][i] != ks[1..][j] {
          assert ks[1..][i] == ks[i + 1] && ks[1..][j] == ks[j + 1];
        }
      }
      assert c in ks <==> c == ks[0] || c in ks[1..] by {
        assert ks == [ks[0]] + ks[1..];
      }
      assert ks[0] !in ks[1..] by {
        forall i | 0 <= i < |ks[1..]| ensures ks[1..][i] != ks[0] {
          assert ks[1..][i] == ks[i + 1];
        }
      }
      SumCountsSnoc(ks[1..], s, c);
    }
  }

  lemma {:induction false} SumCountsAppend(a: seq<char>, b: seq<char>, s: string)
    ensures SumCounts(a + b, s) == SumCounts(a, s) + SumCounts(b, s)
  {
    if a == [] {
      assert a + b == b;
    } else {
      assert (a + b)[1..] == a[1..] + b;
      SumCountsAppend(a[1..], b, s);
    }
  }

  /** The counts over all keys add up to the length of s. */
  lemma {:induction false} CountsSumToLength(s: string)
    ensures SumCounts(Distinct(s), s) == |s|
  {
    if s != [] {
      var p, c := s[..|s| - 1], s[|s| - 1];
      assert s == p + [c];
      CountsSumToLength(p);
      DistinctKeys(p);
      var d := Distinct(p);
      SumCountsSnoc(d, p, c);
      if c !in d {
        SumCountsAppend(d, [c], s);
        OccurrencesAbsent(p, c);
      }
    }
  }

  /** `f('birdd')`: 'b', 'i' and 'r' once each and 'd' twice, in that key
      order. */
  method Birdd() returns (keys: seq<char>, counts: map<char, nat>)
    ensures keys == "bird"
    ensures counts == map['b' := 1, 'i' := 1, 'r' := 1, 'd' := 2]
  {
    var s := "birdd";
    keys, counts := Frequencies(s);
    BirddKeys('b', 'i', 'r', 'd');
    assert s == ['b', 'i', 'r', 'd', 'd'];
    BirddMap(s, counts);
  }

  lemma BirddMap(s: string, counts: map<char, nat>)
    requires s == "birdd"
    requires forall c :: c in counts <==> c in s
    requires forall c :: c in counts ==> counts[c] == Occurrences(s, c)
    ensures counts == map['b' := 1, 'i' := 1, 'r' := 1, 'd' := 2]
  {
    BirddCounts(s);
    forall c ensures c in counts <==> c in {'b', 'i', 'r', 'd'} {
      assert c in s <==> c == 'b' || c == 'i' || c == 'r' || c == 'd';
    }
  }

  /** The key order of "birdd", stated over any four distinct characters
      so that the solver does not unfold the literal. */
  lemma BirddKeys(b: char, i: char, r: char, d: char)
    requires b != i && b != r && b != d && i != r && i != d && r != d
    ensures Distinct([b, i, r, d, d]) == [b, i, r, d]
  {
    var s1 := [b];
    var s2 := s1 + [i];
    var s3 := s2 + [r];
    var s4 := s3 + [d];
    assert [b, i, r, d, d] == s4 + [d];
    DistinctSnoc([], b);
    assert [] + [b] == s1;
    assert Distinct(s1) == [b];
    DistinctSnoc(s1, i);
    assert Distinct(s2) == [b, i];
    DistinctSnoc(s2, r);
    assert Distinct(s3) == [b, i, r];
    DistinctSnoc(s3, d);
    assert Distinct(s4) == [b, i, r, d];
    DistinctSnoc(s4, d);
  }

  lemma BirddCounts(s: string)
    requires s == "birdd"
    ensures Occurrences(s, 'b') == 1 && Occurrences(s, 'i') == 1
    ensures Occurrences(s, 'r') == 1 && Occurrences(s, 'd') == 2
  {
    var s1 := ['b'];
    var s2 := s1 + ['i'];
    var s3 := s2 + ['r'];
    var s4 := s3 + ['d'];
    assert s == s4 + ['d'];
    OccurrencesSnoc([], 'b');
    assert [] + ['b'] == s1;
    OccurrencesSnoc(s1, 'i');
    OccurrencesSnoc(s2, 'r');
    OccurrencesSnoc(s3, 'd');
    OccurrencesSnoc(s4, 'd');
  }
}
