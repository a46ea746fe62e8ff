/** `countVowels(data)`: lower-cases the string, splits it into characters
    and folds over them from the left, starting at 0 and adding one for
    every character in the set built from `vowels`. */
module Vowels {
  import opened Sequences
  import opened Ascii

  /** `vowels` */
  const VowelList: seq<char> := ['a', 'e', 'i', 'o', 'u']

  /** `v = new Set(vowels)` */
  const VowelSet: set<char> := set v | v in VowelList

  /** The set built from the list holds exactly the five lower-case
      vowels. */
  lemma VowelSetOfList()
    ensures VowelSet == {'a', 'e', 'i', 'o', 'u'}
  {
    assert forall v :: v in VowelList <==> v == 'a' || v == 'e' || v == 'i' || v == 'o' || v == 'u';
  }

  /** The reducer passed to `reduce`: adds one exactly for a character of
      the `vowels` list. */
  function Step(acc: nat, x: char): (r: nat)
    ensures r == acc + 1 <==> x in VowelList
    ensures r == acc <==> x !in VowelList
  {
    if x in VowelSet then acc + 1 else acc
  }

  /** `xs.reduce(Step, acc)`: a left fold, which adds at most one per
      character. */
  function Reduce(acc: nat, xs: seq<char>): (r: nat)
    ensures acc <= r <= acc + |xs|
    decreases xs
  {
    if xs == [] then acc else Reduce(Step(acc, xs[0]), xs[1..])
  }

  /** `countVowels(data)`: never more than the number of characters. */
  function CountVowels(data: string): (r: nat)
    ensures r <= |data|
  {
    Reduce(0, ToLower(data))
  }

  predicate IsVowel(c: char)
  {
    ToLowerChar(c) in VowelSet
  }

  /** Reference count: the number of characters of s whose lower-case form
      is one of a, e, i, o, u. */
  function NumVowels(s: string): nat
  {
    if s == [] then 0 else (if IsVowel(s[0]) then 1 else 0) + NumVowels(s[1..])
  }

  lemma {:induction false} ReduceCounts(acc: nat, s: string)
    ensures Reduce(acc, ToLower(s)) == acc + NumVowels(s)
    decreases s
  {
    if s != [] {
      assert ToLower(s)[0] == ToLowerChar(s[0]);
      assert ToLower(s)[1..] == ToLower(s[1..]);
      ReduceCounts(Step(acc, ToLowerChar(s[0])), s[1..]);
    }
  }

  /** The fold counts exactly the vowels of the reference definition. */
  lemma CountVowelsIsNumVowels(data: string)
    ensures CountVowels(data) == NumVowels(data)
  {
    ReduceCounts(0, data);
  }

  lemma {:induction false} NumVowelsAppend(a: string, b: string)
    ensures NumVowels(a + b) == NumVowels(a) + NumVowels(b)
  {
    if a == [] {
      assert a + b == b;
    } else {
      assert (a + b)[1..] == a[1..] + b;
      NumVowelsAppend(a[1..], b);
    }
  }

  /** The count is additive over concatenation. */
  lemma CountVowelsAppend(a: string, b: string)
    ensures CountVowels(a + b) == CountVowels(a) + CountVowels(b)
  {
    CountVowelsIsNumVowels(a + b);
    CountVowelsIsNumVowels(a);
    CountVowelsIsNumVowels(b);
    NumVowelsAppend(a, b);
  }

  lemma {:induction false} NumVowelsCaseInsensitive(s: string)
    ensures NumVowels(ToUpper(s)) == NumVowels(s)
    ensures NumVowels(ToLower(s)) == NumVowels(s)
  {
    if s != [] {
      CaseFolding(s[0]);
      assert ToUpper(s)[0] == ToUpperChar(s[0]) && ToUpper(s)[1..] == ToUpper(s[1..]);
      assert ToLower(s)[0] == ToLowerChar(s[0]) && ToLower(s)[1..] == ToLower(s[1..]);
      NumVowelsCaseInsensitive(s[1..]);
    }
  }

  /** Counting ignores case: upper- or lower-casing the input first gives
      the same count. */
  lemma CountVowelsCaseInsensitive(data: string)
    ensures CountVowels(ToUpper(data)) == CountVowels(data)
    ensures CountVowels(ToLower(data)) == CountVowels(data)
  {
    CountVowelsIsNumVowels(data);
    CountVowelsIsNumVowels(ToUpper(data));
    CountVowelsIsNumVowels(ToLower(data));
    NumVowelsCaseInsensitive(data);
  }

  lemma {:induction false} NumVowelsZero(s: string)
    requires forall i :: 0 <= i < |s| ==> !IsVowel(s[i])
    ensures NumVowels(s) == 0
  {
    if s != [] {
      NumVowelsZero(s[1..]);
    }
  }

  /** A string none of whose characters is a vowel in either case gives 0. */
  lemma CountVowelsNone(data: string)
    requires forall i :: 0 <= i < |data| ==> !IsVowel(data[i])
    ensures CountVowels(data) == 0
  {
    CountVowelsIsNumVowels(data);
    NumVowelsZero(data);
  }

  /** The sample string `str` has six vowels. (The sample is a parameter
      so that the solver does not unfold the count over the whole literal
      at once.) */
  lemma Sample(str: string)
    requires str == "HeY JS! YOu R AmAzinG"
    ensures CountVowels(str) == 6
  {
    assert str == "HeY JS!" + " YOu R" + " AmAzinG";
    SampleFirstWords();
    SampleMiddleWords();
    SampleLastWord();
    NumVowelsAppend("HeY JS!" + " YOu R", " AmAzinG");
    NumVowelsAppend("HeY JS!", " YOu R");
    CountVowelsIsNumVowels(str);
  }

  lemma SampleFirstWords() ensures NumVowels("HeY JS!") == 1 { SampleChars(); }
  lemma SampleMiddleWords() ensures NumVowels(" YOu R") == 2 { SampleChars(); }
  lemma SampleLastWord() ensures NumVowels(" AmAzinG") == 3 { SampleChars(); }

  /** Which characters of the sample are vowels. */
  lemma SampleChars()
    ensures IsVowel('e') && IsVowel('O') && IsVowel('u') && IsVowel('A') && IsVowel('i')
    ensures !IsVowel('H') && !IsVowel('Y') && !IsVowel(' ') && !IsVowel('J') && !IsVowel('S')
    ensures !IsVowel('!') && !IsVowel('R') && !IsVowel('m') && !IsVowel('z') && !IsVowel('n')
    ensures !IsVowel('G')
  {
    VowelSetOfList();
  }

  /** "y" and "Y" are not vowels. */
  lemma NoVowelInY()
    ensures CountVowels("y") == 0 && CountVowels("Y") == 0
  {
    CountVowelsIsNumVowels("y");
    CountVowelsIsNumVowels("Y");
  }
}
