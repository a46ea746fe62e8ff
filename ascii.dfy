/** ASCII case mapping, standing for `toUpperCase` and `toLowerCase` on the
    characters 'a'..'z' and 'A'..'Z'; every other character is unchanged. */
module Ascii {
  import opened Sequences

  function ToUpperChar(c: char): char
  {
    if 'a' <= c <= 'z' then (c as int - 32) as char else c
  }

  function ToLowerChar(c: char): char
  {
    if 'A' <= c <= 'Z' then (c as int + 32) as char else c
  }

  /** `s.toUpperCase()`: the same letters, ignoring case, with no
      lower-case letter left. */
  function ToUpper(s: string): (r: string)
    ensures |r| == |s|
    ensures forall i :: 0 <= i < |s| ==> ToLowerChar(r[i]) == ToLowerChar(s[i])
    ensures forall i :: 0 <= i < |r| ==> !('a' <= r[i] <= 'z')
  {
    MapPointwise(s, ToUpperChar);
    Map(s, ToUpperChar)
  }

  /** `s.toLowerCase()`: the same letters, ignoring case, with no
      upper-case letter left. */
  function ToLower(s: string): (r: string)
    ensures |r| == |s|
    ensures forall i :: 0 <= i < |s| ==> ToUpperChar(r[i]) == ToUpperChar(s[i])
    ensures forall i :: 0 <= i < |r| ==> !('A' <= r[i] <= 'Z')
  {
    MapPointwise(s, ToLowerChar);
    Map(s, ToLowerChar)
  }

  /** Upper-casing first does not change a character's lower-case form,
      and lower-casing is idempotent. */
  lemma CaseFolding(c: char)
    ensures ToLowerChar(ToUpperChar(c)) == ToLowerChar(c)
    ensures ToLowerChar(ToLowerChar(c)) == ToLowerChar(c)
    ensures ToUpperChar(c) == ' ' <==> c == ' '
  {
  }
}
