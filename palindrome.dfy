/** `isPalindrome(s)`: compares s with `s.split('').reverse().join('')`. */
module Palindrome {

  /** `s.split('').reverse().join('')`: as long as s, starting with s's
      last character and ending with its first. */
  function Reverse(s: string): (r: string)
    ensures |r| == |s|
    ensures s != [] ==> r[0] == s[|s| - 1] && r[|r| - 1] == s[0]
  {
    if s == [] then [] else Reverse(s[1..]) + [s[0]]
  }

  /** The reversal has the same length and holds s's characters back to
      front. */
  lemma {:induction false} ReverseAt(s: string)
    ensures |Reverse(s)| == |s|
    ensures forall k :: 0 <= k < |s| ==> Reverse(s)[k] == s[|s| - 1 - k]
  {
    if s != [] {
      ReverseAt(s[1..]);
    }
  }

  /** Reversing twice gives back the string. */
  lemma ReverseInvolution(s: string)
    ensures Reverse(Reverse(s)) == s
  {
    ReverseAt(s);
    ReverseAt(Reverse(s));
  }

  /** A palindrome starts and ends with the same character, and every
      string of at most one character is one. */
  predicate IsPalindrome(s: string)
    ensures IsPalindrome(s) && s != [] ==> s[0] == s[|s| - 1]
    ensures |s| <= 1 ==> IsPalindrome(s)
  {
    s == Reverse(s)
  }

  /** A palindrome reads the same from both ends, and conversely. */
  lemma PalindromeMirror(s: string)
    ensures IsPalindrome(s) <==> forall k :: 0 <= k < |s| ==> s[k] == s[|s| - 1 - k]
  {
    ReverseAt(s);
  }

  /** A string is a palindrome exactly when its reversal is, and the empty
      string is one. */
  lemma PalindromeOfReverse(s: string)
    ensures IsPalindrome(Reverse(s)) == IsPalindrome(s)
    ensures IsPalindrome([])
  {
    ReverseInvolution(s);
  }
}
