/** `func(s)`: splits s at every space, upper-cases the first character of
    each word (`x[0].toUpperCase() + x.substr(1)`) and joins the words with
    single spaces. An empty word has no `x[0]`, so the call fails there. */
module Capitalize {
  import opened Ascii

  datatype Option<T> = None | Some(value: T)

  /** `s.split(' ')`: the maximal space-free pieces between spaces; there is
      always at least one, and "" splits to [""]. */
  function Split(s: string): (words: seq<string>)
    ensures |words| >= 1
    ensures forall i :: 0 <= i < |words| ==> ' ' !in words[i]
  {
    if s == [] then [[]]
    else if s[0] == ' ' then [[]] + Split(s[1..])
    else
      var rest := Split(s[1..]);
      [[s[0]] + rest[0]] + rest[1..]
  }

  /** The total number of characters in the words. */
  function TotalLength(words: seq<string>): nat
  {
    if words == [] then 0 else |words[0]| + TotalLength(words[1..])
  }

  /** `words.join(' ')`: starts with the first word, and puts one space
      between each two consecutive words. */
  function Join(words: seq<string>): (r: string)
    ensures words != [] ==> words[0] <= r
    ensures words != [] ==> |r| == TotalLength(words) + |words| - 1
  {
    if words == [] then []
    else if |words| == 1 then words[0]
    else words[0] + [' '] + Join(words[1..])
  }

  /** The callback for one word; None stands for the TypeError thrown when
      the word is empty. Otherwise the word keeps its length and its tail,
      and its first character loses any lower-case letter form. */
  function CapitalizeWord(x: string): (r: Option<string>)
    ensures r.None? <==> x == []
    ensures r.Some? ==> |r.value| == |x| && r.value[1..] == x[1..]
    ensures r.Some? ==> ToLowerChar(r.value[0]) == ToLowerChar(x[0]) && !('a' <= r.value[0] <= 'z')
  {
    if x == [] then None else Some([ToUpperChar(x[0])] + x[1..])
  }

  /** `words.map(...)`: stops at the first word whose callback fails, and
      otherwise yields one word per input word. */
  function MapCapitalize(words: seq<string>): (r: Option<seq<string>>)
    ensures r.Some? ==> |r.value| == |words|
  {
    if words == [] then Some([])
    else
      match CapitalizeWord(words[0])
      case None => None
      case Some(w) =>
        match MapCapitalize(words[1..])
        case None => None
        case Some(ws) => Some([w] + ws)
  }

  /** `func(s)`: on success the result is exactly as long as s. */
  function Func(s: string): (r: Option<string>)
    ensures r.Some? ==> |r.value| == |s|
  {
    match MapCapitalize(Split(s))
    case None => None
    case Some(ws) =>
      MapCapitalizeWords(Split(s));
      JoinSplit(s);
      TotalLengthSame(Split(s), ws);
      Some(Join(ws))
  }

  /** Word lists of pointwise equal lengths have the same total length. */
  lemma {:induction false} TotalLengthSame(a: seq<string>, b: seq<string>)
    requires |a| == |b|
    requires forall i :: 0 <= i < |a| ==> |a[i]| == |b[i]|
    ensures TotalLength(a) == TotalLength(b)
  {
    if a != [] {
      TotalLengthSame(a[1..], b[1..]);
    }
  }

  /** A non-empty word followed by more words joins with one space. */
  lemma JoinMore(w: string, ws: seq<string>)
    requires ws != []
    ensures Join([w] + ws) == w + [' '] + Join(ws)
  {
    assert ([w] + ws)[1..] == ws;
  }

  /** Four words join with a space between each two. */
  lemma JoinFour(a: string, b: string, c: string, d: string)
    ensures Join([a, b, c, d]) == a + [' '] + b + [' '] + c + [' '] + d
  {
    assert [a, b, c, d] == [a] + [b, c, d];
    assert [b, c, d] == [b] + [c, d];
    assert [c, d] == [c] + [d];
    JoinMore(c, [d]);
    JoinMore(b, [c, d]);
    JoinMore(a, [b, c, d]);
  }

  lemma JoinCons(c: char, w: string, ws: seq<string>)
    ensures Join([[c] + w] + ws) == [c] + Join([w] + ws)
  {
    if ws != [] {
      assert ([[c] + w] + ws)[1..] == ws;
      assert ([w] + ws)[1..] == ws;
    }
  }

  /** Splitting at spaces and joining with spaces gives back the string. */
  lemma {:induction false} JoinSplit(s: string)
    ensures Join(Split(s)) == s
  {
    if s != [] {
      JoinSplit(s[1..]);
      var rest := Split(s[1..]);
      if s[0] == ' ' {
        assert ([[]] + rest)[1..] == rest;
        assert s == [' '] + s[1..];
      } else {
        JoinCons(s[0], rest[0], rest[1..]);
        assert [rest[0]] + rest[1..] == rest;
        assert s == [s[0]] + s[1..];
      }
    }
  }

  /** A space-free prefix joins the first word of what follows it. */
  lemma {:induction false} SplitPrefix(w: string, t: string)
    requires ' ' !in w
    ensures Split(w + t) == [w + Split(t)[0]] + Split(t)[1..]
  {
    if w != [] {
      assert (w + t)[0] == w[0];
      assert (w + t)[1..] == w[1..] + t;
      SplitPrefix(w[1..], t);
      assert [w[0]] + (w[1..] + Split(t)[0]) == w + Split(t)[0];
    } else {
      assert w + t == t;
      assert w + Split(t)[0] == Split(t)[0];
      assert [Split(t)[0]] + Split(t)[1..] == Split(t);
    }
  }

  /** Joining space-free words and splitting again gives back the words. */
  lemma {:induction false} SplitJoin(ws: seq<string>)
    requires |ws| >= 1
    requires forall i :: 0 <= i < |ws| ==> ' ' !in ws[i]
    ensures Split(Join(ws)) == ws
  {
    if |ws| == 1 {
      SplitPrefix(ws[0], []);
      assert ws[0] + [] == ws[0];
    } else {
      SplitJoin(ws[1..]);
      var t := [' '] + Join(ws[1..]);
      assert Join(ws) == ws[0] + t;
      SplitPrefix(ws[0], t);
      assert Split(t) == [[]] + ws[1..];
      assert ws[0] + [] == ws[0];
    }
  }

  /** The map fails exactly when some word is empty; when it succeeds it
      keeps the number of words, and each output word is its input word
      with the first character upper-cased and the rest unchanged. */
  lemma {:induction false} MapCapitalizeWords(words: seq<string>)
    ensures MapCapitalize(words).None? <==> HasEmptyWord(words)
    ensures MapCapitalize(words).Some? ==>
      var out := MapCapitalize(words).value;
      |out| == |words| &&
      forall i :: 0 <= i < |words| ==>
        |out[i]| == |words[i]| > 0 &&
        out[i][0] == ToUpperChar(words[i][0]) &&
        out[i][1..] == words[i][1..]
  {
    if words != [] {
      MapCapitalizeWords(words[1..]);
      if words[0] != [] {
        assert forall i :: 1 <= i < |words| ==> words[i] == words[1..][i - 1];
      }
    }
  }

  /** `func` fails exactly when the split yields an empty word. */
  lemma FuncFails(s: string)
    ensures Func(s).None? <==> HasEmptyWord(Split(s))
  {
    MapCapitalizeWords(Split(s));
    assert Func(s).None? <==> MapCapitalize(Split(s)).None?;
  }

  /** On success the result splits into as many words as s, each word of
      the same length, its first character upper-cased and the rest kept. */
  lemma FuncWords(s: string)
    requires Func(s).Some?
    ensures var words, out := Split(s), Split(Func(s).value);
      |out| == |words| &&
      forall i :: 0 <= i < |words| ==>
        |out[i]| == |words[i]| > 0 &&
        out[i][0] == ToUpperChar(words[i][0]) &&
        out[i][1..] == words[i][1..]
  {
    var words := Split(s);
    MapCapitalizeWords(words);
    var out := MapCapitalize(words).value;
    forall i | 0 <= i < |out| ensures ' ' !in out[i] {
      CaseFolding(words[i][0]);
      assert out[i] == [out[i][0]] + out[i][1..];
    }
    SplitJoin(out);
  }

  /** A non-empty word is capitalised in front of the other words. */
  lemma MapCapitalizeCons(w: string, ws: seq<string>)
    requires w != [] && MapCapitalize(ws).Some?
    ensures MapCapitalize([w] + ws) == Some([[ToUpperChar(w[0])] + w[1..]] + MapCapitalize(ws).value)
  {
    assert ([w] + ws)[0] == w;
    assert ([w] + ws)[1..] == ws;
  }

  /** `func` on four non-empty, space-free words joined by spaces
      capitalises each of them. */
  lemma FuncFour(a: string, b: string, c: string, d: string)
    requires a != [] && b != [] && c != [] && d != []
    requires ' ' !in a && ' ' !in b && ' ' !in c && ' ' !in d
    ensures Func(Join([a, b, c, d])) == Some(Join([
      [ToUpperChar(a[0])] + a[1..], [ToUpperChar(b[0])] + b[1..],
      [ToUpperChar(c[0])] + c[1..], [ToUpperChar(d[0])] + d[1..]]))
  {
    var ws := [a, b, c, d];
    SplitJoin(ws);
    var ca, cb, cc, cd := [ToUpperChar(a[0])] + a[1..], [ToUpperChar(b[0])] + b[1..],
      [ToUpperChar(c[0])] + c[1..], [ToUpperChar(d[0])] + d[1..];
    assert MapCapitalize([]) == Some([]);
    MapCapitalizeCons(d, []);
    assert [d] + [] == [d] && [cd] + [] == [cd];
    MapCapitalizeCons(c, [d]);
    assert [c] + [d] == [c, d] && [cc] + [cd] == [cc, cd];
    MapCapitalizeCons(b, [c, d]);
    assert [b] + [c, d] == [b, c, d] && [cb] + [cc, cd] == [cb, cc, cd];
    MapCapitalizeCons(a, [b, c, d]);
    assert [a] + [b, c, d] == ws && [ca] + [cb, cc, cd] == [ca, cb, cc, cd];
  }

  /** `func('a random flipping bird')` gives 'A Random Flipping Bird'. The
      sample is a parameter, and its pieces are separate lemmas, so that the
      solver does not unfold the split over the whole literal at once. */
  lemma Sample(s: string)
    requires s == "a random flipping bird"
    ensures Func(s) == Some("A Random Flipping Bird")
  {
    SampleInput(s, "a", "random", "flipping", "bird");
    SampleWords("a", "random", "flipping", "bird");
    FuncFour("a", "random", "flipping", "bird");
    SampleOutput("A Random Flipping Bird", "A", "Random", "Flipping", "Bird");
  }

  lemma SampleInput(s: string, a: string, b: string, c: string, d: string)
    requires s == "a random flipping bird"
    requires a == "a" && b == "random" && c == "flipping" && d == "bird"
    ensures s == Join([a, b, c, d])
  {
    JoinFour(a, b, c, d);
  }

  lemma SampleWords(a: string, b: string, c: string, d: string)
    requires a == "a" && b == "random" && c == "flipping" && d == "bird"
    ensures [ToUpperChar(a[0])] + a[1..] == "A"
    ensures [ToUpperChar(b[0])] + b[1..] == "Random"
    ensures [ToUpperChar(c[0])] + c[1..] == "Flipping"
    ensures [ToUpperChar(d[0])] + d[1..] == "Bird"
  {
  }

  lemma SampleOutput(s: string, a: string, b: string, c: string, d: string)
    requires s == "A Random Flipping Bird"
    requires a == "A" && b == "Random" && c == "Flipping" && d == "Bird"
    ensures Join([a, b, c, d]) == s
  {
    JoinFour(a, b, c, d);
  }

  predicate HasEmptyWord(words: seq<string>)
  {
    exists i :: 0 <= i < |words| && words[i] == []
  }

  predicate DoubleSpace(s: string)
  {
    exists k :: 0 <= k < |s| - 1 && s[k] == ' ' && s[k + 1] == ' '
  }

  /** A word list has an empty word exactly when its first word or one of
      the others is empty. */
  lemma HasEmptyWordCons(words: seq<string>)
    requires |words| >= 1
    ensures HasEmptyWord(words) <==> words[0] == [] || HasEmptyWord(words[1..])
  {
    if HasEmptyWord(words) {
      var i :| 0 <= i < |words| && words[i] == [];
      if i > 0 {
        assert words[1..][i - 1] == [];
      }
    }
    if HasEmptyWord(words[1..]) {
      var i :| 0 <= i < |words[1..]| && words[1..][i] == [];
      assert words[i + 1] == [];
    }
  }

  /** Two spaces in a row are at the front or further on. */
  lemma DoubleSpaceCons(t: string)
    requires t != []
    ensures DoubleSpace(t) <==> (|t| > 1 && t[0] == ' ' && t[1] == ' ') || DoubleSpace(t[1..])
  {
    var t' := t[1..];
    if DoubleSpace(t) {
      var k :| 0 <= k < |t| - 1 && t[k] == ' ' && t[k + 1] == ' ';
      if k > 0 {
        assert t'[k - 1] == ' ' && t'[k] == ' ';
      }
    }
    if DoubleSpace(t') {
      var k :| 0 <= k < |t'| - 1 && t'[k] == ' ' && t'[k + 1] == ' ';
      assert t[k + 1] == ' ' && t[k + 2] == ' ';
    }
  }

  /** The words after the first include an empty one exactly when t ends
      with a space or holds two spaces in a row. */
  lemma {:induction false} EmptyLaterWord(t: string)
    ensures HasEmptyWord(Split(t)[1..]) <==> (t != [] && t[|t| - 1] == ' ') || DoubleSpace(t)
  {
    if t != [] {
      var t' := t[1..];
      var r := Split(t');
      EmptyLaterWord(t');
      DoubleSpaceCons(t);
      if t[0] == ' ' {
        assert Split(t)[1..] == r;
        HasEmptyWordCons(r);
        assert r[0] == [] <==> t' == [] || t'[0] == ' ';
      } else {
        assert Split(t)[1..] == r[1..];
      }
    }
  }

  /** The split yields an empty word, so that `func` fails, exactly when s
      is empty, starts or ends with a space, or holds two spaces in a row. */
  lemma EmptyWordIff(s: string)
    ensures HasEmptyWord(Split(s)) <==>
      s == [] || s[0] == ' ' || s[|s| - 1] == ' ' || DoubleSpace(s)
  {
    EmptyLaterWord(s);
    HasEmptyWordCons(Split(s));
  }
}
