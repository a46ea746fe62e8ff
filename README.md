# Small JavaScript utilities, modelled and verified in Dafny

This repository is a collection of separate JavaScript learning snippets.
The model covers the ones that compute something precise:

- **Sequence map, in two versions.** `calculate(arr, logic)` visits the
  indices that `arr.keys()` yields. The `Array.prototype.calculate`
  polyfill runs an index loop from 0 to `length - 1`. Both write
  `output[i] = logic(arr[i])` into a new array. Both are modelled as
  methods that fill a newly allocated Dafny `array` in a loop. Each is
  proved equal to the pure function `Sequences.Map`. A ghost trace records
  which index each callback call used. The properties of `Map` are proved
  as lemmas.
- **Recursive flatten** of nested number lists. Inputs are the datatype
  `Nested = Num(int) | List(seq<Nested>)`. The method `FlattenLoop`
  mirrors the source's `for ... of` loop with `ans = ans.concat(...)` and
  its recursive call. It is proved equal to the recursive function
  `Flatten`.
- **String utilities** from `jest_react/index.js`:
  - `isPalindrome`.
  - `func`, which capitalises each space-separated word. It is a function
    returning `Option`, because the source throws on an empty word.
  - `f`, the character-frequency `Map`. It is a loop method returning the
    counts and the insertion order of the keys.
- **Vowel counter** `countVowels`: a left fold over the lower-cased
  characters, checked against the vowel set.

Strings are `seq<char>`. `toUpperCase`/`toLowerCase` are modelled as ASCII
case mapping (module `Ascii`).

Files: `sequences.dfy`, `calculate.dfy`, `calculate_polyfill.dfy`,
`flattening.dfy`, `palindrome.dfy`, `capitalize.dfy`, `frequency.dfy`,
`ascii.dfy`, `vowels.dfy`.

## Model

| member | source | states |
|---|---|---|
| Sequences.Map | examples/higherOrderFunctions2.js:35-38 | the reference for both `calculate` versions: f applied to every element, in order; its contract gives the length, and MapPointwise the element at each index |
| Sequences.MapPointwise | examples/higherOrderFunctions2.js:35-38 | the mapped sequence has the input's length and holds f(s[i]) at every index i (so also [] maps to []) |
| Sequences.MapSnoc | examples/higherOrderFunctions2.js:35-37 | mapping a prefix extended by one element extends the mapped prefix by f of that element (the loop step) |
| Sequences.MapAppend | examples/higherOrderFunctions2.js:35-37 | map distributes over concatenation |
| Sequences.MapIdentity | examples/higherOrderFunctions2.js:29-39 | mapping with the identity gives a sequence equal to the input |
| Sequences.MapCompose | examples/higherOrderFunctions2.js:29-39 | mapping with f then g equals mapping with their composition |
| Calculate.Diameter | examples/higherOrderFunctions.js:17 | `diameter(r)`: an even number whose half is r |
| Calculate.Keys | examples/higherOrderFunctions.js:10 | `keys()` of a length-n array yields exactly the indices 0..n-1 in increasing order |
| Calculate.Calculate | examples/higherOrderFunctions.js:8-14 | the output is a newly allocated array equal to Map(arr, logic), so it has the same length and output[i] == logic(arr[i]); the input is not modified (no modifies clause); the callback is called once per key, in key order |
| Calculate.DiametersOfRadii | examples/higherOrderFunctions.js:17-22 | calculate(radii, diameter) on [1, 2, 3, 4] gives [2, 4, 6, 8] |
| CalculatePolyfill.CalculatePolyfill | examples/higherOrderFunctions2.js:29-39 | the output is a newly allocated array equal to Map(receiver, logicCallback); the receiver is not modified; the callback is called at indices 0, 1, ..., length-1 in that order, once each |
| CalculatePolyfill.VersionsAgree | examples/higherOrderFunctions2.js:32-37 | the key-iterating version and the index-loop version give element-for-element equal outputs for the same array and callback, and their returned call traces are equal (same indices, same order) |
| CalculatePolyfill.DiametersOfRadii | examples/higherOrderFunctions2.js:42-47 | radii.calculate(diameter) on [1, 2, 3, 4] gives [2, 4, 6, 8] |
| Flattening.Flatten | examples/flattening_array.js:4-15 | the reference for `flatten(list)`: the leaves of the elements from the left, one number per leaf (length LeafCount); with FlattenLeaves, FlattenAppend and FlattenFlat below |
| Flattening.Leaves | examples/flattening_array.js:7-12 | what one element adds to `ans`: a number itself, a nested list its flattening; length LeafCount([x]) |
| Flattening.FlattenLoop | examples/flattening_array.js:4-15 | the loop with concat and the recursive call returns exactly Flatten(list) |
| Flattening.FlattenAppend | examples/flattening_array.js:6-13 | flatten(a ++ b) == flatten(a) ++ flatten(b) |
| Flattening.FlattenLeaves | examples/flattening_array.js:6-12 | a number occurs in the result exactly when it is a leaf of the input at some depth |
| Flattening.FlattenFlat | examples/flattening_array.js:6-8 | an input whose elements are all numbers comes back element for element |
| Flattening.FlattenIdempotent | examples/flattening_array.js:4-15 | flattening the result again (as a list of numbers) gives the same result |
| Flattening.SampleFlattened | examples/flattening_array.js:17-19 | the sample [1, [1, 2], a, [[[3, 2], [4], [[[5, [[6]]]]]]]] flattens to [1, 1, 2, 1, 2, 3, 2, 4, 5, 6] |
| Palindrome.Reverse | jest_react/index.js:21 | `s.split('').reverse().join('')`: as long as s, first character s's last and last character s's first; ReverseAt gives every index |
| Palindrome.IsPalindrome | jest_react/index.js:20-22 | a palindrome starts and ends with the same character, and every string of length at most 1 is one; PalindromeMirror gives the full characterisation |
| Palindrome.ReverseAt | jest_react/index.js:21 | split-reverse-join gives a string of the same length holding s's characters back to front |
| Palindrome.ReverseInvolution | jest_react/index.js:21 | reversing twice gives back s |
| Palindrome.PalindromeMirror | jest_react/index.js:20-22 | isPalindrome(s) holds exactly when s[k] == s[len-1-k] for every k |
| Palindrome.PalindromeOfReverse | jest_react/index.js:20-22 | isPalindrome(reverse(s)) == isPalindrome(s), and the empty string is a palindrome |
| Ascii.ToUpper | jest_react/index.js:27 | `toUpperCase` on ASCII: same length, each character the same letter ignoring case, and no lower-case letter left |
| Ascii.ToLower | js_practice/205.js:8 | `toLowerCase` on ASCII: same length, each character the same letter ignoring case, and no upper-case letter left |
| Ascii.CaseFolding | js_practice/205.js:8 | lower-casing after upper-casing equals lower-casing, lower-casing is idempotent, and upper-casing maps only the space to a space |
| Capitalize.Split | jest_react/index.js:25 | `split(' ')` always yields at least one word and no word contains a space |
| Capitalize.Join | jest_react/index.js:28 | `words.join(' ')`: starts with the first word and is as long as all words plus one space between each two |
| Capitalize.CapitalizeWord | jest_react/index.js:27 | the map callback: None (the TypeError) exactly for the empty word; otherwise the same length, the same tail, and a first character that is the same letter with no lower-case form left |
| Capitalize.MapCapitalize | jest_react/index.js:26-28 | `words.map(...)`: on success one output word per input word; MapCapitalizeWords gives when it fails and what each word becomes |
| Capitalize.Func | jest_react/index.js:24-29 | `func(s)`: split at ' ', capitalise each word, join; None where the source throws; on success the result is exactly as long as s; see FuncFails and FuncWords |
| Capitalize.JoinSplit | jest_react/index.js:25-28 | joining the split with single spaces gives back the string |
| Capitalize.SplitJoin | jest_react/index.js:25-28 | splitting the join of at least one space-free word gives back the words |
| Capitalize.MapCapitalizeWords | jest_react/index.js:26-28 | the word map fails exactly when some word is empty; on success it keeps the word count, each word's length, upper-cases its first character and keeps the rest |
| Capitalize.FuncFails | jest_react/index.js:24-29 | func fails exactly when the split yields an empty word |
| Capitalize.FuncWords | jest_react/index.js:24-29 | on success the result splits into as many words as the input, each of the same length, with its first character upper-cased and the rest unchanged |
| Capitalize.EmptyWordIff | jest_react/index.js:25-27 | the split yields an empty word exactly when the string is empty, starts or ends with a space, or has two spaces in a row |
| Capitalize.FuncFour | jest_react/index.js:24-29 | four non-empty, space-free words joined by spaces come back joined by spaces, each with its first character upper-cased |
| Capitalize.Sample | jest_react/index.js:31 | func('a random flipping bird') gives 'A Random Flipping Bird' |
| Frequency.Frequencies | jest_react/index.js:33-43 | the map's keys are exactly the characters of s, each count is that character's number of occurrences, and the key order is the order of first occurrence, without duplicates |
| Frequency.CountStep | jest_react/index.js:36-40 | one has/get/set step turns the counts of a prefix into the counts of the prefix extended by one character |
| Frequency.Distinct | jest_react/index.js:34-41 | the key order of the Map: each new character appended when first seen; never longer than s; DistinctKeys and DistinctOrder below |
| Frequency.DistinctKeys | jest_react/index.js:34-41 | the key order holds every character of s exactly once and nothing else |
| Frequency.DistinctOrder | jest_react/index.js:35-41 | of two keys, the earlier one in the key order first occurs earlier in s (first indices strictly increase along the key order) |
| Frequency.OccurrencesPositive | jest_react/index.js:36-40 | a character's count is at least 1 exactly when it occurs in s |
| Frequency.CountsSumToLength | jest_react/index.js:36-40 | the counts over all keys add up to the length of s |
| Frequency.Birdd | jest_react/index.js:44 | f('birdd') has keys b, i, r, d in that order, with d counted 2 and the others 1 |
| Vowels.VowelSetOfList | js_practice/205.js:4-7 | the set VowelSet, built from the `vowels` list as `new Set(vowels)` does, is exactly {a, e, i, o, u} |
| Vowels.Step | js_practice/205.js:8-13 | the reducer adds one exactly for a character of the `vowels` list and otherwise keeps the accumulator |
| Vowels.Reduce | js_practice/205.js:8-14 | the fold from acc never decreases and adds at most one per character |
| Vowels.CountVowels | js_practice/205.js:6-15 | `countVowels(data)`: never more than the length of data; CountVowelsIsNumVowels gives its value |
| Vowels.ReduceCounts | js_practice/205.js:8-14 | the reduce over the lower-cased characters from accumulator acc gives acc plus the number of vowels |
| Vowels.CountVowelsIsNumVowels | js_practice/205.js:6-15 | countVowels equals the number of characters whose lower-case form is a, e, i, o or u |
| Vowels.CountVowelsAppend | js_practice/205.js:8-14 | countVowels(a + b) == countVowels(a) + countVowels(b) |
| Vowels.CountVowelsCaseInsensitive | js_practice/205.js:8 | upper-casing or lower-casing the input does not change the count |
| Vowels.CountVowelsNone | js_practice/205.js:9-13 | a string with no vowel in either case gives 0 |
| Vowels.NoVowelInY | js_practice/205.js:4 | "y" and "Y" give 0 |
| Vowels.Sample | js_practice/205.js:3-17 | 'HeY JS! YOu R AmAzinG' gives 6 |

## Left out

- `area` and `circumference` (both versions) use `Math.PI`, i.e. floating
  point. The examples use the integer `diameter` instead, and the map
  lemmas hold for any transformation.
- CalculatePolyfill.DiametersOfRadii: the source's own call at
  examples/higherOrderFunctions2.js:45-47 passes `area`. The model passes
  `diameter`, because `area` is floating point.
- `Array.prototype` mutation and the `this` receiver. The polyfill is a
  free method whose first parameter is the receiver.
- `console.log` calls, including `console.log(this)` inside the polyfill:
  output only.
- Calculate.Calculate, CalculatePolyfill.CalculatePolyfill: a callback
  that throws is not modelled. In the source the exception propagates out
  of `calculate`. Here callbacks are total Dafny functions, so that path
  does not exist.
- Calculate.Calculate, CalculatePolyfill.CalculatePolyfill: the output
  element type must have a default value (`U(0)`), because the output
  array is allocated at full length before the loop fills it. A
  JavaScript array holds any value, so the source has no such
  restriction; non-null class types, for example, are excluded here.
- Sparse arrays with holes. Dafny arrays are dense. `keys()` also yields
  the indices of holes, so here the key loop and the index loop visit the
  same indices.
- JavaScript arrays grow when assigned past their end. The model allocates
  the output at the input's length up front. Since indices are written in
  order 0, 1, ..., the final contents are the same.
- The JavaScript `Map` returned by `f` is a mutable object. The model
  returns its contents as values: the key insertion order and a Dafny
  `map`.
- `func`'s `TypeError` on an empty word is modelled as `None`. The error
  message is not modelled.
- Case mapping covers ASCII letters only. `split('')` (UTF-16 code units)
  and `for ... of` (code points) both become iteration over `char`. In
  practice:
  - For a string with a character outside the Basic Multilingual Plane,
    such as '😀', `split('')` breaks the surrogate pair. The source's
    `isPalindrome('😀')` is then false, while the model's IsPalindrome
    holds for the one-character string.
  - `'İ'.toLowerCase()` gives "i̇" (an 'i' plus a combining dot). The
    source's `countVowels('İ')` is then 1; the model's CountVowels("İ")
    is 0.
  - `'ß'.toUpperCase()` gives "SS". FuncWords's "each word keeps its
    length" therefore holds for ASCII words only.
- `flatten` on elements that are neither numbers nor arrays (a string
  would recurse forever) is not modelled: the `Nested` datatype has only
  numbers and lists.
- "Every element of the result is a number" holds by the result type
  `seq<int>` and has no lemma of its own.
- Not part of this model: `myArr.flat()` (a built-in), the commented-out
  snippets and `typeof null` in `jest_react/index.js`, and the other
  scripts of the repository. Those are DOM and Promise demos,
  `setTimeout` demos, worker threads, a class demo, an unfinished
  LeetCode snippet, a file that only calls built-in methods, and a test of
  a module whose source is absent.
