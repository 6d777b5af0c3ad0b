/** `AnalyzerService.analyzeRepeatedWords` (src/services/analyzer.js):
    word frequencies over a list of headers, keeping the words that occur
    more than once. A header is lower-cased, every character that is
    neither a `\w` character nor white space is deleted, the rest is split
    on runs of white space, and each non-empty piece is one occurrence. */
module Analyzer {
  import opened JsBuiltins

  /** What `analyzeRepeatedWords` is called with: an array of header values
      (strings, `null` or `undefined`) or something that is not an array. */
  datatype Headers = NotAnArray | Items(items: seq<JsStr>)

  // ---------------------------------------------------------------------
  // the string steps

  /** `toLowerCase` on one character, as far as the word filter can see
      it: the ASCII capitals, the Kelvin sign (U+212A), which becomes "k",
      and the dotted capital I (U+0130), which becomes "i" followed by the
      combining dot U+0307 that the filter then deletes. Every other
      upper-case letter lower-cases to a letter outside `\w`, which the
      filter deletes either way, so it is kept as it is. */
  function LowerChar(c: char): char {
    if c < '\U{0080}' then
      if 'A' <= c <= 'Z' then (c as int + 32) as char else c
    else if c == '\U{212A}' then 'k'
    else if c == '\U{0130}' then 'i'
    else c
  }

  lemma LowerCharNotUpper(c: char)
    ensures !('A' <= LowerChar(c) <= 'Z')
  {
  }

  /** `s.toLowerCase()`, character by character as `LowerChar` says. */
  function LowerCase(s: string): string {
    if s == [] then [] else [LowerChar(s[0])] + LowerCase(s[1..])
  }

  /** Lower-casing maps each character on its own and keeps the length. */
  lemma {:induction false} LowerCaseAt(s: string)
    ensures |LowerCase(s)| == |s|
    ensures forall i :: 0 <= i < |s| ==> LowerCase(s)[i] == LowerChar(s[i])
  {
    if s != [] {
      LowerCaseAt(s[1..]);
    }
  }

  /** The regular-expression class `\w`: ASCII letters, digits and `_`. */
  predicate IsWordChar(c: char) {
    ('a' <= c <= 'z') || ('A' <= c <= 'Z') || ('0' <= c <= '9') || c == '_'
  }

  /** `s.replace(/[^\w\s]/g, '')`: every character that is not a word
      character or white space is deleted, the others keep their order. */
  function StripNonWord(s: string): string {
    if s == [] then []
    else (if IsWordChar(s[0]) || IsSpace(s[0]) then [s[0]] else []) + StripNonWord(s[1..])
  }

  /** What survives the stripping is word characters and white space taken
      from `s`, and a string made only of those is left as it is. */
  lemma {:induction false} StripNonWordKeeps(s: string)
    ensures forall c :: c in StripNonWord(s) ==> c in s && (IsWordChar(c) || IsSpace(c))
    ensures (forall i :: 0 <= i < |s| ==> IsWordChar(s[i]) || IsSpace(s[i])) ==> StripNonWord(s) == s
  {
    if s != [] {
      StripNonWordKeeps(s[1..]);
      assert s == [s[0]] + s[1..];
      if forall i :: 0 <= i < |s| ==> IsWordChar(s[i]) || IsSpace(s[i]) {
        assert forall i :: 0 <= i < |s[1..]| ==> s[1..][i] == s[i + 1];
      }
    }
  }

  /** `s.split(/\s+/)`: the pieces between maximal runs of white space, at
      least one; a leading or trailing run yields an empty first or last
      piece (`"".split(/\s+/)` is `[""]`). */
  function SplitWs(s: string): (parts: seq<string>)
    ensures |parts| >= 1
    decreases |s|
  {
    if s == [] then [""]
    else if IsSpace(s[0]) then [""] + SplitWs(SkipSpaces(s[1..]))
    else
      var rest := SplitWs(s[1..]);
      [[s[0]] + rest[0]] + rest[1..]
  }

  /** `p` holds no white space and only characters of `s`. */
  ghost predicate PieceOf(p: string, s: string) {
    forall c :: c in p ==> c in s && !IsSpace(c)
  }

  lemma PieceOfWiden(p: string, t: string, s: string)
    requires PieceOf(p, t)
    requires forall c :: c in t ==> c in s
    ensures PieceOf(p, s)
  {
  }

  /** No piece holds white space, and every character of a piece is one
      of `s`. */
  lemma {:induction false} SplitWsPieces(s: string)
    ensures forall i :: 0 <= i < |SplitWs(s)| ==> PieceOf(SplitWs(s)[i], s)
    decreases |s|
  {
    if s != [] {
      var parts := SplitWs(s);
      if IsSpace(s[0]) {
        var t := SkipSpaces(s[1..]);
        SplitWsPieces(t);
        SkipSpacesSuffix(s[1..]);
        SuffixChars(s, t);
        forall i | 0 <= i < |parts| ensures PieceOf(parts[i], s) {
          if i > 0 {
            assert parts[i] == SplitWs(t)[i - 1];
            PieceOfWiden(parts[i], t, s);
          }
        }
      } else {
        var rest := SplitWs(s[1..]);
        SplitWsPieces(s[1..]);
        assert forall c :: c in s[1..] ==> c in s;
        forall i | 0 <= i < |parts| ensures PieceOf(parts[i], s) {
          if i == 0 {
            assert parts[0] == [s[0]] + rest[0];
            assert PieceOf(rest[0], s[1..]);
          } else {
            assert parts[i] == rest[i];
            PieceOfWiden(parts[i], s[1..], s);
          }
        }
      }
    }
  }

  /** The white space a match of `\s+` consumes after its first
      character. */
  function SkipSpaces(s: string): (r: string)
    ensures |r| <= |s|
  {
    if s != [] && IsSpace(s[0]) then SkipSpaces(s[1..]) else s
  }

  lemma {:induction false} SkipSpacesSuffix(s: string)
    ensures EndsWith(s, SkipSpaces(s))
  {
    if s != [] && IsSpace(s[0]) {
      SkipSpacesSuffix(s[1..]);
    }
  }

  lemma SuffixChars(s: string, t: string)
    requires |s| > 0 && EndsWith(s[1..], t)
    ensures forall c :: c in t ==> c in s
  {
    forall c | c in t ensures c in s {
      var i :| 0 <= i < |t| && t[i] == c;
      assert s[|s| - |t| + i] == c;
    }
  }

  /** A piece without white space splits into itself. */
  lemma {:induction false} SplitWsWord(w: string)
    requires forall i :: 0 <= i < |w| ==> !IsSpace(w[i])
    ensures SplitWs(w) == [w]
  {
    if w != [] {
      SplitWsWord(w[1..]);
      assert [w[0]] + w[1..] == w;
    }
  }

  /** A piece, one space, and the rest: the piece comes first. */
  lemma {:induction false} SplitWsAfterWord(w: string, rest: string)
    requires forall c :: c in w ==> !IsSpace(c)
    requires rest == [] || !IsSpace(rest[0])
    ensures SplitWs(w + " " + rest) == [w] + SplitWs(rest)
    decreases |w|
  {
    var s := w + " " + rest;
    if w == [] {
      assert s[1..] == rest;
    } else {
      assert s[1..] == w[1..] + " " + rest;
      SplitWsAfterWord(w[1..], rest);
      assert [w[0]] + w[1..] == w;
    }
  }

  /** The characters of `s` that are not white space, in order. */
  function DropSpaces(s: string): string {
    if s == [] then [] else (if IsSpace(s[0]) then [] else [s[0]]) + DropSpaces(s[1..])
  }

  function Concat(parts: seq<string>): string {
    if parts == [] then [] else parts[0] + Concat(parts[1..])
  }

  lemma {:induction false} DropSpacesSkip(s: string)
    ensures DropSpaces(SkipSpaces(s)) == DropSpaces(s)
  {
    if s != [] && IsSpace(s[0]) {
      DropSpacesSkip(s[1..]);
    }
  }

  /** Splitting on white space loses exactly the white space: the pieces
      put back together are the string without its white-space characters. */
  lemma {:induction false} SplitWsConcat(s: string)
    ensures Concat(SplitWs(s)) == DropSpaces(s)
    decreases |s|
  {
    if s != [] {
      if IsSpace(s[0]) {
        var t := SkipSpaces(s[1..]);
        SplitWsConcat(t);
        DropSpacesSkip(s[1..]);
        assert ([""] + SplitWs(t))[1..] == SplitWs(t);
      } else {
        var rest := SplitWs(s[1..]);
        SplitWsConcat(s[1..]);
        assert ([[s[0]] + rest[0]] + rest[1..])[1..] == rest[1..];
        assert Concat(rest) == rest[0] + Concat(rest[1..]);
      }
    }
  }

  // ---------------------------------------------------------------------
  // the words of the headers

  /** A counted word: non-empty, only lower-case word characters. */
  predicate IsWord(w: string) {
    w != [] && forall i :: 0 <= i < |w| ==> IsWordChar(w[i]) && !('A' <= w[i] <= 'Z')
  }

  /** `header.toLowerCase().replace(/[^\w\s]/g, '')` */
  function CleanHeader(h: string): string {
    StripNonWord(LowerCase(h))
  }

  /** The pieces of a header after lower-casing, stripping and splitting. */
  function Tokens(h: string): seq<string> {
    SplitWs(CleanHeader(h))
  }

  /** The non-empty pieces, in order: the `word.length > 0` filter. */
  function NonEmpty(ts: seq<string>): seq<string> {
    if ts == [] then []
    else NonEmpty(ts[..|ts| - 1]) + (if ts[|ts| - 1] != [] then [ts[|ts| - 1]] else [])
  }

  /** The filter drops exactly the empty pieces: every kept piece is one of
      `ts` and non-empty, and every non-empty piece is kept as often as it
      occurs. */
  lemma {:induction false} NonEmptyKeeps(ts: seq<string>)
    ensures forall w :: w in NonEmpty(ts) ==> w != [] && w in ts
    ensures forall w :: w != [] ==> multiset(NonEmpty(ts))[w] == multiset(ts)[w]
  {
    if ts != [] {
      var n := |ts|;
      var init := ts[..n - 1];
      var last := if ts[n - 1] != [] then [ts[n - 1]] else [];
      NonEmptyKeeps(init);
      assert ts == init + [ts[n - 1]];
      assert multiset(ts) == multiset(init) + multiset{ts[n - 1]};
      assert multiset(NonEmpty(ts)) == multiset(NonEmpty(init)) + multiset(last);
      assert forall w :: w in NonEmpty(ts) ==> w in NonEmpty(init) || w in last;
    }
  }

  /** Nothing changes when no piece is empty. */
  lemma {:induction false} NonEmptyOfWords(ts: seq<string>)
    requires forall i :: 0 <= i < |ts| ==> ts[i] != []
    ensures NonEmpty(ts) == ts
  {
    if ts != [] {
      var n := |ts|;
      NonEmptyOfWords(ts[..n - 1]);
      assert ts == ts[..n - 1] + [ts[n - 1]];
    }
  }

  /** The occurrences one header contributes; a falsy header contributes
      none. */
  function HeaderWords(h: JsStr): seq<string> {
    if !h.Truthy() then [] else NonEmpty(Tokens(h.s))
  }

  /** Every counted occurrence is a word: the counts never hold an empty
      key, an upper-case letter, white space or punctuation. */
  lemma HeaderWordsAreWords(h: JsStr)
    ensures !h.Truthy() ==> HeaderWords(h) == []
    ensures forall w :: w in HeaderWords(h) ==> IsWord(w)
  {
    if h.Truthy() {
      var lower := LowerCase(h.s);
      LowerCaseAt(h.s);
      var clean := StripNonWord(lower);
      StripNonWordKeeps(lower);
      SplitWsPieces(clean);
      NonEmptyKeeps(Tokens(h.s));
      assert forall i :: 0 <= i < |Tokens(h.s)| ==> PieceOf(Tokens(h.s)[i], clean);
      forall c | c in clean ensures !('A' <= c <= 'Z') {
        var i :| 0 <= i < |lower| && lower[i] == c;
        LowerCharNotUpper(h.s[i]);
      }
      forall w | w in HeaderWords(h) ensures IsWord(w) {
        forall i | 0 <= i < |w| ensures IsWordChar(w[i]) && !('A' <= w[i] <= 'Z') {
          assert w[i] in w;
        }
      }
    }
  }

  /** Every occurrence across the headers, header by header, in order. */
  function AllWords(hs: seq<JsStr>): seq<string> {
    WordsBefore(hs, |hs|)
  }

  /** The occurrences in the first `n` headers. */
  function WordsBefore(hs: seq<JsStr>, n: nat): seq<string>
    requires n <= |hs|
  {
    FlatBefore(HeaderWords, hs, n)
  }

  /** `f` of each of `xs[..n]`, concatenated in order. */
  function FlatBefore<T>(f: T -> seq<string>, xs: seq<T>, n: nat): seq<string>
    requires n <= |xs|
  {
    if n == 0 then [] else FlatBefore(f, xs, n - 1) + f(xs[n - 1])
  }

  /** How many times `w` is counted. */
  function Occurrences(input: Headers, w: string): nat {
    if input.NotAnArray? then 0 else multiset(AllWords(input.items))[w]
  }

  /** The two words that are already keys of the plain object `{}` the
      counts live in, through `Object.prototype`. For "constructor",
      `wordCounts[word] || 0` is the inherited `Object` function, so `+ 1`
      makes the count a string and `count > 1` is false; assigning a string
      to "__proto__" is ignored, so it never becomes an own key. Neither is
      ever reported. (Every other inherited key has an upper-case letter,
      which no counted word has.) */
  predicate Inherited(w: string) {
    w == "constructor" || w == "__proto__"
  }

  /** The result `analyzeRepeatedWords` promises: every word counted more
      than once, with its count, except the inherited keys. */
  function RepeatedWords(input: Headers): (m: map<string, nat>)
    ensures forall w :: w in m <==> Occurrences(input, w) > 1 && !Inherited(w)
    ensures forall w :: w in m ==> m[w] == Occurrences(input, w)
  {
    if input.NotAnArray? then map[] else OwnKeys(RepeatedIn(AllWords(input.items)))
  }

  /** `m` without the inherited keys. */
  function OwnKeys(m: map<string, nat>): (r: map<string, nat>)
    ensures forall w :: w in r <==> w in m && !Inherited(w)
    ensures forall w :: w in r ==> r[w] == m[w]
  {
    map w | w in m && !Inherited(w) :: m[w]
  }

  /** The words occurring more than once in `ws`, with their counts. */
  function RepeatedIn<T(==,!new)>(ws: seq<T>): (m: map<T, nat>)
    ensures forall w :: w in m <==> multiset(ws)[w] > 1
    ensures forall w :: w in m ==> m[w] == multiset(ws)[w]
  {
    map w | w in ws && multiset(ws)[w] > 1 :: multiset(ws)[w]
  }

  // ---------------------------------------------------------------------
  // the counting loops

  /** `m` holds exactly the words of `ws` that get a numeric count, each
      with its number of occurrences. */
  ghost predicate Counts(m: map<string, nat>, ws: seq<string>) {
    forall w {:trigger CountOf(m, w)} :: CountOf(m, w) == Tally(ws, w)
  }

  /** The number the counts hold for `w` after the words `ws`: none for an
      inherited key. */
  function Tally(ws: seq<string>, w: string): nat {
    if Inherited(w) then 0 else multiset(ws)[w]
  }

  /** `wordCounts[word] || 0` */
  function CountOf(m: map<string, nat>, w: string): nat {
    if w in m then m[w] else 0
  }

  lemma CountsStep(m: map<string, nat>, ws: seq<string>, word: string)
    requires Counts(m, ws) && !Inherited(word)
    ensures Counts(m[word := CountOf(m, word) + 1], ws + [word])
  {
    forall w ensures CountOf(m[word := CountOf(m, word) + 1], w) == Tally(ws + [word], w) {
      assert CountOf(m, w) == Tally(ws, w);
      assert multiset(ws + [word]) == multiset(ws) + multiset{word};
    }
  }

  /** An inherited key leaves the numeric counts as they were. */
  lemma CountsSkip(m: map<string, nat>, ws: seq<string>, word: string)
    requires Counts(m, ws) && Inherited(word)
    ensures Counts(m, ws + [word])
  {
    forall w ensures CountOf(m, w) == Tally(ws + [word], w) {
      assert CountOf(m, w) == Tally(ws, w);
      assert multiset(ws + [word]) == multiset(ws) + multiset{word};
    }
  }

  /** The inner `forEach`: each non-empty piece adds one to its count; an
      inherited key gets no numeric count (see `Inherited`). */
  method CountWords(wordCounts: map<string, nat>, words: seq<string>, ghost seen: seq<string>)
    returns (counts: map<string, nat>)
    requires Counts(wordCounts, seen)
    ensures Counts(counts, seen + NonEmpty(words))
  {
    counts := wordCounts;
    ghost var counted := seen;
    var j := 0;
    while j < |words|
      invariant 0 <= j <= |words|
      invariant counted == seen + NonEmpty(words[..j])
      invariant Counts(counts, counted)
    {
      var word := words[j];
      NonEmptyPrefix(words, j);
      if |word| > 0 {
        if !Inherited(word) {
          CountsStep(counts, counted, word);
          counts := counts[word := CountOf(counts, word) + 1];
        } else {
          CountsSkip(counts, counted, word);
        }
        counted := counted + [word];
      }
      j := j + 1;
    }
    assert words[..j] == words;
  }

  lemma NonEmptyPrefix(words: seq<string>, j: nat)
    requires j < |words|
    ensures words[j] != [] ==> NonEmpty(words[..j + 1]) == NonEmpty(words[..j]) + [words[j]]
    ensures words[j] == [] ==> NonEmpty(words[..j + 1]) == NonEmpty(words[..j])
  {
    assert words[..j + 1][..j] == words[..j];
  }

  /** The outer `forEach` over the headers: falsy headers are skipped. */
  method CountAll(headers: seq<JsStr>) returns (wordCounts: map<string, nat>)
    ensures Counts(wordCounts, AllWords(headers))
  {
    wordCounts := map[];
    ghost var counted: seq<string> := [];
    var i := 0;
    while i < |headers|
      invariant 0 <= i <= |headers|
      invariant counted == WordsBefore(headers, i)
      invariant Counts(wordCounts, counted)
    {
      WordsBeforeStep(headers, i);
      wordCounts := CountHeader(wordCounts, headers[i], counted);
      counted := counted + HeaderWords(headers[i]);
      i := i + 1;
    }
  }

  /** The callback the outer `forEach` runs on one header: a falsy header is
      skipped, any other is cleaned, split and counted. */
  method CountHeader(wordCounts: map<string, nat>, header: JsStr, ghost seen: seq<string>)
    returns (counts: map<string, nat>)
    requires Counts(wordCounts, seen)
    ensures Counts(counts, seen + HeaderWords(header))
  {
    if header.Truthy() {
      var cleanHeader := CleanHeader(header.s);
      var words := SplitWs(cleanHeader);
      counts := CountWords(wordCounts, words, seen);
    } else {
      counts := wordCounts;
      assert seen + HeaderWords(header) == seen;
    }
  }

  lemma WordsBeforeStep(headers: seq<JsStr>, i: nat)
    requires i < |headers|
    ensures WordsBefore(headers, i + 1) == WordsBefore(headers, i) + HeaderWords(headers[i])
  {
  }

  /** The `for...of` loop over `Object.entries(wordCounts)`, taken in
      whatever order the entries come: the entries counted more than once. */
  method KeepRepeated(wordCounts: map<string, nat>) returns (repeated: map<string, nat>)
    ensures forall w :: w in repeated <==> w in wordCounts && wordCounts[w] > 1
    ensures forall w :: w in repeated ==> repeated[w] == wordCounts[w]
  {
    repeated := map[];
    var remaining := wordCounts.Keys;
    while remaining != {}
      invariant remaining <= wordCounts.Keys
      invariant forall w :: w in repeated <==> w in wordCounts && w !in remaining && wordCounts[w] > 1
      invariant forall w :: w in repeated ==> repeated[w] == wordCounts[w]
      decreases |remaining|
    {
      var word :| word in remaining;
      var count := wordCounts[word];
      if count > 1 {
        repeated := repeated[word := count];
      }
      remaining := remaining - {word};
    }
  }

  /** `analyzeRepeatedWords(headers)`: the early return for a non-array or
      empty input, the counting, and the filter on counts above one. */
  method AnalyzeRepeatedWords(input: Headers) returns (repeated: map<string, nat>)
    ensures input.NotAnArray? || input.items == [] ==> repeated == map[]
    ensures forall w :: w in repeated <==> Occurrences(input, w) > 1 && !Inherited(w)
    ensures forall w :: w in repeated ==> repeated[w] == Occurrences(input, w)
    ensures repeated == RepeatedWords(input)
  {
    if input.NotAnArray? || |input.items| == 0 {
      return map[];
    }
    var wordCounts := CountAll(input.items);
    repeated := KeepRepeated(wordCounts);
    RepeatedOfCounts(input, wordCounts, repeated);
  }

  /** Keeping the counts above one from the counts of all the words gives
      the repeated words. */
  lemma RepeatedOfCounts(input: Headers, wordCounts: map<string, nat>, repeated: map<string, nat>)
    requires input.Items? && Counts(wordCounts, AllWords(input.items))
    requires forall w :: w in repeated <==> w in wordCounts && wordCounts[w] > 1
    requires forall w :: w in repeated ==> repeated[w] == wordCounts[w]
    ensures repeated == RepeatedWords(input)
  {
    var m := RepeatedWords(input);
    forall w ensures w in repeated <==> w in m {
      CountOfRepeated(input, wordCounts, w);
    }
    assert repeated.Keys == m.Keys;
    forall w | w in m ensures repeated[w] == m[w] {
      CountOfRepeated(input, wordCounts, w);
    }
  }

  lemma CountOfRepeated(input: Headers, wordCounts: map<string, nat>, w: string)
    requires input.Items? && Counts(wordCounts, AllWords(input.items))
    ensures CountOf(wordCounts, w) == if Inherited(w) then 0 else Occurrences(input, w)
  {
  }

  // ---------------------------------------------------------------------
  // properties

  /** Counts add up over the headers: the occurrences of a word in two
      lists of headers together are its occurrences in each. */
  lemma {:induction false} OccurrencesAppend(hs: seq<JsStr>, more: seq<JsStr>, w: string)
    ensures Occurrences(Items(hs + more), w) == Occurrences(Items(hs), w) + Occurrences(Items(more), w)
  {
    AllWordsAppend(hs, more);
  }

  /** An element of the concatenation comes from one of the parts. */
  lemma {:induction false} FlatBeforeMember<T>(f: T -> seq<string>, xs: seq<T>, n: nat, w: string)
    requires n <= |xs| && w in FlatBefore(f, xs, n)
    ensures exists k :: 0 <= k < n && w in f(xs[k])
  {
    if w !in f(xs[n - 1]) {
      FlatBeforeMember(f, xs, n - 1, w);
    }
  }

  /** Every key of the result is a word, so no reported word holds white
      space, punctuation or an upper-case letter. */
  lemma RepeatedAreWords(input: Headers)
    ensures forall w :: w in RepeatedWords(input) ==> IsWord(w)
  {
    forall w | w in RepeatedWords(input) ensures IsWord(w) {
      var hs := input.items;
      assert w in AllWords(hs);
      FlatBeforeMember(HeaderWords, hs, |hs|, w);
      var k :| 0 <= k < |hs| && w in HeaderWords(hs[k]);
      HeaderWordsAreWords(hs[k]);
    }
  }

  /** The occurrences of two lists of headers together are those of the
      first followed by those of the second. */
  lemma AllWordsAppend(hs: seq<JsStr>, more: seq<JsStr>)
    ensures AllWords(hs + more) == AllWords(hs) + AllWords(more)
  {
    FlatAppend(HeaderWords, hs, more);
  }

  lemma FlatAppend<T>(f: T -> seq<string>, xs: seq<T>, ys: seq<T>)
    ensures FlatBefore(f, xs + ys, |xs + ys|) == FlatBefore(f, xs, |xs|) + FlatBefore(f, ys, |ys|)
  {
    FlatBeforeAppend(f, xs, ys, |ys|);
  }

  lemma {:induction false} FlatBeforeAppend<T>(f: T -> seq<string>, xs: seq<T>, ys: seq<T>, k: nat)
    requires k <= |ys|
    ensures FlatBefore(f, xs + ys, |xs| + k) == FlatBefore(f, xs, |xs|) + FlatBefore(f, ys, k)
    decreases k
  {
    if k == 0 {
      FlatBeforePrefix(f, xs, ys, |xs|);
    } else {
      FlatBeforeAppend(f, xs, ys, k - 1);
      assert (xs + ys)[|xs| + k - 1] == ys[k - 1];
    }
  }

  lemma {:induction false} FlatBeforePrefix<T>(f: T -> seq<string>, xs: seq<T>, ys: seq<T>, j: nat)
    requires j <= |xs|
    ensures FlatBefore(f, xs + ys, j) == FlatBefore(f, xs, j)
  {
    if j > 0 {
      FlatBeforePrefix(f, xs, ys, j - 1);
      assert (xs + ys)[j - 1] == xs[j - 1];
    }
  }

  /** A header that only differs in the case of ASCII letters counts the
      same words. */
  lemma CaseInsensitive(a: string, b: string)
    requires LowerCase(a) == LowerCase(b)
    ensures HeaderWords(Str(a)) == HeaderWords(Str(b))
  {
    LowerCaseAt(a);
    LowerCaseAt(b);
  }

  /** Accented letters are not `\w` characters, so they vanish from inside
      a word rather than splitting it. */
  lemma AccentsVanish()
    ensures HeaderWords(Str("Opinión")) == ["opinin"]
  {
    TokensOpinion();
    assert NonEmpty(["opinin"]) == ["opinin"];
  }

  lemma TokensOpinion()
    ensures Tokens("Opinión") == ["opinin"]
  {
    CleanOpinion();
    SplitWsWord("opinin");
  }

  lemma CleanOpinion()
    ensures CleanHeader("Opinión") == "opinin"
  {
    LowerOpinion();
    StripOpinion();
  }

  lemma LowerOpinion()
    ensures LowerCase("Opinión") == "opinión"
  {
    var lower := LowerCase("Opinión");
    LowerCaseAt("Opinión");
    assert forall i :: 0 <= i < 7 ==> lower[i] == "opinión"[i];
  }

  lemma StripOpinion()
    ensures StripNonWord("opinión") == "opinin"
  {
    StripAccented();
    assert "inión"[1..] == "nión" && StripNonWord("inión") == "inin";
    assert "pinión"[1..] == "inión" && StripNonWord("pinión") == "pinin";
    assert "opinión"[1..] == "pinión";
  }

  lemma StripAccented()
    ensures StripNonWord("nión") == "nin"
  {
    assert StripNonWord("n") == "n";
    assert "ón"[1..] == "n" && StripNonWord("ón") == "n";
    assert "ión"[1..] == "ón" && StripNonWord("ión") == "in";
    assert "nión"[1..] == "ión";
  }

  /** A header made of lower-case word characters and plain spaces is
      left as it is by lower-casing and stripping. */
  lemma CleanOfWords(h: string)
    requires forall i :: 0 <= i < |h| ==> h[i] == ' ' || (IsWordChar(h[i]) && !('A' <= h[i] <= 'Z'))
    ensures CleanHeader(h) == h
  {
    LowerCaseAt(h);
    assert LowerCase(h) == h;
    StripNonWordKeeps(h);
  }

  lemma SplitThree(a: string, b: string, c: string)
    requires IsWord(a) && IsWord(b) && IsWord(c)
    ensures SplitWs(a + " " + b + " " + c) == [a, b, c]
  {
    assert a + " " + b + " " + c == a + " " + (b + " " + c);
    assert forall ch :: ch in a ==> !IsSpace(ch);
    assert forall ch :: ch in b ==> !IsSpace(ch);
    SplitWsAfterWord(a, b + " " + c);
    SplitWsAfterWord(b, c);
    SplitWsWord(c);
  }

  /** The words of a header already in lower case with single spaces. */
  lemma ThreeWords(a: string, b: string, c: string)
    requires IsWord(a) && IsWord(b) && IsWord(c)
    ensures HeaderWords(Str(a + " " + b + " " + c)) == [a, b, c]
  {
    var h := a + " " + b + " " + c;
    forall i | 0 <= i < |h| ensures h[i] == ' ' || (IsWordChar(h[i]) && !('A' <= h[i] <= 'Z')) {
      if i < |a| { assert h[i] == a[i]; }
      else if i == |a| { }
      else if i < |a| + 1 + |b| { assert h[i] == b[i - |a| - 1]; }
      else if i == |a| + 1 + |b| { }
      else { assert h[i] == c[i - |a| - |b| - 2]; }
    }
    CleanOfWords(h);
    SplitThree(a, b, c);
    NonEmptyOfWords([a, b, c]);
  }

  lemma SecondHeaderWords()
    ensures HeaderWords(Str("the cat ran")) == ["the", "cat", "ran"]
  {
    assert IsWord("the") && IsWord("cat") && IsWord("ran");
    assert "the cat ran" == "the" + " " + "cat" + " " + "ran";
    ThreeWords("the", "cat", "ran");
  }

  lemma ThirdHeaderWords()
    ensures HeaderWords(Str("a dog ran")) == ["a", "dog", "ran"]
  {
    assert IsWord("a") && IsWord("dog") && IsWord("ran");
    assert "a dog ran" == "a" + " " + "dog" + " " + "ran";
    ThreeWords("a", "dog", "ran");
  }

  lemma FirstHeaderWords()
    ensures HeaderWords(Str("The Cat Sat")) == ["the", "cat", "sat"]
  {
    FirstHeaderCase();
    LowerFirstHeaderWords();
  }

  lemma FirstHeaderCase()
    ensures HeaderWords(Str("The Cat Sat")) == HeaderWords(Str("the cat sat"))
  {
    LowerFirstHeader();
    CaseInsensitive("The Cat Sat", "the cat sat");
  }

  lemma LowerFirstHeaderWords()
    ensures HeaderWords(Str("the cat sat")) == ["the", "cat", "sat"]
  {
    assert IsWord("the") && IsWord("cat") && IsWord("sat");
    assert "the cat sat" == "the" + " " + "cat" + " " + "sat";
    ThreeWords("the", "cat", "sat");
  }

  lemma LowerFirstHeader()
    ensures LowerCase("The Cat Sat") == LowerCase("the cat sat")
  {
    var l := LowerCase("The Cat Sat");
    var r := LowerCase("the cat sat");
    LowerCaseAt("The Cat Sat");
    LowerCaseAt("the cat sat");
    assert forall i :: 0 <= i < 11 ==> l[i] == r[i];
  }

  lemma AllWordsOfThree(x: JsStr, y: JsStr, z: JsStr)
    ensures AllWords([x, y, z]) == HeaderWords(x) + HeaderWords(y) + HeaderWords(z)
  {
    FlatOfThree(HeaderWords, x, y, z);
  }

  lemma FlatOfThree<T>(f: T -> seq<string>, x: T, y: T, z: T)
    ensures FlatBefore(f, [x, y, z], 3) == f(x) + f(y) + f(z)
  {
    var xs := [x, y, z];
    assert FlatBefore(f, xs, 1) == FlatBefore(f, xs, 0) + f(x);
    assert FlatBefore(f, xs, 2) == f(x) + f(y);
  }

  /** Three headers where two words occur in the first two and a third
      word in the last two: exactly those three are repeated, twice each. */
  lemma SharedWords(x: JsStr, y: JsStr, z: JsStr, a: string, b: string, c: string, d: string, e: string, f: string)
    requires HeaderWords(x) == [a, b, c] && HeaderWords(y) == [a, b, d] && HeaderWords(z) == [e, f, d]
    requires a != b && a != c && a != d && a != e && a != f
    requires b != c && b != d && b != e && b != f
    requires c != d && c != e && c != f && d != e && d != f && e != f
    requires !Inherited(a) && !Inherited(b) && !Inherited(d)
    ensures RepeatedWords(Items([x, y, z])) == map[a := 2, b := 2, d := 2]
  {
    var ws := [a, b, c, a, b, d, e, f, d];
    AllWordsOfThree(x, y, z);
    assert AllWords([x, y, z]) == ws by {
      assert [a, b, c] + [a, b, d] + [e, f, d] == ws;
    }
    RepeatedOfNine(a, b, c, d, e, f);
    OwnKeysOfThree(a, b, d);
  }

  /** A word of another length than the two inherited keys is not one. */
  lemma NotInherited(w: string)
    requires |w| != 11 && |w| != 9
    ensures !Inherited(w)
  {
  }

  lemma OwnKeysOfThree(a: string, b: string, d: string)
    requires !Inherited(a) && !Inherited(b) && !Inherited(d)
    ensures OwnKeys(map[a := 2, b := 2, d := 2]) == map[a := 2, b := 2, d := 2]
  {
    var expected := map[a := 2, b := 2, d := 2];
    assert OwnKeys(expected).Keys == expected.Keys;
  }

  lemma RepeatedOfNine<T(!new)>(a: T, b: T, c: T, d: T, e: T, f: T)
    requires a != b && a != c && a != d && a != e && a != f
    requires b != c && b != d && b != e && b != f
    requires c != d && c != e && c != f && d != e && d != f && e != f
    ensures RepeatedIn([a, b, c, a, b, d, e, f, d]) == map[a := 2, b := 2, d := 2]
  {
    var ws := [a, b, c, a, b, d, e, f, d];
    NineCounts(a, b, c, d, e, f);
    var m := RepeatedIn(ws);
    var expected := map[a := 2, b := 2, d := 2];
    assert m.Keys == expected.Keys;
  }

  lemma NineCounts<T(!new)>(a: T, b: T, c: T, d: T, e: T, f: T)
    requires a != b && a != c && a != d && a != e && a != f
    requires b != c && b != d && b != e && b != f
    requires c != d && c != e && c != f && d != e && d != f && e != f
    ensures var ms := multiset([a, b, c, a, b, d, e, f, d]);
            ms[a] == 2 && ms[b] == 2 && ms[d] == 2 && forall w :: w != a && w != b && w != d ==> ms[w] <= 1
  {
    var ms := multiset([a, b, c, a, b, d, e, f, d]);
    forall w | w != a && w != b && w != d
      ensures ms[w] <= 1
    {
      if w == c {
        assert ms[w] == 1;
      } else if w == e {
        assert ms[w] == 1;
      } else if w == f {
        assert ms[w] == 1;
      } else {
        assert ms[w] == 0;
      }
    }
  }

  /** Three concrete headers: "The" and "the" are one word. */
  lemma ThreeHeaders()
    ensures RepeatedWords(Items([Str("The Cat Sat"), Str("the cat ran"), Str("a dog ran")]))
            == map["the" := 2, "cat" := 2, "ran" := 2]
  {
    FirstHeaderWords();
    SecondHeaderWords();
    ThirdHeaderWords();
    NotInherited("the");
    NotInherited("cat");
    NotInherited("ran");
    SharedWords(Str("The Cat Sat"), Str("the cat ran"), Str("a dog ran"), "the", "cat", "sat", "ran", "a", "dog");
  }
}
