/**
 * The sentence extractor: the sentences of the cleaned text that contain a
 * disabled word are cleaned of line breaks, emphasis marks, wrapping quotes
 * and any dialogue before a closing `……`, and collected without duplicates
 * in the order the nested loops (words outer, sentences inner) find them.
 */
module Extractor {
  import opened Strings
  import opened Matcher
  import opened Segmenter

  /** The CJK ellipsis: two U+2026 characters. */
  const Ellipsis: string := "……"

  /** `s.replace(/[\r\n]/g, ' ')`. */
  function LineBreaksToSpaces(s: string): (r: string)
    ensures |r| == |s|
  {
    seq(|s|, i requires 0 <= i < |s| => if s[i] == '\r' || s[i] == '\n' then ' ' else s[i])
  }

  // `s.replace(/\*/g, '')`: every `*` is deleted and every other character
  // kept, and a text without one is returned as it is.
  function RemoveAsterisks(s: string): (r: string)
    ensures |r| <= |s|
    ensures '*' !in r
    ensures multiset(r) == multiset(s)['*' := 0]
    ensures '*' !in s ==> r == s
  {
    if s == [] then []
    else
      assert s == [s[0]] + s[1..];
      (if s[0] == '*' then [] else [s[0]]) + RemoveAsterisks(s[1..])
  }

  /** `s.replace(/^[\s"'“‘]+|[\s"'”’]+$/g, '')`: the global replacement
      removes the leading run of opening wraps, then the trailing run of
      closing wraps of what is left. */
  function StripWraps(s: string): string {
    DropWhileEnd(DropWhile(s, OpeningWrap), ClosingWrap)
  }

  /** Lines 78-80: line breaks become spaces, the text is trimmed, `*` is
      deleted, wrapping quotes and white space are stripped from both ends,
      and the text is trimmed again. */
  function Unwrapped(sentence: string): string {
    Trim(StripWraps(RemoveAsterisks(Trim(LineBreaksToSpaces(sentence)))))
  }

  /** Lines 81-84: when the last `……` is followed by more text, only that
      text is kept. */
  function CutAtEllipsis(u: string): string {
    var k := LastIndexOf(u, Ellipsis);
    if k != -1 && k + 2 < |u| then u[k + 2..] else u
  }

  /** Lines 78-85: the sentence as it is added to the set; line 85 strips
      leading wraps once more and trims. */
  function Normalise(sentence: string): string {
    Trim(DropWhile(CutAtEllipsis(Unwrapped(sentence)), OpeningWrap))
  }

  /** Starts with no opening wrap and ends with no closing wrap. */
  predicate Bare(s: string) {
    s == [] || (!IsOpeningWrap(s[0]) && !IsClosingWrap(s[|s| - 1]))
  }

  /** A bare text is trimmed: white space opens and closes a wrap. */
  lemma BareIsTrimmed(s: string)
    requires Bare(s)
    ensures Trim(s) == s
  {
  }

  lemma LineBreaksGone(s: string)
    ensures All(LineBreaksToSpaces(s), NoBreak)
  {
  }

  lemma {:induction false} AsterisksGone(s: string)
    requires All(s, NoBreak)
    ensures All(RemoveAsterisks(s), Plain)
    decreases |s|
  {
    if s != [] {
      AllSlice(s, NoBreak, 1, |s|);
      AsterisksGone(s[1..]);
    }
  }

  /** Stripping the wraps leaves a bare text and keeps every property the
      characters shared. */
  lemma StripWrapsBare(s: string, keep: CharClass)
    requires All(s, keep)
    ensures Bare(StripWraps(s)) && All(StripWraps(s), keep)
  {
    var front := DropWhile(s, OpeningWrap);
    var r := DropWhileEnd(front, ClosingWrap);
    SpanBounds(s, OpeningWrap);
    SpanEndBounds(front, ClosingWrap);
    AllSlice(s, keep, Span(s, OpeningWrap), |s|);
    AllSlice(front, keep, 0, |r|);
    assert r != [] ==> r[0] == front[0];
  }

  /** Deleting `*` from a concatenation deletes it from each part. On one
      character the contract of `RemoveAsterisks` gives `[]` for `*` (the
      counts) and the character itself otherwise, so this fixes the result. */
  lemma {:induction false} RemoveAsterisksConcat(a: string, b: string)
    ensures RemoveAsterisks(a + b) == RemoveAsterisks(a) + RemoveAsterisks(b)
    decreases |a|
  {
    if a == [] {
      assert a + b == b;
    } else {
      assert (a + b)[1..] == a[1..] + b;
      RemoveAsterisksConcat(a[1..], b);
      var head := if a[0] == '*' then [] else [a[0]];
      ConcatAssoc(head, RemoveAsterisks(a[1..]), RemoveAsterisks(b));
    }
  }

  /** Stripping the wraps removes a leading run of opening wraps and a
      trailing run of closing wraps, and leaves a bare text alone. */
  lemma StripWrapsSlice(s: string)
    ensures exists i, j :: 0 <= i <= j <= |s| && StripWraps(s) == s[i..j]
              && All(s[..i], OpeningWrap) && All(s[j..], ClosingWrap)
    ensures Bare(s) ==> StripWraps(s) == s
  {
    var i := Span(s, OpeningWrap);
    var front := s[i..];
    var e := SpanEnd(front, ClosingWrap);
    SpanBounds(s, OpeningWrap);
    SpanEndBounds(front, ClosingWrap);
    var j := |s| - e;
    assert StripWraps(s) == s[i..j];
    assert All(s[..i], OpeningWrap);
    assert forall k :: j <= k < |s| ==> s[k] == front[k - i];
    assert All(s[j..], ClosingWrap);
  }

  /** A sentence that is already plain and bare comes through lines 78-80
      unchanged. */
  lemma UnwrappedKeepsBare(sentence: string)
    requires All(sentence, Plain) && Bare(sentence)
    ensures Unwrapped(sentence) == sentence
  {
    assert LineBreaksToSpaces(sentence) == sentence;
    BareIsTrimmed(sentence);
    assert '*' !in sentence by {
      assert forall k :: 0 <= k < |sentence| ==> sentence[k] != '*';
    }
    StripWrapsSlice(sentence);
  }

  /** An unwrapped sentence has no line break and no `*`, and is bare. */
  lemma UnwrappedShape(sentence: string)
    ensures All(Unwrapped(sentence), Plain) && Bare(Unwrapped(sentence))
  {
    var spaced := LineBreaksToSpaces(sentence);
    LineBreaksGone(sentence);
    TrimAll(spaced, NoBreak);
    var b := RemoveAsterisks(Trim(spaced));
    AsterisksGone(Trim(spaced));
    StripWrapsBare(b, Plain);
    BareIsTrimmed(StripWraps(b));
  }

  /** Dropping the leading run of `p` from a text that does not end in `q`
      keeps the properties every character has, and leaves a text that does
      not start in `p` and still does not end in `q`. */
  lemma DropFront(d: string, p: CharClass, q: CharClass, keep: CharClass)
    requires All(d, keep) && (d == [] || !InClass(d[|d| - 1], q))
    ensures var e := DropWhile(d, p);
      All(e, keep) && (e == [] || (!InClass(e[0], p) && !InClass(e[|e| - 1], q)))
  {
    SpanBounds(d, p);
    AllSlice(d, keep, Span(d, p), |d|);
  }

  /** `k` is the position of the last occurrence of `pat` in `s`. */
  predicate LastOccurrence(s: string, pat: string, k: int) {
    OccursAt(s, pat, k) && forall j :: k < j <= |s| - |pat| ==> !OccursAt(s, pat, j)
  }

  /** The cut keeps a bare text's properties. */
  lemma CutShape(u: string)
    requires All(u, Plain) && Bare(u)
    ensures var d := CutAtEllipsis(u);
      All(d, Plain) && (d == [] || !IsClosingWrap(d[|d| - 1]))
  {
    var k := LastIndexOf(u, Ellipsis);
    if k != -1 && k + 2 < |u| {
      AllSlice(u, Plain, k + 2, |u|);
    }
  }

  /** A normalised sentence has no line break and no `*`, does not start
      with white space or an opening quote, and does not end with white
      space or a closing quote. */
  lemma NormaliseShape(sentence: string)
    ensures All(Normalise(sentence), Plain) && Bare(Normalise(sentence))
  {
    var u := Unwrapped(sentence);
    UnwrappedShape(sentence);
    CutShape(u);
    var e := DropWhile(CutAtEllipsis(u), OpeningWrap);
    DropFront(CutAtEllipsis(u), OpeningWrap, ClosingWrap, Plain);
    BareIsTrimmed(e);
  }

  /** An occurrence inside a slice is an occurrence in the whole text. */
  lemma OccursInSlice(u: string, a: nat, pat: string, j: int)
    requires a <= |u| && OccursAt(u[a..], pat, j)
    ensures OccursAt(u, pat, a + j)
  {
    assert u[a + j..a + j + |pat|] == u[a..][j..j + |pat|];
  }

  /** When the last `……` of the unwrapped sentence is followed by more text,
      only that text survives, without its leading wraps, and it holds no
      `……`. */
  lemma NormaliseKeepsTextAfterEllipsis(sentence: string, k: int)
    requires LastOccurrence(Unwrapped(sentence), Ellipsis, k) && k + 2 < |Unwrapped(sentence)|
    ensures Normalise(sentence) == DropWhile(Unwrapped(sentence)[k + 2..], OpeningWrap)
    ensures forall j :: !OccursAt(Normalise(sentence), Ellipsis, j)
  {
    var u := Unwrapped(sentence);
    UnwrappedShape(sentence);
    CutAfterLast(u, k);
    NothingAfterLast(u, k);
  }

  /** The cut of a bare text at its last `……`, stripped of leading wraps,
      is already trimmed. */
  lemma CutAfterLast(u: string, k: int)
    requires All(u, Plain) && Bare(u)
    requires LastOccurrence(u, Ellipsis, k) && k + 2 < |u|
    ensures Trim(DropWhile(CutAtEllipsis(u), OpeningWrap)) == DropWhile(u[k + 2..], OpeningWrap)
  {
    assert LastIndexOf(u, Ellipsis) == k;
    var d := u[k + 2..];
    assert CutAtEllipsis(u) == d;
    AllSlice(u, Plain, k + 2, |u|);
    DropFront(d, OpeningWrap, ClosingWrap, Plain);
    BareIsTrimmed(DropWhile(d, OpeningWrap));
  }

  /** No `……` follows the last one. */
  lemma NothingAfterLast(u: string, k: int)
    requires LastOccurrence(u, Ellipsis, k) && k + 2 < |u|
    ensures var e := DropWhile(u[k + 2..], OpeningWrap);
      forall j :: !OccursAt(e, Ellipsis, j)
  {
    var d := u[k + 2..];
    var e := DropWhile(d, OpeningWrap);
    var m := Span(d, OpeningWrap);
    assert e == u[k + 2 + m..];
    forall j | OccursAt(e, Ellipsis, j) ensures false {
      OccursInSlice(u, k + 2 + m, Ellipsis, j);
    }
  }

  /** Otherwise the sentence is just unwrapped. */
  lemma NormaliseWithoutCut(sentence: string)
    requires forall k :: LastOccurrence(Unwrapped(sentence), Ellipsis, k) ==> k + 2 >= |Unwrapped(sentence)|
    ensures Normalise(sentence) == Unwrapped(sentence)
  {
    var u := Unwrapped(sentence);
    UnwrappedShape(sentence);
    var k := LastIndexOf(u, Ellipsis);
    if k != -1 {
      assert LastOccurrence(u, Ellipsis, k);
    }
    assert CutAtEllipsis(u) == u;
    SpanBounds(u, OpeningWrap);
    assert DropWhile(u, OpeningWrap) == u;
    BareIsTrimmed(u);
  }

  /** A sentence that is plain, bare and has no `……` followed by more text
      is its own normal form. */
  lemma NormaliseFixed(sentence: string)
    requires All(sentence, Plain) && Bare(sentence)
    requires forall k :: LastOccurrence(sentence, Ellipsis, k) ==> k + 2 >= |sentence|
    ensures Normalise(sentence) == sentence
  {
    UnwrappedKeepsBare(sentence);
    NormaliseWithoutCut(sentence);
  }

  /** Normalising a normalised sentence changes nothing. */
  lemma NormaliseIdempotent(sentence: string)
    ensures Normalise(Normalise(sentence)) == Normalise(sentence)
  {
    var u := Unwrapped(sentence);
    var x := Normalise(sentence);
    NormaliseShape(sentence);
    var k := LastIndexOf(u, Ellipsis);
    if k != -1 && k + 2 < |u| {
      assert LastOccurrence(u, Ellipsis, k);
      NormaliseKeepsTextAfterEllipsis(sentence, k);
      assert forall j :: !LastOccurrence(x, Ellipsis, j);
    } else {
      assert forall j :: LastOccurrence(u, Ellipsis, j) ==> j == k;
      NormaliseWithoutCut(sentence);
    }
    NormaliseFixed(x);
  }

  /** The sentences that `matches` accepts, each passed through `clean`, in order. */
  function Harvest(matches: string -> bool, clean: string -> string, sentences: seq<string>): (r: seq<string>)
    ensures forall x :: x in r <==> exists j :: 0 <= j < |sentences| && matches(sentences[j]) && x == clean(sentences[j])
    decreases |sentences|
  {
    if sentences == [] then []
    else
      var n := |sentences| - 1;
      var init := sentences[..n];
      assert forall j :: 0 <= j < n ==> init[j] == sentences[j];
      Harvest(matches, clean, init) + (if matches(sentences[n]) then [clean(sentences[n])] else [])
  }

  /** The inner loop, lines 76-86: the normalised sentences that match `word`, in order. */
  function Hits(word: string, sentences: seq<string>): seq<string> {
    Harvest(s => WordMatches(s, word), Normalise, sentences)
  }

  /** The results of `f` on each of `words`, one after another. */
  function ConcatMap(f: string -> seq<string>, words: seq<string>): (r: seq<string>)
    ensures forall x :: x in r <==> exists i :: 0 <= i < |words| && x in f(words[i])
    decreases |words|
  {
    if words == [] then []
    else
      var m := |words| - 1;
      var init := words[..m];
      assert forall i :: 0 <= i < m ==> init[i] == words[i];
      ConcatMap(f, init) + f(words[m])
  }

  /** Both loops, lines 73-87: every word in turn, every sentence for each word. */
  function Candidates(words: seq<string>, sentences: seq<string>): seq<string> {
    ConcatMap(w => Hits(w, sentences), words)
  }

  /** Where `x` first appears in `xs`. */
  function FirstPos(xs: seq<string>, x: string): (i: nat)
    requires x in xs
    ensures i < |xs| && xs[i] == x && x !in xs[..i]
  {
    if xs[0] == x then 0
    else
      var i := 1 + FirstPos(xs[1..], x);
      assert xs[..i] == [xs[0]] + xs[1..][..i - 1];
      i
  }

  /** The first position is the only one with no earlier copy. */
  lemma FirstPosUnique(xs: seq<string>, x: string, i: nat)
    requires i < |xs| && xs[i] == x && x !in xs[..i]
    ensures FirstPos(xs, x) == i
  {
    var f := FirstPos(xs, x);
  }

  predicate NoDuplicates(xs: seq<string>) {
    forall i, j :: 0 <= i < j < |xs| ==> xs[i] != xs[j]
  }

  /** A JavaScript `Set` filled from `xs`, read back with `Array.from`: each
      element once, in the order of its first insertion. */
  function Dedup(xs: seq<string>): (r: seq<string>)
    ensures forall x :: x in r <==> x in xs
    ensures NoDuplicates(r)
    ensures forall i, j :: 0 <= i < j < |r| ==> FirstPos(xs, r[i]) < FirstPos(xs, r[j])
    decreases |xs|
  {
    if xs == [] then []
    else
      var n := |xs| - 1;
      var init := xs[..n];
      var d := Dedup(init);
      assert xs == init + [xs[n]];
      forall x | x in init ensures FirstPos(xs, x) == FirstPos(init, x) {
        var f := FirstPos(init, x);
        assert xs[..f] == init[..f];
        FirstPosUnique(xs, x, f);
      }
      if xs[n] in d then d
      else
        FirstPosUnique(xs, xs[n], n);
        d + [xs[n]]
  }

  /** What `extractSentencesWithWords(text, words)` returns. */
  function Extracted(text: string, words: seq<string>): seq<string> {
    Dedup(Candidates(words, SplitSentences(text)))
  }

  /** Appending one element to what the set has seen. */
  lemma DedupSnoc(xs: seq<string>, y: string)
    ensures Dedup(xs + [y]) == if y in Dedup(xs) then Dedup(xs) else Dedup(xs) + [y]
  {
    assert (xs + [y])[..|xs|] == xs;
  }

  /** One more sentence for the inner loop. */
  lemma HitsStep(word: string, sentences: seq<string>, j: nat)
    requires j < |sentences|
    ensures Hits(word, sentences[..j + 1]) ==
              Hits(word, sentences[..j]) + (if WordMatches(sentences[j], word) then [Normalise(sentences[j])] else [])
  {
    assert sentences[..j + 1][..j] == sentences[..j];
  }

  /** One more word for the outer loop. */
  lemma CandidatesStep(words: seq<string>, sentences: seq<string>, i: nat)
    requires i < |words|
    ensures Candidates(words[..i + 1], sentences) == Candidates(words[..i], sentences) + Hits(words[i], sentences)
  {
    assert words[..i + 1][..i] == words[..i];
  }

  /** The inner loop, lines 76-86, adding to the set what one word finds. */
  method AddHits(word: string, sentences: seq<string>, ghost seen: seq<string>, unique0: seq<string>)
    returns (unique: seq<string>)
    requires unique0 == Dedup(seen)
    ensures unique == Dedup(seen + Hits(word, sentences))
  {
    unique := unique0;
    var j := 0;
    assert seen + Hits(word, sentences[..0]) == seen;
    while j < |sentences|
      invariant 0 <= j <= |sentences|
      invariant unique == Dedup(seen + Hits(word, sentences[..j]))
    {
      var sentence := sentences[j];
      ghost var before := seen + Hits(word, sentences[..j]);
      HitsStep(word, sentences, j);
      if WordMatches(sentence, word) {
        var cleaned := Normalise(sentence);
        ConcatAssoc(seen, Hits(word, sentences[..j]), [cleaned]);
        DedupSnoc(before, cleaned);
        if cleaned !in unique {
          unique := unique + [cleaned];
        }
      } else {
        assert seen + Hits(word, sentences[..j + 1]) == before;
      }
      j := j + 1;
    }
    assert sentences[..j] == sentences;
  }

  /** `extractSentencesWithWords`, lines 69-92, with the set held as the
      sequence of its elements in insertion order. */
  method ExtractSentences(text: string, words: seq<string>) returns (unique: seq<string>)
    ensures unique == Extracted(text, words)
  {
    var sentences := SplitSentences(text);
    unique := [];
    var i := 0;
    while i < |words|
      invariant 0 <= i <= |words|
      invariant unique == Dedup(Candidates(words[..i], sentences))
    {
      unique := AddHits(words[i], sentences, Candidates(words[..i], sentences), unique);
      CandidatesStep(words, sentences, i);
      i := i + 1;
    }
    assert words[..i] == words;
  }

  /** The extracted sentences are exactly the normalised sentences of the
      text that contain some word, ignoring case; none of them twice, and
      in the order in which the loops first reached them. */
  lemma ExtractedMembers(text: string, words: seq<string>, x: string)
    ensures x in Extracted(text, words) <==>
              exists i, j :: 0 <= i < |words| && 0 <= j < |SplitSentences(text)|
                && ContainsIgnoringCase(SplitSentences(text)[j], words[i])
                && x == Normalise(SplitSentences(text)[j])
  {
    var sentences := SplitSentences(text);
    forall i, j | 0 <= i < |words| && 0 <= j < |sentences|
      ensures WordMatches(sentences[j], words[i]) <==> ContainsIgnoringCase(sentences[j], words[i])
    {
      WordMatchesIffContains(sentences[j], words[i]);
    }
  }

  /** No extracted sentence holds a line break or an asterisk, starts with
      an opening wrap or ends with a closing one, and none is repeated. */
  lemma ExtractedAreClean(text: string, words: seq<string>)
    ensures NoDuplicates(Extracted(text, words))
    ensures forall x :: x in Extracted(text, words) ==> All(x, Plain) && Bare(x)
  {
    forall x | x in Extracted(text, words) ensures All(x, Plain) && Bare(x) {
      ExtractedMembers(text, words, x);
      var sentences := SplitSentences(text);
      var j :| 0 <= j < |sentences| && x == Normalise(sentences[j]);
      NormaliseShape(sentences[j]);
    }
  }
}
