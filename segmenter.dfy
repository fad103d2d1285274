/**
 * The sentence segmenter: `text.match(/[^.!?。！？]+[.!?。！？]?/g) || [text]`.
 * A sentence is a run of characters that are not terminal punctuation,
 * followed by at most one terminal mark. Terminal marks that do not close
 * a sentence (at the start, or after another mark) belong to no sentence.
 */
module Segmenter {
  import opened Strings

  /** The terminal marks, Latin and full-width. */
  predicate IsTerminal(c: char) {
    c == '.' || c == '!' || c == '?' || c == '。' || c == '！' || c == '？'
  }

  /** A single match of the expression: not empty, and a terminal mark can
      only be its last character. */
  predicate IsSentence(segment: string) {
    && segment != []
    && !IsTerminal(segment[0])
    && forall i :: 0 <= i < |segment| - 1 ==> !IsTerminal(segment[i])
  }

  /** The length of the longest prefix of `s` without a terminal mark. */
  function RunLength(s: string): (n: nat)
    ensures n <= |s|
  {
    if s == [] || IsTerminal(s[0]) then 0 else 1 + RunLength(s[1..])
  }

  /** The run holds no terminal mark, and a mark ends it unless the text does. */
  lemma {:induction false} RunBounds(s: string)
    ensures forall i :: 0 <= i < RunLength(s) ==> !IsTerminal(s[i])
    ensures RunLength(s) < |s| ==> IsTerminal(s[RunLength(s)])
    decreases |s|
  {
    if s != [] && !IsTerminal(s[0]) {
      RunBounds(s[1..]);
      assert forall i :: 1 <= i < |s| ==> s[i] == s[1..][i - 1];
    }
  }

  /** All matches of `/[^.!?。！？]+[.!?。！？]?/g` in `s`, in order: a match
      starts at the first character that is not a mark and takes the run of
      non-marks and the one mark after it. */
  function Matches(s: string): seq<string>
    decreases |s|
  {
    if s == [] then []
    else if IsTerminal(s[0]) then Matches(s[1..])
    else
      var n := RunLength(s);
      var k := if n < |s| then n + 1 else n;
      [s[..k]] + Matches(s[k..])
  }

  /** Every match is a sentence: not empty, with a terminal mark at most at its end. */
  lemma {:induction false} MatchesAreSentences(s: string)
    ensures forall i :: 0 <= i < |Matches(s)| ==> IsSentence(Matches(s)[i])
    decreases |s|
  {
    if s == [] {
    } else if IsTerminal(s[0]) {
      MatchesAreSentences(s[1..]);
    } else {
      var n := RunLength(s);
      var k := if n < |s| then n + 1 else n;
      RunBounds(s);
      MatchesAreSentences(s[k..]);
      assert IsSentence(s[..k]);
    }
  }

  /** The matches are as long as the greedy expression makes them: every
      match but the last is closed by a terminal mark. */
  lemma {:induction false} MatchesMaximal(s: string)
    ensures forall i :: 0 <= i < |Matches(s)| - 1 ==> Matches(s)[i] != [] && IsTerminal(Matches(s)[i][|Matches(s)[i]| - 1])
    decreases |s|
  {
    if s == [] {
    } else if IsTerminal(s[0]) {
      MatchesMaximal(s[1..]);
    } else {
      var n := RunLength(s);
      var k := if n < |s| then n + 1 else n;
      var rest := Matches(s[k..]);
      RunBounds(s);
      MatchesMaximal(s[k..]);
      assert Matches(s) == [s[..k]] + rest;
      if n == |s| {
        assert rest == [];
      }
    }
  }

  /** The expression matches nowhere exactly when every character is a terminal mark. */
  lemma {:induction false} NoMatchesIffAllTerminal(s: string)
    ensures Matches(s) == [] <==> forall i :: 0 <= i < |s| ==> IsTerminal(s[i])
    decreases |s|
  {
    if s != [] && IsTerminal(s[0]) {
      NoMatchesIffAllTerminal(s[1..]);
      assert forall i :: 1 <= i < |s| ==> s[i] == s[1..][i - 1];
    }
  }

  /** `text.match(/[^.!?。！？]+[.!?。！？]?/g) || [text]`. */
  function SplitSentences(text: string): seq<string> {
    var segments := Matches(text);
    if segments == [] then [text] else segments
  }

  /** A text made of terminal marks alone (or empty) is its own single
      sentence; otherwise the sentences are the matches, each a sentence. */
  lemma SplitSentencesShape(text: string)
    ensures (forall i :: 0 <= i < |text| ==> IsTerminal(text[i])) ==> SplitSentences(text) == [text]
    ensures (exists i :: 0 <= i < |text| && !IsTerminal(text[i])) ==>
              SplitSentences(text) == Matches(text) &&
              forall j :: 0 <= j < |SplitSentences(text)| ==> IsSentence(SplitSentences(text)[j])
  {
    NoMatchesIffAllTerminal(text);
    MatchesAreSentences(text);
  }

  /** `s` without its stray terminal marks: a mark is stray when it comes
      first (`afterMark` holds at the start) or right after another mark. */
  function DropStray(s: string, afterMark: bool): string
    decreases |s|
  {
    if s == [] then []
    else (if IsTerminal(s[0]) && afterMark then [] else [s[0]]) + DropStray(s[1..], IsTerminal(s[0]))
  }

  /** A run of non-terminal characters is kept whole. */
  lemma {:induction false} DropStrayRun(s: string, n: nat, afterMark: bool)
    requires 0 < n <= |s|
    requires forall i :: 0 <= i < n ==> !IsTerminal(s[i])
    ensures DropStray(s, afterMark) == s[..n] + DropStray(s[n..], false)
    decreases n
  {
    if n > 1 {
      DropStrayRun(s[1..], n - 1, false);
      assert s[1..][n - 1..] == s[n..];
      assert s[..n] == [s[0]] + s[1..][..n - 1];
    }
  }

  /** Joining with nothing after a first part appends the rest's join. */
  lemma JoinConsEmpty(x: string, rest: seq<string>)
    ensures Join([x] + rest, "") == x + Join(rest, "")
  {
    if rest != [] {
      assert ([x] + rest)[1..] == rest;
    }
  }

  /** A sentence closed by a mark is kept whole, mark included. */
  lemma DropStrayMark(s: string, n: nat)
    requires 0 < n < |s| && IsTerminal(s[n])
    requires forall i :: 0 <= i < n ==> !IsTerminal(s[i])
    ensures DropStray(s, true) == s[..n + 1] + DropStray(s[n + 1..], true)
  {
    var t := s[n..];
    var rest := DropStray(s[n + 1..], true);
    assert DropStray(t, false) == [s[n]] + rest by {
      MarkAfterRun(t);
      assert t[1..] == s[n + 1..];
    }
    DropStrayRun(s, n, true);
    assert s[..n + 1] == s[..n] + [s[n]];
    ConcatAssoc(s[..n], [s[n]], rest);
  }

  /** The mark that ends a run closes the sentence. */
  lemma MarkAfterRun(t: string)
    requires t != [] && IsTerminal(t[0])
    ensures DropStray(t, false) == [t[0]] + DropStray(t[1..], true)
  {
  }

  /** The sentences, put back together, are the text without its stray
      terminal marks: no other character is lost, added or moved. */
  lemma {:induction false} MatchesRebuildText(s: string)
    ensures Join(Matches(s), "") == DropStray(s, true)
    decreases |s|
  {
    if s == [] {
    } else if IsTerminal(s[0]) {
      MatchesRebuildText(s[1..]);
    } else {
      var n := RunLength(s);
      var k := if n < |s| then n + 1 else n;
      RunBounds(s);
      MatchesRebuildText(s[k..]);
      if n < |s| {
        DropStrayMark(s, n);
      } else {
        DropStrayRun(s, n, true);
        assert s[..n] == s && s[n..] == [];
      }
      JoinConsEmpty(s[..k], Matches(s[k..]));
    }
  }
}
