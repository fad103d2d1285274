/**
 * Writing the rewritten sentences back into the message. With as many
 * rewrites as originals, each original's first occurrence is replaced by
 * its rewrite, in order, on the message as rewritten so far. Otherwise the
 * first original is replaced by the whole reply and the other originals
 * are deleted; when the first original is not in the message, nothing is
 * written at all.
 */
module Splice {
  import opened Wrappers
  import opened Strings
  import opened Numbering

  /** `String(undefined)`: what `includes` and `replace` look for when the
      original block holds no sentence and `originalSentences[0]` is
      `undefined`. */
  const Undefined := "undefined"

  /** Line 176: the sentence the reply as a whole takes the place of. */
  function Anchor(originals: seq<string>): string {
    if originals == [] then Undefined else originals[0]
  }

  /** The originals after the first, which line 180 deletes. */
  function Others(originals: seq<string>): (others: seq<string>)
    ensures |others| == if originals == [] then 0 else |originals| - 1
  {
    if originals == [] then [] else originals[1..]
  }

  /** Lines 187-192: each original in turn is replaced by its rewrite, on
      the message as rewritten so far; an empty rewrite is skipped. */
  function ReplaceEach(message: string, originals: seq<string>, rewrites: seq<string>): string
    requires |originals| == |rewrites|
    decreases |originals|
  {
    if originals == [] then message
    else
      var n := |originals| - 1;
      var current := ReplaceEach(message, originals[..n], rewrites[..n]);
      if rewrites[n] != [] then ReplaceFirst(current, originals[n], rewrites[n]) else current
  }

  /** Lines 179-181: each original in turn loses its first occurrence. */
  function DeleteEach(message: string, originals: seq<string>): string
    decreases |originals|
  {
    if originals == [] then message
    else
      var n := |originals| - 1;
      ReplaceFirst(DeleteEach(message, originals[..n]), originals[n], [])
  }

  /** Lines 167-193: the message to write back for the numbered block of
      originals and the model's reply, or `None` when the reply's item count
      differs and the first original cannot be found, so that nothing is
      written. */
  function Reconcile(message: string, originalBlock: string, reply: string): Option<string> {
    var originals := ParseOriginal(originalBlock);
    var rewrites := ParseResponse(reply);
    if |originals| != |rewrites| then
      var first := Anchor(originals);
      if Contains(message, first) then Some(DeleteEach(ReplaceFirst(message, first, reply), Others(originals)))
      else None
    else
      Some(ReplaceEach(message, originals, rewrites))
  }

  /** Lines 187-192: the `forEach` over the pairs. */
  method ReplaceInTurn(message: string, originals: seq<string>, rewrites: seq<string>)
    returns (modified: string)
    requires |originals| == |rewrites|
    ensures modified == ReplaceEach(message, originals, rewrites)
  {
    modified := message;
    var i := 0;
    while i < |originals|
      invariant i <= |originals|
      invariant modified == ReplaceEach(message, originals[..i], rewrites[..i])
    {
      assert originals[..i + 1][..i] == originals[..i];
      assert rewrites[..i + 1][..i] == rewrites[..i];
      var optimized := rewrites[i];
      if optimized != [] {
        modified := ReplaceFirst(modified, originals[i], optimized);
      }
      i := i + 1;
    }
    assert originals[..i] == originals && rewrites[..i] == rewrites;
  }

  /** Lines 179-181: the loop that deletes the other originals. */
  method DeleteInTurn(message: string, others: seq<string>) returns (modified: string)
    ensures modified == DeleteEach(message, others)
  {
    modified := message;
    var i := 0;
    while i < |others|
      invariant i <= |others|
      invariant modified == DeleteEach(message, others[..i])
    {
      assert others[..i + 1][..i] == others[..i];
      modified := ReplaceFirst(modified, others[i], []);
      i := i + 1;
    }
    assert others[..i] == others;
  }

  /** Lines 167-193 of `replaceMessage`, on the text of the last message;
      `None` stands for the early return before anything is written. */
  method ReplaceMessage(message: string, originalContent: string, optimizedContent: string)
    returns (written: Option<string>)
    ensures written == Reconcile(message, originalContent, optimizedContent)
  {
    var originals := ParseOriginal(originalContent);
    var rewrites := ParseResponse(optimizedContent);
    var modified := message;
    if |originals| != |rewrites| {
      var first := Anchor(originals);
      if !Contains(modified, first) {
        return None;
      }
      modified := ReplaceFirst(modified, first, optimizedContent);
      modified := DeleteInTurn(modified, Others(originals));
    } else {
      modified := ReplaceInTurn(modified, originals, rewrites);
    }
    return Some(modified);
  }

  // ---------------------------------------------------------------------
  // What the splice does to a message laid out around the originals.

  /** `gaps[0] + parts[0] + gaps[1] + ... + parts[n - 1] + gaps[n]`. */
  function Layout(gaps: seq<string>, parts: seq<string>): string
    requires |gaps| == |parts| + 1
    decreases |parts|
  {
    if parts == [] then gaps[0]
    else
      var n := |parts|;
      Layout(gaps[..n], parts[..n - 1]) + parts[n - 1] + gaps[n]
  }

  /** `n` empty strings. */
  function Blanks(n: nat): (r: seq<string>)
    ensures |r| == n
  {
    if n == 0 then [] else Blanks(n - 1) + [[]]
  }

  /** In `before + pat + ...`, when no occurrence of `pat` starts inside
      `before`, the first one is right after it. */
  lemma FirstAfter(before: string, pat: string, after: string)
    requires NoEarlier(before, pat)
    ensures FirstOccurrence(before + (pat + after), pat, |before|)
  {
    var s := before + (pat + after);
    var p := |before|;
    var m := p + |pat| - 1;
    var t := before + pat[..|pat| - 1];
    assert s[p..p + |pat|] == pat;
    assert t == s[..m];
    forall j | 0 <= j < p ensures !OccursAt(s, pat, j) {
      OccursInPrefix(s, m, pat, j);
    }
  }

  /** An occurrence that ends inside a prefix is one in the prefix. */
  lemma OccursInPrefix(s: string, m: nat, pat: string, j: nat)
    requires m <= |s| && j + |pat| <= m
    ensures OccursAt(s[..m], pat, j) <==> OccursAt(s, pat, j)
  {
    assert s[..m][j..j + |pat|] == s[j..j + |pat|];
  }

  /** A replacement at a place no earlier occurrence reaches changes that
      place only. */
  lemma ReplaceAt(before: string, pat: string, repl: string, after: string)
    requires NoEarlier(before, pat) && '$' !in repl
    ensures ReplaceFirst(before + (pat + after), pat, repl) == before + (repl + after)
  {
    var s := before + (pat + after);
    var p := |before|;
    FirstAfter(before, pat, after);
    ReplaceFirstAt(s, pat, repl, p);
    assert s[..p] == before && s[p + |pat|..] == after;
    ConcatAssoc(before, repl, after);
  }

  /** No occurrence of `pat` starts inside `before`, so in `before + pat +
      ...` the first one is right after it. */
  predicate NoEarlier(before: string, pat: string) {
    pat != [] && !Contains(before + pat[..|pat| - 1], pat)
  }

  /** Each original's first occurrence in the message, as rewritten up to
      its turn, is its own place in the layout. */
  predicate InPlace(gaps: seq<string>, originals: seq<string>, rewrites: seq<string>)
    requires |gaps| == |originals| + 1 && |rewrites| == |originals|
  {
    forall j :: 0 <= j < |originals| ==> NoEarlier(Layout(gaps[..j + 1], rewrites[..j]), originals[j])
  }

  /** Non-empty rewrites without a `$` pattern: each is inserted as it is. */
  predicate Insertable(rewrites: seq<string>) {
    forall j :: 0 <= j < |rewrites| ==> rewrites[j] != [] && '$' !in rewrites[j]
  }

  /** What the conditions on a layout say about all but its last original. */
  lemma InPlacePrefix(gaps: seq<string>, originals: seq<string>, rewrites: seq<string>)
    requires |gaps| == |originals| + 1 && |rewrites| == |originals| && originals != []
    requires InPlace(gaps, originals, rewrites)
    ensures var n := |originals|;
      InPlace(gaps[..n], originals[..n - 1], rewrites[..n - 1]) &&
      NoEarlier(Layout(gaps[..n], rewrites[..n - 1]), originals[n - 1])
  {
    var n := |originals|;
    var gs, os, rs := gaps[..n], originals[..n - 1], rewrites[..n - 1];
    forall j | 0 <= j < n - 1
      ensures NoEarlier(Layout(gs[..j + 1], rs[..j]), os[j])
    {
      assert gs[..j + 1] == gaps[..j + 1] && rs[..j] == rewrites[..j];
      assert NoEarlier(Layout(gaps[..j + 1], rewrites[..j]), originals[j]);
    }
    assert NoEarlier(Layout(gaps[..n - 1 + 1], rewrites[..n - 1]), originals[n - 1]);
  }

  lemma InsertablePrefix(rewrites: seq<string>, k: nat)
    requires Insertable(rewrites) && k <= |rewrites|
    ensures Insertable(rewrites[..k])
  {
    assert forall j :: 0 <= j < k ==> rewrites[..k][j] == rewrites[j];
  }

  /** The last turn of the pairwise replacement. */
  lemma ReplaceEachLast(message: string, originals: seq<string>, rewrites: seq<string>)
    requires |originals| == |rewrites| && originals != [] && rewrites[|rewrites| - 1] != []
    ensures var n := |originals|;
      ReplaceEach(message, originals, rewrites) ==
        ReplaceFirst(ReplaceEach(message, originals[..n - 1], rewrites[..n - 1]), originals[n - 1], rewrites[n - 1])
  {
  }

  /** A layout ends with its last part and its last gap. */
  lemma LayoutLast(gaps: seq<string>, parts: seq<string>, rest: string)
    requires |gaps| == |parts| + 1 && parts != []
    ensures var n := |parts|;
      Layout(gaps, parts) + rest == Layout(gaps[..n], parts[..n - 1]) + (parts[n - 1] + (gaps[n] + rest))
  {
  }

  /** The last turn of the pairwise replacement on a layout: the last
      original, right after the text rewritten so far, takes its rewrite. */
  lemma ReplaceLastInLayout(gaps: seq<string>, originals: seq<string>, rewrites: seq<string>, rest: string)
    requires |gaps| == |originals| + 1 && |rewrites| == |originals| && originals != []
    requires var n := |originals|;
      ReplaceEach(Layout(gaps[..n], originals[..n - 1]) + (originals[n - 1] + (gaps[n] + rest)), originals[..n - 1], rewrites[..n - 1])
        == Layout(gaps[..n], rewrites[..n - 1]) + (originals[n - 1] + (gaps[n] + rest))
    requires var n := |originals|;
      NoEarlier(Layout(gaps[..n], rewrites[..n - 1]), originals[n - 1]) && rewrites[n - 1] != [] && '$' !in rewrites[n - 1]
    ensures ReplaceEach(Layout(gaps, originals) + rest, originals, rewrites) == Layout(gaps, rewrites) + rest
  {
    var n := |originals|;
    LayoutLast(gaps, originals, rest);
    LayoutLast(gaps, rewrites, rest);
    ReplaceEachLast(Layout(gaps, originals) + rest, originals, rewrites);
    ReplaceAt(Layout(gaps[..n], rewrites[..n - 1]), originals[n - 1], rewrites[n - 1], gaps[n] + rest);
  }

  /** With as many rewrites as originals, when the message is laid out
      around the originals and no original occurs before its own place,
      every original is replaced by its rewrite and the text between them
      is kept as it was. */
  lemma {:induction false} ReplaceEachInLayout(gaps: seq<string>, originals: seq<string>, rewrites: seq<string>, rest: string)
    requires |gaps| == |originals| + 1 && |rewrites| == |originals|
    requires Insertable(rewrites) && InPlace(gaps, originals, rewrites)
    ensures ReplaceEach(Layout(gaps, originals) + rest, originals, rewrites) == Layout(gaps, rewrites) + rest
    decreases |originals|
  {
    if originals != [] {
      var n := |originals|;
      InPlacePrefix(gaps, originals, rewrites);
      InsertablePrefix(rewrites, n - 1);
      ReplaceEachInLayout(gaps[..n], originals[..n - 1], rewrites[..n - 1], originals[n - 1] + (gaps[n] + rest));
      ReplaceLastInLayout(gaps, originals, rewrites, rest);
    }
  }

  lemma BlanksPrefix(n: nat)
    requires n > 0
    ensures Blanks(n)[..n - 1] == Blanks(n - 1)
  {
    assert Blanks(n) == Blanks(n - 1) + [[]];
  }

  /** What the conditions on a layout for the deletions say about all but
      its last original. */
  lemma InPlaceBlanksPrefix(gaps: seq<string>, originals: seq<string>)
    requires |gaps| == |originals| + 1 && originals != []
    requires InPlace(gaps, originals, Blanks(|originals|))
    ensures var n := |originals|;
      InPlace(gaps[..n], originals[..n - 1], Blanks(n - 1)) &&
      NoEarlier(Layout(gaps[..n], Blanks(n - 1)), originals[n - 1])
  {
    var n := |originals|;
    BlanksPrefix(n);
    InPlacePrefix(gaps, originals, Blanks(n));
  }

  /** The last deletion on a layout. */
  lemma DeleteLastInLayout(gaps: seq<string>, originals: seq<string>, rest: string)
    requires |gaps| == |originals| + 1 && originals != []
    requires var n := |originals|;
      DeleteEach(Layout(gaps[..n], originals[..n - 1]) + (originals[n - 1] + (gaps[n] + rest)), originals[..n - 1])
        == Layout(gaps[..n], Blanks(n - 1)) + (originals[n - 1] + (gaps[n] + rest))
    requires var n := |originals|;
      NoEarlier(Layout(gaps[..n], Blanks(n - 1)), originals[n - 1])
    ensures DeleteEach(Layout(gaps, originals) + rest, originals) == Layout(gaps, Blanks(|originals|)) + rest
  {
    var n := |originals|;
    BlanksPrefix(n);
    LayoutLast(gaps, originals, rest);
    LayoutLast(gaps, Blanks(n), rest);
    ReplaceAt(Layout(gaps[..n], Blanks(n - 1)), originals[n - 1], [], gaps[n] + rest);
    assert [] + (gaps[n] + rest) == gaps[n] + rest;
  }

  /** Deleting the originals in order from a message laid out around them
      leaves only the text between them, when no original occurs before its
      own place. */
  lemma {:induction false} DeleteEachInLayout(gaps: seq<string>, originals: seq<string>, rest: string)
    requires |gaps| == |originals| + 1
    requires InPlace(gaps, originals, Blanks(|originals|))
    ensures DeleteEach(Layout(gaps, originals) + rest, originals) == Layout(gaps, Blanks(|originals|)) + rest
    decreases |originals|
  {
    if originals != [] {
      var n := |originals|;
      InPlaceBlanksPrefix(gaps, originals);
      assert |originals[..n - 1]| == n - 1;
      DeleteEachInLayout(gaps[..n], originals[..n - 1], originals[n - 1] + (gaps[n] + rest));
      DeleteLastInLayout(gaps, originals, rest);
    }
  }

  /** The anchor found where the layout puts it takes the whole reply. */
  lemma AnchorReplaced(message: string, first: string, reply: string, before: string, after: string)
    requires message == before + first + after
    requires NoEarlier(before, first) && '$' !in reply
    ensures Contains(message, first)
    ensures ReplaceFirst(message, first, reply) == before + reply + after
  {
    assert message == before + (first + after);
    FirstAfter(before, first, after);
    ReplaceAt(before, first, reply, after);
    assert before + (reply + after) == before + reply + after;
  }

  /** With a different number of items, the first original's first
      occurrence takes the whole reply, and the rest of the message goes on
      to the deletions. */
  lemma MismatchSplice(message: string, originalBlock: string, reply: string, before: string, after: string)
    requires |ParseOriginal(originalBlock)| != |ParseResponse(reply)|
    requires message == before + Anchor(ParseOriginal(originalBlock)) + after
    requires NoEarlier(before, Anchor(ParseOriginal(originalBlock))) && '$' !in reply
    ensures Reconcile(message, originalBlock, reply) ==
      Some(DeleteEach(before + reply + after, Others(ParseOriginal(originalBlock))))
  {
    AnchorReplaced(message, Anchor(ParseOriginal(originalBlock)), reply, before, after);
  }

  /** Nothing is written exactly when the counts differ and the first
      original is not in the message. */
  lemma NothingWrittenIff(message: string, originalBlock: string, reply: string)
    ensures var originals := ParseOriginal(originalBlock);
      Reconcile(message, originalBlock, reply).None? <==>
        |originals| != |ParseResponse(reply)| && !Contains(message, Anchor(originals))
  {
  }

  /** With as many rewrites as originals, a message laid out around the
      originals, each at its first occurrence, comes back with every
      original replaced by its rewrite and nothing else changed. */
  lemma MatchedSplice(gaps: seq<string>, originalBlock: string, reply: string)
    requires |ParseOriginal(originalBlock)| == |ParseResponse(reply)|
    requires |gaps| == |ParseOriginal(originalBlock)| + 1
    requires InPlace(gaps, ParseOriginal(originalBlock), ParseResponse(reply))
    requires forall j :: 0 <= j < |ParseResponse(reply)| ==> '$' !in ParseResponse(reply)[j]
    ensures Reconcile(Layout(gaps, ParseOriginal(originalBlock)), originalBlock, reply) ==
      Some(Layout(gaps, ParseResponse(reply)))
  {
    var originals, rewrites := ParseOriginal(originalBlock), ParseResponse(reply);
    InsertableReply(reply);
    ReplaceEachInLayout(gaps, originals, rewrites, []);
    NothingAppended(Layout(gaps, originals));
    NothingAppended(Layout(gaps, rewrites));
  }

  /** The reply's items are inserted as they are when none holds a `$`. */
  lemma InsertableReply(reply: string)
    requires forall j :: 0 <= j < |ParseResponse(reply)| ==> '$' !in ParseResponse(reply)[j]
    ensures Insertable(ParseResponse(reply))
  {
    ParsedItems(reply);
  }

  lemma NothingAppended(s: string)
    ensures s + [] == s
  {
  }

  /** A text is its part before `i`, the `n` characters from `i`, and the rest. */
  lemma ThreeParts(s: string, i: nat, n: nat)
    requires i + n <= |s|
    ensures s == s[..i] + s[i..i + n] + s[i + n..]
  {
  }

  /** Replacing a text by itself changes nothing. */
  lemma ReplaceBySelf(s: string, pat: string)
    requires '$' !in pat
    ensures ReplaceFirst(s, pat, pat) == s
  {
    var i := IndexOf(s, pat);
    if i >= 0 {
      ReplaceFirstAt(s, pat, pat, i);
      ThreeParts(s, i, |pat|);
    }
  }

  /** Pairing every original with itself leaves the message as it was. */
  lemma {:induction false} ReplaceEachBySelf(message: string, originals: seq<string>)
    requires forall j :: 0 <= j < |originals| ==> '$' !in originals[j]
    ensures ReplaceEach(message, originals, originals) == message
    decreases |originals|
  {
    if originals != [] {
      var n := |originals| - 1;
      ReplaceEachBySelf(message, originals[..n]);
      ReplaceBySelf(message, originals[n]);
    }
  }

  /** A reply that repeats the numbered block unchanged writes the message
      back as it was. */
  lemma UnchangedReplyKeepsMessage(message: string, xs: seq<string>)
    requires forall i :: 0 <= i < |xs| ==> Readable(xs[i]) && '$' !in xs[i]
    ensures Reconcile(message, Number(xs), Number(xs)) == Some(message)
  {
    forall i | 0 <= i < |xs| ensures IsTrimmed(xs[i]) && '\n' !in xs[i] {
      assert NoLineTerminator(xs[i]);
    }
    ParseOriginalOfNumber(xs);
    ParseResponseOfNumber(xs);
    var kept := NonEmpty(xs);
    forall j | 0 <= j < |kept| ensures '$' !in kept[j] {
      assert kept[j] in xs;
    }
    ReplaceEachBySelf(message, kept);
  }

  /** A sentence with a number followed by `.` inside does not read back
      whole: the reply expression starts a new item at `5.`, which strips to
      nothing and is dropped, so the counts still agree and the echoed
      sentence loses its end. */
  lemma EchoSplitsAtInnerNumber()
    ensures Reconcile("I hate page 5.", Number(["I hate page 5."]), Number(["I hate page 5."])) == Some("I hate page")
  {
    var x := "I hate page 5.";
    var r := "I hate page";
    OneOriginal(x);
    InnerNumberStartsItem();
    TextWithoutDollar();
    ReplaceWhole(x, r);
  }

  /** The rewrite of the example holds no `$`. */
  lemma TextWithoutDollar()
    ensures '$' !in "I hate page"
  {
  }

  /** A block of one sentence reads back as that sentence. */
  lemma OneOriginal(x: string)
    requires x != [] && IsTrimmed(x) && '\n' !in x
    ensures ParseOriginal(Number([x])) == [x]
  {
    ParseOriginalOfNumber([x]);
    assert NonEmpty([x]) == [x];
  }

  /** A message that is one sentence, replaced by one rewrite, becomes the rewrite. */
  lemma ReplaceWhole(x: string, r: string)
    requires r != [] && '$' !in r
    ensures ReplaceEach(x, [x], [r]) == r
  {
    var xs: seq<string> := [x];
    var rs: seq<string> := [r];
    assert xs[..0] == [] && rs[..0] == [];
    assert FirstOccurrence(x, x, 0);
    ReplaceFirstAt(x, x, r, 0);
    assert x[..0] + r + x[|x|..] == r;
  }
  /** With a different number of items, the deleted sentence leaves the
      spaces on both of its sides: for the message `a b c` and the numbered
      block of `a` and `b`, the reply takes the place of `a`, `b` is deleted,
      and two spaces stand before `c`. */
  lemma MismatchLeavesSpacing(a: string, b: string, c: string, reply: string)
    requires a != [] && IsTrimmed(a) && '\n' !in a
    requires b != [] && IsTrimmed(b) && '\n' !in b
    requires |ParseResponse(reply)| != 2 && '$' !in reply
    requires NoEarlier(reply + " ", b)
    ensures Reconcile(a + " " + b + " " + c, Number([a, b]), reply) == Some(reply + "  " + c)
  {
    var message := a + " " + b + " " + c;
    var after := " " + b + " " + c;
    var block := Number([a, b]);
    Regroup(a, b, c);
    TwoOriginals(a, b);
    MismatchOfTwo(a, b, block, after, reply);
    DeleteSecond(reply, b, c);
  }

  /** The first of two originals takes the reply, and the second goes on to
      be deleted. */
  lemma MismatchOfTwo(a: string, b: string, block: string, after: string, reply: string)
    requires ParseOriginal(block) == [a, b] && a != []
    requires |ParseResponse(reply)| != 2 && '$' !in reply
    ensures Reconcile(a + after, block, reply) == Some(DeleteEach(reply + after, [b]))
  {
    NothingBefore(a, after);
    NothingBefore(reply, after);
    MismatchSplice(a + after, block, reply, [], after);
  }

  /** The message `a b c` is `a` followed by the rest, or `a` and a space
      followed by `b` and the rest. */
  lemma Regroup(a: string, b: string, c: string)
    ensures a + " " + b + " " + c == a + (" " + b + " " + c)
    ensures a + (" " + b + " " + c) == (a + " ") + (b + (" " + c))
  {
  }

  /** Nothing comes before the start of a text. */
  lemma NothingBefore(first: string, after: string)
    ensures [] + first + after == first + after
    ensures first != [] ==> NoEarlier([], first)
  {
  }

  /** A block of two sentences reads back as those sentences. */
  lemma TwoOriginals(a: string, b: string)
    requires a != [] && IsTrimmed(a) && '\n' !in a
    requires b != [] && IsTrimmed(b) && '\n' !in b
    ensures ParseOriginal(Number([a, b])) == [a, b]
    ensures Others(ParseOriginal(Number([a, b]))) == [b]
  {
    var originals: seq<string> := [a, b];
    ParseOriginalOfNumber(originals);
    assert NonEmpty(originals) == originals by {
      assert NonEmpty([b]) == [b];
    }
  }

  /** Deleting `b` from `reply b c` keeps the spaces on both sides of it. */
  lemma DeleteSecond(reply: string, b: string, c: string)
    requires NoEarlier(reply + " ", b)
    ensures DeleteEach(reply + (" " + b + " " + c), [b]) == reply + "  " + c
  {
    var m := reply + (" " + b + " " + c);
    DeleteOne(m, b);
    assert m == (reply + " ") + (b + (" " + c)) by {
      Regroup(reply, b, c);
    }
    ReplaceAt(reply + " ", b, [], " " + c);
    assert (reply + " ") + ([] + (" " + c)) == reply + "  " + c;
  }

  /** Deleting one original is one `replace` with the empty text. */
  lemma DeleteOne(m: string, b: string)
    ensures DeleteEach(m, [b]) == ReplaceFirst(m, b, [])
  {
    var bs: seq<string> := [b];
    assert bs[..0] == [];
  }

}
