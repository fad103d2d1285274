/**
 * The numbered block of sentences the user sees and edits, and the two
 * parsers that read a block back: the block of original sentences, one per
 * line, and the rewritten block the language model returns, whose items are
 * found by a regular expression and may share a line.
 */
module Numbering {
  import opened Wrappers
  import opened Strings

  function DigitChar(d: nat): (c: char)
    requires d < 10
    ensures IsDigit(c)
  {
    ('0' as int + d) as char
  }

  /** `String(n)` for a natural number: its decimal digits. */
  function Decimal(n: nat): (r: string)
    ensures r != [] && All(r, Digit)
    ensures |r| == 1 || r[0] != '0'
  {
    if n < 10 then [DigitChar(n)]
    else
      var r := Decimal(n / 10) + [DigitChar(n % 10)];
      assert forall i :: 0 <= i < |r| - 1 ==> r[i] == Decimal(n / 10)[i];
      r
  }

  /** The number a run of decimal digits stands for. */
  function DecimalValue(s: string): nat
    requires All(s, Digit)
  {
    if s == [] then 0
    else
      AllSlice(s, Digit, 0, |s| - 1);
      10 * DecimalValue(s[..|s| - 1]) + (s[|s| - 1] as int - '0' as int)
  }

  /** The digits written for an item number read back as that number. */
  lemma {:induction false} DecimalRoundTrip(n: nat)
    ensures DecimalValue(Decimal(n)) == n
  {
    if n >= 10 {
      DecimalRoundTrip(n / 10);
      var r := Decimal(n);
      assert r[..|r| - 1] == Decimal(n / 10);
    }
  }

  /** `${k}. ${x}`. */
  function Item(k: nat, x: string): string {
    Decimal(k) + ". " + x
  }

  /** The items of `xs`, numbered from `k`. */
  function Lines(xs: seq<string>, k: nat): (lines: seq<string>)
    ensures |lines| == |xs|
  {
    if xs == [] then [] else [Item(k, xs[0])] + Lines(xs[1..], k + 1)
  }

  /** Line `i` of the block is the text `xs[i]` numbered `k + i`. */
  lemma {:induction false} LinesAt(xs: seq<string>, k: nat)
    ensures forall i :: 0 <= i < |xs| ==> Lines(xs, k)[i] == Item(k + i, xs[i])
    decreases |xs|
  {
    if xs != [] {
      LinesAt(xs[1..], k + 1);
    }
  }

  /** Line 230: `sentences.map((sentence, index) => `${index + 1}. ${sentence}`).join('\n')`. */
  function Number(xs: seq<string>): string {
    Join(Lines(xs, 1), "\n")
  }

  /** `t` starts with `\d+[.)]`. Only the whole run of digits can be followed
      by the mark, so backtracking into the run never finds another match. */
  predicate Marker(t: string) {
    var d := Span(t, Digit);
    0 < d < |t| && (t[d] == '.' || t[d] == ')')
  }

  /** The length of the `\d+[.)]\s*` at the start of `t`. */
  function MarkerLen(t: string): (n: nat)
    requires Marker(t)
    ensures 2 <= n <= |t|
  {
    var d := Span(t, Digit);
    d + 1 + Span(t[d + 1..], Space)
  }

  /** What follows the `\d+[.)]\s*` at the start of `t`. */
  function AfterMarker(t: string): string
    requires Marker(t)
  {
    t[MarkerLen(t)..]
  }

  // `line.replace(/^\d+[.)]\s*/, '')`; `StripMarkerOf` and
  // `StripMarkerUnmarked` state what it removes.
  function StripMarker(line: string): string {
    if Marker(line) then AfterMarker(line) else line
  }

  /** A line that opens with digits, `.` or `)`, and white space loses
      exactly that prefix. */
  lemma StripMarkerOf(digits: string, mark: char, spaces: string, rest: string)
    requires digits != [] && All(digits, Digit)
    requires mark == '.' || mark == ')'
    requires All(spaces, Space) && (rest == [] || !IsSpace(rest[0]))
    ensures StripMarker(digits + ([mark] + (spaces + rest))) == rest
  {
    var after := [mark] + (spaces + rest);
    var line := digits + after;
    SpanConcat(digits, after, Digit);
    assert Span(after, Digit) == 0;
    assert line[|digits|] == mark;
    assert line[|digits| + 1..] == spaces + rest;
    SpanConcat(spaces, rest, Space);
    assert Span(rest, Space) == 0;
    assert line[|digits| + 1 + |spaces|..] == rest;
  }

  /** A line that does not open with digits followed by `.` or `)` is kept as it is. */
  lemma StripMarkerUnmarked(line: string)
    requires forall k :: 0 < k < |line| && All(line[..k], Digit) ==> line[k] != '.' && line[k] != ')'
    ensures StripMarker(line) == line
  {
    var d := Span(line, Digit);
    SpanBounds(line, Digit);
    if 0 < d < |line| {
      assert All(line[..d], Digit);
    }
  }

  // `.map(s => s.replace(/^\d+[.)]\s*/, '').trim())`.
  function Stripped(lines: seq<string>): (r: seq<string>)
    ensures |r| == |lines|
  {
    if lines == [] then [] else [Trim(StripMarker(lines[0]))] + Stripped(lines[1..])
  }

  /** Line 167: the original sentences of a numbered block, one per line. */
  function ParseOriginal(block: string): seq<string> {
    NonEmpty(Stripped(Split(block, '\n')))
  }

  /** The lookahead `(?=\s*\d+[.)]|$)` holds at the start of `t`. */
  predicate Look(t: string) {
    t == [] || Marker(DropWhile(t, Space))
  }

  /** How many characters the lazy `.*?` takes from `t` before the lookahead
      holds; `None` when a line terminator, which `.` does not match, comes
      first. */
  function ContentLen(t: string): (n: Option<nat>)
    ensures n.Some? ==> n.value <= |t|
  {
    if Look(t) then Some(0)
    else if IsLineTerminator(t[0]) then None
    else
      match ContentLen(t[1..])
      case Some(n) => Some(n + 1)
      case None => None
  }

  /** The length of the match of `\d+[.)]\s*.*?(?=\s*\d+[.)]|$)` that starts
      at the start of `t`. The `\s*` is taken whole: giving back white space
      only offers `.*?` positions where the lookahead fails as it did before,
      or a line terminator sooner. */
  function MatchAt(t: string): (n: Option<nat>)
    ensures n.Some? ==> 2 <= n.value <= |t|
  {
    if !Marker(t) then None
    else
      var m := MarkerLen(t);
      match ContentLen(t[m..])
      case Some(k) => Some(m + k)
      case None => None
  }

  /** All the matches of the global expression in `t`, in order: each search
      starts where the previous match ended, or one character further on
      when no match starts there. */
  function Scan(t: string): seq<string>
    decreases |t|
  {
    if t == [] then []
    else
      match MatchAt(t)
      case Some(n) => [t[..n]] + Scan(t[n..])
      case None => Scan(t[1..])
  }

  /** Lines 168-170: the rewritten items of the model's reply. */
  function ParseResponse(block: string): seq<string> {
    NonEmpty(Stripped(Scan(block)))
  }

  /** Every stripped line is trimmed. */
  lemma {:induction false} StrippedAreTrimmed(lines: seq<string>)
    ensures forall x :: x in Stripped(lines) ==> IsTrimmed(x)
    decreases |lines|
  {
    if lines != [] {
      StrippedAreTrimmed(lines[1..]);
    }
  }

  /** Both parsers give non-empty, trimmed items. */
  lemma ParsedItems(block: string)
    ensures forall i :: 0 <= i < |ParseOriginal(block)| ==> ParseOriginal(block)[i] != [] && IsTrimmed(ParseOriginal(block)[i])
    ensures forall i :: 0 <= i < |ParseResponse(block)| ==> ParseResponse(block)[i] != [] && IsTrimmed(ParseResponse(block)[i])
  {
    StrippedAreTrimmed(Split(block, '\n'));
    StrippedAreTrimmed(Scan(block));
  }

  // ---------------------------------------------------------------------
  // Reading a numbered block back.

  predicate NoLineTerminator(x: string) {
    forall i :: 0 <= i < |x| ==> !IsLineTerminator(x[i])
  }

  /** No digit of `x` is followed by `.` or `)`, so no item marker starts
      inside it. */
  predicate NoMarkerInside(x: string) {
    forall k :: 0 < k < |x| ==> !DigitThenMark(x, k)
  }

  /** A digit at `k - 1` followed by `.` or `)` at `k`. */
  predicate DigitThenMark(x: string, k: int)
    requires 0 < k < |x|
  {
    IsDigit(x[k - 1]) && (x[k] == '.' || x[k] == ')')
  }

  lemma NoMarkerInsideSuffix(x: string, j: nat)
    requires NoMarkerInside(x) && j <= |x|
    ensures NoMarkerInside(x[j..])
  {
    forall k | 0 < k < |x[j..]| ensures !DigitThenMark(x[j..], k) {
      assert !DigitThenMark(x, j + k);
      assert x[j..][k] == x[j + k] && x[j..][k - 1] == x[j + k - 1];
    }
  }

  /** Digits then `. ` make a marker, and what follows it is the rest
      without its leading white space. */
  lemma DigitsThenMark(digits: string, y: string)
    requires digits != [] && All(digits, Digit)
    ensures Marker(digits + (". " + y))
    ensures AfterMarker(digits + (". " + y)) == DropWhile(y, Space)
  {
    var rest := ". " + y;
    var t := digits + rest;
    SpanConcat(digits, rest, Digit);
    assert Span(rest, Digit) == 0;
    assert t[|digits|] == '.';
    var after := t[|digits| + 1..];
    assert after == [' '] + y;
    SpanConcat([' '], y, Space);
    assert t[|digits| + 2 + Span(y, Space)..] == y[Span(y, Space)..];
  }

  /** An item starts with its marker, and its text follows the marker's
      white space. */
  lemma ItemMarker(k: nat, x: string, tail: string)
    ensures Marker(Item(k, x) + tail)
    ensures AfterMarker(Item(k, x) + tail) == DropWhile(x + tail, Space)
  {
    assert Item(k, x) + tail == Decimal(k) + (". " + (x + tail));
    DigitsThenMark(Decimal(k), x + tail);
  }

  lemma MarkerStartsWithDigit(t: string)
    requires Marker(t)
    ensures t != [] && IsDigit(t[0])
  {
  }

  /** The end of a line, before the next item or at the end of the block,
      is where the lookahead holds. */
  lemma LookAtLineEnd(tail: string)
    requires tail == [] || (tail[0] == '\n' && Marker(tail[1..]))
    ensures Look(tail)
  {
    if tail != [] {
      MarkerStartsWithDigit(tail[1..]);
      assert DropWhile(tail, Space) == DropWhile(tail[1..], Space) by {
        SpanBounds(tail, Space);
      }
    }
  }

  /** `t` does not start with a digit, `.` or `)`, so a text before it
      cannot run on into a marker. */
  predicate Unglued(t: string) {
    t == [] || (!IsDigit(t[0]) && t[0] != '.' && t[0] != ')')
  }

  /** No marker starts inside an item's text. */
  lemma NoMarkerIn(u: string, tail: string)
    requires u != [] && NoMarkerInside(u)
    requires Unglued(tail)
    ensures !Marker(u + tail)
  {
    DropWhileConcat(u, tail, Digit);
    SpanBounds(u, Digit);
    if !All(u, Digit) {
      var m := |u| - |DropWhile(u, Digit)|;
      if m > 0 {
        assert (DropWhile(u, Digit) + tail)[0] == u[m];
        assert IsDigit(u[m - 1]) && !DigitThenMark(u, m);
      }
    }
  }

  /** The lazy `.*?` takes an item's whole text and stops where the
      lookahead first holds: at the end of its line, or before a marker. */
  lemma {:induction false} ContentOfItem(x: string, tail: string)
    requires x == [] || !IsSpace(x[|x| - 1])
    requires NoLineTerminator(x) && NoMarkerInside(x)
    requires Look(tail) && Unglued(tail)
    ensures ContentLen(x + tail) == Some(|x|)
    decreases |x|
  {
    if x == [] {
      assert x + tail == tail;
    } else {
      assert !Look(x + tail) by {
        DropWhileConcat(x, tail, Space);
        var u := DropWhile(x, Space);
        assert !All(x, Space);
        SpanBounds(x, Space);
        NoMarkerInsideSuffix(x, |x| - |u|);
        NoMarkerIn(u, tail);
      }
      assert ContentLen(x[1..] + tail) == Some(|x| - 1) by {
        NoMarkerInsideSuffix(x, 1);
        ContentOfItem(x[1..], tail);
      }
      assert (x + tail)[1..] == x[1..] + tail;
      ContentStep(x + tail, |x| - 1);
    }
  }

  /** One more character for the lazy `.*?`. */
  lemma ContentStep(t: string, c: nat)
    requires t != [] && !Look(t) && !IsLineTerminator(t[0])
    requires ContentLen(t[1..]) == Some(c)
    ensures ContentLen(t) == Some(c + 1)
  {
    var r := ContentLen(t);
    assert r == match ContentLen(t[1..]) case Some(n) => Some(n + 1) case None => None;
  }

  /** Where the match of an item ends: after its text, and after the line
      break too when the text is empty. */
  lemma MatchItem(k: nat, x: string, tail: string)
    requires IsTrimmed(x) && NoLineTerminator(x) && NoMarkerInside(x)
    requires tail == [] || (tail[0] == '\n' && Marker(tail[1..]))
    ensures MatchAt(Item(k, x) + tail) == Some(|Item(k, x)| + (if x == [] && tail != [] then 1 else 0))
  {
    var t := Item(k, x) + tail;
    var extra := if x == [] && tail != [] then 1 else 0;
    assert Marker(t) && MarkerLen(t) == |Item(k, x)| - |x| + extra && ContentLen(AfterMarker(t)) == Some(|x|) by {
      ItemMarker(k, x, tail);
      ItemContent(x, tail);
    }
    MatchAtContent(t, |x|);
  }

  /** What follows an item's marker: its text, then the line break. */
  lemma ItemContent(x: string, tail: string)
    requires IsTrimmed(x) && NoLineTerminator(x) && NoMarkerInside(x)
    requires tail == [] || (tail[0] == '\n' && Marker(tail[1..]))
    ensures ContentLen(DropWhile(x + tail, Space)) == Some(|x|)
    ensures |DropWhile(x + tail, Space)| == |x| + |tail| - (if x == [] && tail != [] then 1 else 0)
  {
    if x != [] {
      TextContent(x, tail);
    } else {
      assert x + tail == tail;
      if tail != [] {
        EmptyContent(tail);
      }
    }
  }

  /** A non-empty item text is all of the content. */
  lemma TextContent(x: string, tail: string)
    requires x != [] && IsTrimmed(x) && NoLineTerminator(x) && NoMarkerInside(x)
    requires tail == [] || (tail[0] == '\n' && Marker(tail[1..]))
    ensures DropWhile(x + tail, Space) == x + tail
    ensures ContentLen(x + tail) == Some(|x|)
  {
    assert Look(tail) && Unglued(tail) by {
      LookAtLineEnd(tail);
    }
    TextBeforeMarker(x, tail);
  }

  /** An empty item text leaves the line break to the marker's `\s*`, and the
      next item follows at once. */
  lemma EmptyContent(tail: string)
    requires tail != [] && tail[0] == '\n' && Marker(tail[1..])
    ensures DropWhile(tail, Space) == tail[1..]
    ensures ContentLen(tail[1..]) == Some(0)
  {
    MarkerStartsWithDigit(tail[1..]);
    SpanBounds(tail, Space);
    SpanBounds(tail[1..], Space);
    assert Span(tail[1..], Space) == 0;
    assert DropWhile(tail[1..], Space) == tail[1..];
    assert Look(tail[1..]);
  }

  /** A match is the marker and the content that follows it. */
  lemma MatchAtContent(t: string, c: nat)
    requires Marker(t) && ContentLen(AfterMarker(t)) == Some(c)
    ensures MatchAt(t) == Some(MarkerLen(t) + c)
  {
  }

  /** A line break is never the start of a match. */
  lemma ScanNewline(rest: string)
    ensures Scan("\n" + rest) == Scan(rest)
  {
    var t := "\n" + rest;
    assert !Marker(t) by {
      assert DropWhile(t, Digit) == t;
    }
    assert t[1..] == rest;
  }

  /** An item's match, once stripped and trimmed, is the item's text. */
  lemma StripItem(k: nat, x: string, tail: string)
    requires IsTrimmed(x)
    requires tail == [] || (x == [] && tail == "\n")
    ensures Trim(StripMarker(Item(k, x) + tail)) == x
  {
    ItemMarker(k, x, tail);
    if x != [] {
      assert x + tail == x;
      assert DropWhile(x, Space) == x;
    } else if tail != [] {
      assert x + tail == "\n";
      assert DropWhile("\n", Space) == [];
    } else {
      assert x + tail == [];
    }
  }

  /** A block that starts with an item: its first match reads back as the
      item's text, and the rest of the block is scanned after its line. */
  lemma ScanItem(k: nat, x: string, tail: string)
    requires IsTrimmed(x) && NoLineTerminator(x) && NoMarkerInside(x)
    requires tail == [] || (tail[0] == '\n' && Marker(tail[1..]))
    ensures Stripped(Scan(Item(k, x) + tail)) == [x] + Stripped(Scan(if tail == [] then [] else tail[1..]))
  {
    var t := Item(k, x) + tail;
    var n := |Item(k, x)| + (if x == [] && tail != [] then 1 else 0);
    var rest := if tail == [] then [] else tail[1..];
    assert Scan(t) == [t[..n]] + Scan(t[n..]) by {
      MatchItem(k, x, tail);
    }
    FirstMatchText(k, x, tail);
    ScanAfterItem(k, x, tail);
    ScanFirst(t, n, x, rest);
  }

  /** The first match of a block that starts with an item, stripped and
      trimmed, is the item's text. */
  lemma FirstMatchText(k: nat, x: string, tail: string)
    requires IsTrimmed(x)
    requires tail == [] || tail[0] == '\n'
    ensures var n := |Item(k, x)| + (if x == [] && tail != [] then 1 else 0);
      n <= |Item(k, x) + tail| && Trim(StripMarker((Item(k, x) + tail)[..n])) == x
  {
    if x == [] && tail != [] {
      ConcatSlices(Item(k, x), tail, 1);
      assert tail[..1] == "\n";
      StripItem(k, x, "\n");
    } else {
      ConcatSlices(Item(k, x), tail, 0);
      assert Item(k, x) + tail[..0] == Item(k, x) + [];
      StripItem(k, x, []);
    }
  }

  /** The scan goes on with the next line. */
  lemma ScanAfterItem(k: nat, x: string, tail: string)
    requires tail == [] || tail[0] == '\n'
    ensures var n := |Item(k, x)| + (if x == [] && tail != [] then 1 else 0);
      n <= |Item(k, x) + tail| && Scan((Item(k, x) + tail)[n..]) == Scan(if tail == [] then [] else tail[1..])
  {
    if tail == [] {
      ConcatSlices(Item(k, x), tail, 0);
    } else if x == [] {
      ConcatSlices(Item(k, x), tail, 1);
    } else {
      ConcatSlices(Item(k, x), tail, 0);
      assert tail == "\n" + tail[1..];
      ScanNewline(tail[1..]);
    }
  }

  /** A text whose first match reads back as `x`. */
  lemma ScanFirst(t: string, n: nat, x: string, rest: string)
    requires n <= |t| && Scan(t) == [t[..n]] + Scan(t[n..])
    requires Trim(StripMarker(t[..n])) == x && Scan(t[n..]) == Scan(rest)
    ensures Stripped(Scan(t)) == [x] + Stripped(Scan(rest))
  {
    StrippedCons(t[..n], Scan(t[n..]));
  }

  /** Cutting a concatenation `j` characters into its second part. */
  lemma ConcatSlices(a: string, b: string, j: nat)
    requires j <= |b|
    ensures (a + b)[..|a| + j] == a + b[..j]
    ensures (a + b)[|a| + j..] == b[j..]
  {
  }

  lemma StrippedCons(line: string, rest: seq<string>)
    ensures Stripped([line] + rest) == [Trim(StripMarker(line))] + Stripped(rest)
  {
    assert ([line] + rest)[1..] == rest;
  }

  /** A joined list of parts starts with its first part. */
  lemma JoinHead(parts: seq<string>, sep: string)
    requires |parts| >= 1
    ensures Join(parts, sep) == parts[0] + (if |parts| == 1 then [] else sep + Join(parts[1..], sep))
  {
    if |parts| == 1 {
      assert parts[0] + [] == parts[0];
    } else {
      assert parts[0] + sep + Join(parts[1..], sep) == parts[0] + (sep + Join(parts[1..], sep));
    }
  }

  /** Every item text a numbered block can carry back through the reply parser. */
  predicate Readable(x: string) {
    IsTrimmed(x) && NoLineTerminator(x) && NoMarkerInside(x)
  }

  /** Scanning a block numbered from `k` gives back the texts, one match per item. */
  lemma {:induction false} ScanNumbered(xs: seq<string>, k: nat)
    requires forall i :: 0 <= i < |xs| ==> Readable(xs[i])
    ensures Stripped(Scan(Join(Lines(xs, k), "\n"))) == xs
    decreases |xs|
  {
    if xs == [] {
    } else {
      var lines := Lines(xs, k);
      JoinHead(lines, "\n");
      if |xs| == 1 {
        assert Join(lines, "\n") == Item(k, xs[0]) + [];
        ScanItem(k, xs[0], []);
      } else {
        assert lines[1..] == Lines(xs[1..], k + 1);
        var rest := Join(lines[1..], "\n");
        JoinHead(lines[1..], "\n");
        ItemMarker(k + 1, xs[1], if |xs| == 2 then [] else "\n" + Join(lines[2..], "\n"));
        assert lines[1..][1..] == lines[2..];
        assert Marker(rest);
        var tail := "\n" + rest;
        assert tail[1..] == rest;
        ScanItem(k, xs[0], tail);
        ScanNumbered(xs[1..], k + 1);
        assert xs == [xs[0]] + xs[1..];
      }
    }
  }

  /** The reply parser reads a numbered block back as its non-empty texts:
      a reply that repeats the block unchanged pairs up with it item by item. */
  lemma ParseResponseOfNumber(xs: seq<string>)
    requires forall i :: 0 <= i < |xs| ==> Readable(xs[i])
    ensures ParseResponse(Number(xs)) == NonEmpty(xs)
  {
    ScanNumbered(xs, 1);
  }

  /** Stripping each numbered line gives back its text. */
  lemma {:induction false} StrippedLines(xs: seq<string>, k: nat)
    requires forall i :: 0 <= i < |xs| ==> IsTrimmed(xs[i])
    ensures Stripped(Lines(xs, k)) == xs
    decreases |xs|
  {
    if xs != [] {
      var first := Item(k, xs[0]);
      var rest := Lines(xs[1..], k + 1);
      assert Lines(xs, k) == [first] + rest;
      assert Trim(StripMarker(first)) == xs[0] by {
        StripItem(k, xs[0], []);
        assert first + [] == first;
      }
      StrippedCons(first, rest);
      StrippedLines(xs[1..], k + 1);
      assert xs == [xs[0]] + xs[1..];
    }
  }

  /** No line of a numbered block holds a line break of its own. */
  lemma LinesWithoutBreaks(xs: seq<string>, k: nat)
    requires forall i :: 0 <= i < |xs| ==> '\n' !in xs[i]
    ensures forall i :: 0 <= i < |xs| ==> '\n' !in Lines(xs, k)[i]
  {
    LinesAt(xs, k);
    forall i | 0 <= i < |xs| ensures '\n' !in Lines(xs, k)[i] {
      var d := Decimal(k + i);
      assert Lines(xs, k)[i] == d + (". " + xs[i]);
      assert '\n' !in d by {
        assert All(d, Digit);
      }
    }
  }

  /** Line 167 reads the numbered block of line 230 back as its non-empty
      sentences, in order. */
  lemma ParseOriginalOfNumber(xs: seq<string>)
    requires forall i :: 0 <= i < |xs| ==> IsTrimmed(xs[i]) && '\n' !in xs[i]
    ensures ParseOriginal(Number(xs)) == NonEmpty(xs)
  {
    if xs == [] {
      assert Split([], '\n') == [[]];
      assert Stripped([[]]) == [[]];
    } else {
      var lines := Lines(xs, 1);
      assert Split(Number(xs), '\n') == lines by {
        LinesWithoutBreaks(xs, 1);
        SplitJoin(lines, '\n');
      }
      StrippedLines(xs, 1);
    }
  }

  /** A number followed by `.` inside a sentence starts an item of its own
      in the reply: the echoed block of `I hate page 5.` reads back as
      `I hate page`, and the item `5.` strips to nothing and is dropped. */
  lemma InnerNumberStartsItem()
    ensures ParseResponse(Number(["I hate page 5."])) == ["I hate page"]
  {
    var x := "I hate page";
    var items := [Item(1, x), "5."];
    assert Scan(Number(["I hate page 5."])) == items by {
      EchoedBlock(x, " 5.");
      ScanEchoed(x, " 5.");
    }
    assert Stripped(items) == [x, []] by {
      StrippedEchoed(x);
    }
    assert NonEmpty([x, []]) == [x];
  }

  /** The echoed block is the item `1. I hate page` followed by ` 5.`. */
  lemma EchoedBlock(x: string, tail: string)
    requires x == "I hate page" && tail == " 5."
    ensures Number(["I hate page 5."]) == Item(1, x) + tail
  {
    assert Decimal(1) == "1";
    assert Lines(["I hate page 5."], 1) == [Item(1, "I hate page 5.")];
  }

  /** The echoed block holds two matches: the item up to ` 5.`, and `5.`. */
  lemma ScanEchoed(x: string, tail: string)
    requires x == "I hate page" && tail == " 5."
    ensures Scan(Item(1, x) + tail) == [Item(1, x), "5."]
  {
    var t := Item(1, x) + tail;
    var n := |Item(1, x)|;
    FirstItemBeforeNumber(x, tail);
    assert t[..n] == Item(1, x) && t[n..] == tail;
    ScanNumberAlone();
  }

  /** The two matches strip to the text and to nothing. */
  lemma StrippedEchoed(x: string)
    requires IsTrimmed(x)
    ensures Stripped([Item(1, x), "5."]) == [x, []]
  {
    StrippedPair(Item(1, x), "5.");
    StripItem(1, x, []);
    assert Item(1, x) + [] == Item(1, x);
    StripNumberAlone();
  }

  lemma StrippedPair(a: string, b: string)
    ensures Stripped([a, b]) == [Trim(StripMarker(a)), Trim(StripMarker(b))]
  {
    assert [a, b][1..] == [b];
    assert [b][1..] == [];
  }

  /** `5.` strips to nothing. */
  lemma StripNumberAlone()
    ensures Trim(StripMarker("5.")) == []
  {
    StripMarkerOf("5", '.', [], []);
    assert "5" + (['.'] + ([] + [])) == "5.";
  }

  /** The first match of the echoed block ends before ` 5.`. */
  lemma FirstItemBeforeNumber(x: string, tail: string)
    requires x == "I hate page" && tail == " 5."
    ensures MatchAt(Item(1, x) + tail) == Some(|Item(1, x)|)
  {
    assert Look(tail) && Unglued(tail) by {
      SpaceThen("5.");
      assert [' '] + "5." == tail;
      NumberAlone();
    }
    assert x != [] && IsTrimmed(x) && NoLineTerminator(x) && NoMarkerInside(x);
    ItemBeforeMarker(1, x, tail);
  }

  /** An item's match ends where its text does when a marker, after white
      space, follows the text on the same line. */
  lemma ItemBeforeMarker(k: nat, x: string, tail: string)
    requires x != [] && IsTrimmed(x) && NoLineTerminator(x) && NoMarkerInside(x)
    requires Look(tail) && Unglued(tail)
    ensures MatchAt(Item(k, x) + tail) == Some(|Item(k, x)|)
  {
    var t := Item(k, x) + tail;
    assert MarkerLen(t) == |Item(k, x)| - |x| && ContentLen(AfterMarker(t)) == Some(|x|) by {
      ItemMarker(k, x, tail);
      TextBeforeMarker(x, tail);
    }
    MatchAtContent(t, |x|);
  }

  /** The content after the marker starts with the text and stops at its end. */
  lemma TextBeforeMarker(x: string, tail: string)
    requires x != [] && IsTrimmed(x) && NoLineTerminator(x) && NoMarkerInside(x)
    requires Look(tail) && Unglued(tail)
    ensures DropWhile(x + tail, Space) == x + tail
    ensures ContentLen(x + tail) == Some(|x|)
  {
    assert Span(x + tail, Space) == 0;
    ContentOfItem(x, tail);
  }

  /** One space before a text that does not start with white space. */
  lemma SpaceThen(rest: string)
    requires rest != [] && !IsSpace(rest[0])
    ensures DropWhile([' '] + rest, Space) == rest
  {
    var t := [' '] + rest;
    assert t[1..] == rest;
    assert Span(rest, Space) == 0;
    assert Span(t, Space) == 1;
  }

  /** `5.` is a marker and the whole of its own match. */
  lemma NumberAlone()
    ensures Marker("5.") && MarkerLen("5.") == 2 && MatchAt("5.") == Some(2)
  {
    var t := "5.";
    assert t[1..] == ".";
    assert Span(".", Digit) == 0;
    assert Span(t, Digit) == 1;
    assert t[2..] == [];
    assert Span(t[2..], Space) == 0;
    assert ContentLen(t[2..]) == Some(0);
  }

  /** ` 5.` holds one match, `5.`. */
  lemma ScanNumberAlone()
    ensures Scan(" 5.") == ["5."]
  {
    var t := " 5.";
    assert t[1..] == "5.";
    assert Span(t, Digit) == 0;
    assert !Marker(t);
    assert MatchAt(t) == None;
    assert Scan(t) == Scan("5.");
    NumberAlone();
    var u := "5.";
    assert u[..2] == u && u[2..] == [];
    assert Scan(u) == [u] + Scan([]);
  }
}
