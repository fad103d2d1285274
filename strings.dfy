/**
 * The JavaScript string primitives the optimizer is built from: `trim`,
 * `split` on one character, `join`, `indexOf`, `includes`, `lastIndexOf`,
 * `replace` with a string pattern (first occurrence only, with the `$`
 * forms of a replacement string) and ASCII lower-casing.
 * A string is a sequence of characters, not of UTF-16 code units.
 */
module Strings {

  /** The characters JavaScript's `\s` and `String.prototype.trim` treat as
      white space: ECMAScript's WhiteSpace and LineTerminator. */
  predicate IsSpace(c: char) {
    || c == '\t' || c == '\n' || c == '\U{000B}' || c == '\U{000C}' || c == '\r' || c == ' '
    || c == '\U{00A0}' || c == '\U{1680}' || ('\U{2000}' <= c <= '\U{200A}')
    || c == '\U{2028}' || c == '\U{2029}' || c == '\U{202F}' || c == '\U{205F}'
    || c == '\U{3000}' || c == '\U{FEFF}'
  }

  /** The characters `.` of a JavaScript regular expression does not match. */
  predicate IsLineTerminator(c: char) {
    c == '\n' || c == '\r' || c == '\U{2028}' || c == '\U{2029}'
  }

  /** `\d` of a JavaScript regular expression. */
  predicate IsDigit(c: char) {
    '0' <= c <= '9'
  }

  /** `[\s"'“‘]`: what is stripped from the front of a sentence. */
  predicate IsOpeningWrap(c: char) {
    IsSpace(c) || c == '"' || c == '\'' || c == '“' || c == '‘'
  }

  /** `[\s"'”’]`: what is stripped from the end of a sentence. */
  predicate IsClosingWrap(c: char) {
    IsSpace(c) || c == '"' || c == '\'' || c == '”' || c == '’'
  }

  /** The character classes of the expressions the add-on strips and
      scans with, and the complements its proofs need. */
  datatype CharClass =
    | Space          // `\s`
    | Digit          // `\d`
    | OpeningWrap    // `[\s"'“‘]`
    | ClosingWrap    // `[\s"'”’]`
    | NoBreak        // `[^\r\n]`
    | Plain          // `[^\r\n*]`
    | Except(c: char)  // every character but `c`

  predicate InClass(c: char, k: CharClass) {
    match k
    case Space => IsSpace(c)
    case Digit => IsDigit(c)
    case OpeningWrap => IsOpeningWrap(c)
    case ClosingWrap => IsClosingWrap(c)
    case NoBreak => c != '\r' && c != '\n'
    case Plain => c != '\r' && c != '\n' && c != '*'
    case Except(x) => c != x
  }

  /** The length of the longest prefix of `s` whose characters are all in `p`. */
  function Span(s: string, p: CharClass): (n: nat)
    ensures n <= |s|
  {
    if s != [] && InClass(s[0], p) then 1 + Span(s[1..], p) else 0
  }

  /** The run `Span` measures is all in `p`, and the character after it is not. */
  lemma {:induction false} SpanBounds(s: string, p: CharClass)
    ensures forall i :: 0 <= i < Span(s, p) ==> InClass(s[i], p)
    ensures Span(s, p) < |s| ==> !InClass(s[Span(s, p)], p)
    decreases |s|
  {
    if s != [] && InClass(s[0], p) {
      SpanBounds(s[1..], p);
      assert forall i :: 1 <= i < |s| ==> s[i] == s[1..][i - 1];
    }
  }

  /** The length of the longest suffix of `s` whose characters are all in `p`. */
  function SpanEnd(s: string, p: CharClass): (n: nat)
    ensures n <= |s|
  {
    if s != [] && InClass(s[|s| - 1], p) then 1 + SpanEnd(s[..|s| - 1], p) else 0
  }

  /** The run `SpanEnd` measures is all in `p`, and the character before it is not. */
  lemma {:induction false} SpanEndBounds(s: string, p: CharClass)
    ensures forall i :: |s| - SpanEnd(s, p) <= i < |s| ==> InClass(s[i], p)
    ensures SpanEnd(s, p) < |s| ==> !InClass(s[|s| - SpanEnd(s, p) - 1], p)
    decreases |s|
  {
    if s != [] && InClass(s[|s| - 1], p) {
      SpanEndBounds(s[..|s| - 1], p);
    }
  }

  /** `s` without its longest prefix of characters in `p`. */
  function DropWhile(s: string, p: CharClass): string {
    s[Span(s, p)..]
  }

  /** `s` without its longest suffix of characters in `p`. */
  function DropWhileEnd(s: string, p: CharClass): string {
    s[..|s| - SpanEnd(s, p)]
  }

  predicate IsTrimmed(s: string) {
    s == [] || (!IsSpace(s[0]) && !IsSpace(s[|s| - 1]))
  }

  /** `String.prototype.trim`. */
  function Trim(s: string): (r: string)
    ensures IsTrimmed(r)
    ensures IsTrimmed(s) ==> r == s
  {
    var t := DropWhile(s, Space);
    var r := DropWhileEnd(t, Space);
    SpanBounds(s, Space);
    SpanEndBounds(t, Space);
    assert r != [] ==> r[0] == t[0];
    r
  }

  /** Trimming keeps the text between a leading and a trailing run of white
      space; with `IsTrimmed` of the result, this determines it. */
  lemma TrimIsSlice(s: string)
    ensures exists i, j :: 0 <= i <= j <= |s| && Trim(s) == s[i..j] && All(s[..i], Space) && All(s[j..], Space)
  {
    var i := Span(s, Space);
    var t := s[i..];
    var e := SpanEnd(t, Space);
    SpanBounds(s, Space);
    SpanEndBounds(t, Space);
    var j := |s| - e;
    assert Trim(s) == s[i..j];
    assert All(s[..i], Space);
    assert forall k :: j <= k < |s| ==> s[k] == t[k - i];
    assert All(s[j..], Space);
  }

  /** Trimming leaves nothing exactly when the text is all white space. */
  lemma TrimIsEmpty(s: string)
    ensures Trim(s) == [] <==> All(s, Space)
  {
    var t := DropWhile(s, Space);
    SpanBounds(s, Space);
    SpanEndBounds(t, Space);
    if !All(s, Space) {
      assert t != [];
    }
  }

  /** The run at the front of a concatenation ends inside `a` unless every
      character of `a` belongs to it. */
  lemma {:induction false} SpanConcat(a: string, b: string, p: CharClass)
    ensures Span(a + b, p) == if All(a, p) then |a| + Span(b, p) else Span(a, p)
    decreases |a|
  {
    if a == [] {
      assert a + b == b;
    } else {
      assert (a + b)[1..] == a[1..] + b;
      SpanConcat(a[1..], b, p);
      AllCons(a, p);
    }
  }

  lemma AllCons(a: string, p: CharClass)
    requires a != []
    ensures All(a, p) <==> InClass(a[0], p) && All(a[1..], p)
  {
    assert forall i :: 1 <= i < |a| ==> a[i] == a[1..][i - 1];
  }

  /** Dropping a run from a concatenation. */
  lemma DropWhileConcat(a: string, b: string, p: CharClass)
    ensures DropWhile(a + b, p) == if All(a, p) then DropWhile(b, p) else DropWhile(a, p) + b
  {
    SpanConcat(a, b, p);
    if All(a, p) {
      assert (a + b)[|a| + Span(b, p)..] == b[Span(b, p)..];
    } else {
      assert (a + b)[Span(a, p)..] == a[Span(a, p)..] + b;
    }
  }

  /** Every character of `s` satisfies `p`. */
  predicate All(s: string, p: CharClass) {
    forall i :: 0 <= i < |s| ==> InClass(s[i], p)
  }

  lemma AllSlice(s: string, p: CharClass, a: nat, b: nat)
    requires All(s, p) && a <= b <= |s|
    ensures All(s[a..b], p)
  {
    assert forall i :: 0 <= i < b - a ==> s[a..b][i] == s[a + i];
  }

  /** Trimming keeps a property every character has. */
  lemma TrimAll(s: string, p: CharClass)
    requires All(s, p)
    ensures All(Trim(s), p)
  {
    var t := DropWhile(s, Space);
    AllSlice(s, p, Span(s, Space), |s|);
    AllSlice(t, p, 0, |t| - SpanEnd(t, Space));
  }

  lemma NotInFromAll(s: string, c: char)
    requires All(s, Except(c))
    ensures c !in s
  {
  }

  lemma AllFromNotIn(s: string, c: char)
    requires c !in s
    ensures All(s, Except(c))
  {
  }

  /** `parts.join(sep)`. */
  function Join(parts: seq<string>, sep: string): string {
    if |parts| == 0 then []
    else if |parts| == 1 then parts[0]
    else parts[0] + sep + Join(parts[1..], sep)
  }

  /** `s.split(sep)` for a one-character separator: the pieces between the
      separators, always at least one. */
  function Split(s: string, sep: char): (r: seq<string>)
    ensures |r| >= 1
    ensures forall i :: 0 <= i < |r| ==> sep !in r[i]
    ensures Join(r, [sep]) == s
    decreases |s|
  {
    if s == [] then [[]]
    else
      var rest := Split(s[1..], sep);
      if s[0] == sep then
        assert Join([[]] + rest, [sep]) == [sep] + Join(rest, [sep]) by {
          assert ([[]] + rest)[1..] == rest;
        }
        [[]] + rest
      else
        var r := [[s[0]] + rest[0]] + rest[1..];
        assert Join(r, [sep]) == [s[0]] + Join(rest, [sep]) by {
          if |rest| > 1 {
            assert r[1..] == rest[1..];
          }
        }
        r
  }

  /** Splitting `p + t` where `p` holds no separator glues `p` to the first piece of `t`. */
  lemma {:induction false} SplitAfter(p: string, t: string, sep: char)
    requires sep !in p
    ensures Split(p + t, sep) == [p + Split(t, sep)[0]] + Split(t, sep)[1..]
    decreases |p|
  {
    if p == [] {
      var pieces := Split(t, sep);
      assert p + t == t && p + pieces[0] == pieces[0];
      assert pieces == [pieces[0]] + pieces[1..];
    } else {
      assert (p + t)[1..] == p[1..] + t;
      SplitAfter(p[1..], t, sep);
      assert [p[0]] + (p[1..] + Split(t, sep)[0]) == p + Split(t, sep)[0];
    }
  }

  /** A leading separator splits off an empty piece. */
  lemma SplitAtSep(rest: string, sep: char)
    ensures Split([sep] + rest, sep) == [[]] + Split(rest, sep)
  {
    assert ([sep] + rest)[1..] == rest;
  }

  /** One more piece in front of a joined list that splits back. */
  lemma SplitJoinCons(first: string, rest: seq<string>, sep: char)
    requires sep !in first && |rest| >= 1
    requires Split(Join(rest, [sep]), sep) == rest
    ensures Split(Join([first] + rest, [sep]), sep) == [first] + rest
  {
    var joined := Join(rest, [sep]);
    assert ([first] + rest)[1..] == rest;
    SplitAtSep(joined, sep);
    SplitAfter(first, [sep] + joined, sep);
    assert first + [] == first;
  }

  /** Splitting undoes joining when no piece holds the separator. */
  lemma {:induction false} SplitJoin(parts: seq<string>, sep: char)
    requires |parts| >= 1
    requires forall i :: 0 <= i < |parts| ==> sep !in parts[i]
    ensures Split(Join(parts, [sep]), sep) == parts
  {
    if |parts| == 1 {
      SplitAfter(parts[0], [], sep);
      assert parts[0] + [] == parts[0];
    } else {
      SplitJoin(parts[1..], sep);
      SplitJoinCons(parts[0], parts[1..], sep);
      assert parts == [parts[0]] + parts[1..];
    }
  }

  /** The elements of `xs` that are not empty, in order. */
  function NonEmpty(xs: seq<string>): (r: seq<string>)
    ensures forall i :: 0 <= i < |r| ==> r[i] != [] && r[i] in xs
    ensures forall x :: x in xs && x != [] ==> x in r
    ensures |r| <= |xs|
  {
    if xs == [] then []
    else if xs[0] == [] then NonEmpty(xs[1..])
    else [xs[0]] + NonEmpty(xs[1..])
  }

  /** `s.split(sep).map(x => x.trim()).filter(x => x.length > 0)`: the
      non-blank pieces of `s`, trimmed. */
  function SplitTrimmed(s: string, sep: char): (r: seq<string>)
    ensures forall i :: 0 <= i < |r| ==> r[i] != [] && IsTrimmed(r[i]) && sep !in r[i]
    ensures forall w :: w in r <==> w != [] && exists piece :: piece in Split(s, sep) && w == Trim(piece)
  {
    var pieces := Split(s, sep);
    var trimmed := seq(|pieces|, i requires 0 <= i < |pieces| => Trim(pieces[i]));
    forall i | 0 <= i < |pieces| ensures sep !in trimmed[i] {
      AllFromNotIn(pieces[i], sep);
      TrimAll(pieces[i], Except(sep));
      NotInFromAll(trimmed[i], sep);
    }
    assert forall w :: w in trimmed <==> exists piece :: piece in pieces && w == Trim(piece) by {
      forall w | w in trimmed ensures exists piece :: piece in pieces && w == Trim(piece) {
        var i :| 0 <= i < |trimmed| && trimmed[i] == w;
        assert pieces[i] in pieces;
      }
      forall w | exists piece :: piece in pieces && w == Trim(piece) ensures w in trimmed {
        var piece :| piece in pieces && w == Trim(piece);
        var i :| 0 <= i < |pieces| && pieces[i] == piece;
        assert trimmed[i] == w;
      }
    }
    NonEmpty(trimmed)
  }

  /** `pat` occurs in `s` at position `i`. */
  predicate OccursAt(s: string, pat: string, i: int) {
    0 <= i <= |s| - |pat| && s[i..i + |pat|] == pat
  }

  /** `i` is where `pat` first occurs in `s`. */
  predicate FirstOccurrence(s: string, pat: string, i: int) {
    OccursAt(s, pat, i) && forall j :: 0 <= j < i ==> !OccursAt(s, pat, j)
  }

  /** `s.indexOf(pat, from)`: the first position at or after `from` where
      `pat` occurs, or -1. */
  function IndexOfFrom(s: string, pat: string, from: nat): (r: int)
    ensures r == -1 || (from <= r && OccursAt(s, pat, r))
    ensures forall j :: from <= j && (r == -1 || j < r) ==> !OccursAt(s, pat, j)
    decreases |s| - from
  {
    if from + |pat| > |s| then -1
    else if s[from..from + |pat|] == pat then from
    else IndexOfFrom(s, pat, from + 1)
  }

  /** `s.indexOf(pat)`. */
  function IndexOf(s: string, pat: string): (r: int)
    ensures r == -1 || FirstOccurrence(s, pat, r)
    ensures r == -1 <==> forall j :: !OccursAt(s, pat, j)
  {
    IndexOfFrom(s, pat, 0)
  }

  /** Concatenation regroups freely. */
  lemma ConcatAssoc<T>(a: seq<T>, b: seq<T>, c: seq<T>)
    ensures a + (b + c) == (a + b) + c
  {
  }

  /** `s.includes(pat)`. */
  predicate Contains(s: string, pat: string) {
    IndexOf(s, pat) >= 0
  }

  /** `s.lastIndexOf(pat)` from position at most `k`. */
  function LastIndexOfUpTo(s: string, pat: string, k: int): (r: int)
    ensures r == -1 || (r <= k && OccursAt(s, pat, r))
    ensures forall j :: r < j <= k ==> !OccursAt(s, pat, j)
    decreases if k < 0 then 0 else k + 1
  {
    if k < 0 then -1
    else if OccursAt(s, pat, k) then k
    else LastIndexOfUpTo(s, pat, k - 1)
  }

  /** `s.lastIndexOf(pat)`: the last position where `pat` occurs, or -1. */
  function LastIndexOf(s: string, pat: string): (r: int)
    ensures r == -1 || OccursAt(s, pat, r)
    ensures forall j :: r < j ==> !OccursAt(s, pat, j)
  {
    LastIndexOfUpTo(s, pat, |s| - |pat|)
  }

  /** The text JavaScript's `replace` inserts for a string pattern (its
      GetSubstitution, no capture groups): `$$` gives `$`, `$&` the matched
      text, `` $` `` the text before the match, `$'` the text after it; every
      other `$` stands for itself. */
  function Substitution(repl: string, matched: string, before: string, after: string): (r: string)
    ensures '$' !in repl ==> r == repl
  {
    if repl == [] then []
    else if repl[0] == '$' && |repl| >= 2 && (repl[1] == '$' || repl[1] == '&' || repl[1] == '`' || repl[1] == '\'') then
      (match repl[1]
         case '$' => "$"
         case '&' => matched
         case '`' => before
         case _ => after)
      + Substitution(repl[2..], matched, before, after)
    else
      [repl[0]] + Substitution(repl[1..], matched, before, after)
  }

  /** `s.replace(pat, repl)` for a string `pat`: the first occurrence of
      `pat` is replaced, nothing else changes; without an occurrence `s` is
      returned as it is. */
  function ReplaceFirst(s: string, pat: string, repl: string): (r: string)
    ensures !Contains(s, pat) ==> r == s
  {
    var i := IndexOf(s, pat);
    if i < 0 then s
    else s[..i] + Substitution(repl, pat, s[..i], s[i + |pat|..]) + s[i + |pat|..]
  }

  /** Where `pat` first occurs, `replace` puts the substitution text, which
      is `repl` itself when it has no `$`, and keeps the text around it. */
  lemma ReplaceFirstAt(s: string, pat: string, repl: string, i: int)
    requires FirstOccurrence(s, pat, i)
    ensures ReplaceFirst(s, pat, repl) == s[..i] + Substitution(repl, pat, s[..i], s[i + |pat|..]) + s[i + |pat|..]
    ensures '$' !in repl ==> ReplaceFirst(s, pat, repl) == s[..i] + repl + s[i + |pat|..]
  {
    var k := IndexOf(s, pat);
    assert k != -1 by {
      assert OccursAt(s, pat, i);
    }
    FirstOccurrenceUnique(s, pat, i, k);
  }

  /** `pat` first occurs in one place only. */
  lemma FirstOccurrenceUnique(s: string, pat: string, i: int, k: int)
    requires FirstOccurrence(s, pat, i) && FirstOccurrence(s, pat, k)
    ensures i == k
  {
  }

  /** Lower-casing as a case-insensitive JavaScript regular expression sees
      it, restricted to ASCII letters. */
  function LowerChar(c: char): char {
    if 'A' <= c <= 'Z' then (c as int + 32) as char else c
  }

  function ToLower(s: string): (r: string)
    ensures |r| == |s|
  {
    seq(|s|, i requires 0 <= i < |s| => LowerChar(s[i]))
  }

  /** `new RegExp(literal, 'i').test(text)` for a pattern that matches `word` literally. */
  predicate ContainsIgnoringCase(text: string, word: string) {
    Contains(ToLower(text), ToLower(word))
  }
}
