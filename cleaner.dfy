/**
 * The regular-expression cleaner: every non-blank line of the configured
 * filters is a cleaning rule, either a bare pattern or a `/pattern/flags`
 * literal, and each rule's matches are removed from the text in turn.
 *
 * The regular-expression engine itself is not modelled: it is the parameter
 * `engine`, which gives the text with the rule's matches removed, or `None`
 * when the JavaScript `RegExp` constructor would throw for the rule.
 */
module Cleaner {
  import opened Wrappers
  import opened Strings

  datatype Rule = Rule(pattern: string, flags: string)

  /** Removes the matches of a rule from a text; `None` for an invalid rule. */
  type Engine = (Rule, string) -> Option<string>

  /** Global and dot-matches-newline, used when a line gives no flags. */
  const DefaultFlags: string := "gs"

  predicate IsFlag(c: char) {
    c == 'g' || c == 'i' || c == 'm' || c == 's' || c == 'u' || c == 'y'
  }

  /** `line` matches `^\/(.*)\/([gimsuy]*)$` with groups `body` and `flags`
      (`.` matches no line terminator). */
  predicate LiteralForm(line: string, body: string, flags: string) {
    && line == "/" + body + "/" + flags
    && (forall i :: 0 <= i < |flags| ==> IsFlag(flags[i]))
    && (forall i :: 0 <= i < |body| ==> !IsLineTerminator(body[i]))
  }

  /** `line` is a literal whose closing slash is at `k`. */
  predicate LiteralAt(line: string, k: int) {
    && 1 <= k < |line| && line[0] == '/' && line[k] == '/'
    && (forall i :: k < i < |line| ==> IsFlag(line[i]))
    && (forall i :: 1 <= i < k ==> !IsLineTerminator(line[i]))
  }

  /** A literal closed at `k` has the groups around `k`. */
  lemma LiteralAtForm(line: string, k: int)
    requires LiteralAt(line, k)
    ensures LiteralForm(line, line[1..k], line[k + 1..])
  {
    assert line[k..k + 1] == "/";
    assert line == "/" + line[1..k] + "/" + line[k + 1..];
  }

  /** In a line of literal form the flags follow the last slash, so the
      groups are determined by the line. */
  lemma LiteralFormLastSlash(line: string, body: string, flags: string)
    requires LiteralForm(line, body, flags)
    ensures var k := LastIndexOf(line, "/");
      LiteralAt(line, k) && line[1..k] == body && line[k + 1..] == flags
  {
    var k := |body| + 1;
    assert line[k] == '/';
    assert OccursAt(line, "/", k);
    assert LastIndexOf(line, "/") == k;
    assert line[1..k] == body;
    assert line[k + 1..] == flags;
  }

  /** The two groups of `line.match(/^\/(.*)\/([gimsuy]*)$/)`, if it matches. */
  function SplitLiteral(line: string): (groups: Option<(string, string)>)
    ensures groups.Some? ==> LiteralForm(line, groups.value.0, groups.value.1)
    ensures forall body, flags :: LiteralForm(line, body, flags) ==> groups == Some((body, flags))
  {
    var k := LastIndexOf(line, "/");
    var groups :=
      if LiteralAt(line, k) then
        LiteralAtForm(line, k);
        Some((line[1..k], line[k + 1..]))
      else None;
    assert forall body, flags :: LiteralForm(line, body, flags) ==> groups == Some((body, flags)) by {
      forall body, flags | LiteralForm(line, body, flags) ensures groups == Some((body, flags)) {
        LiteralFormLastSlash(line, body, flags);
      }
    }
    groups
  }

  /** Lines 108-114: the pattern and flags a rule line stands for. */
  function ParseRuleLine(line: string): (rule: Rule)
    ensures forall body, flags :: LiteralForm(line, body, flags) ==>
              rule == Rule(body, if flags == [] then DefaultFlags else flags)
    ensures (forall body, flags :: !LiteralForm(line, body, flags)) ==> rule == Rule(line, DefaultFlags)
  {
    match SplitLiteral(line)
    case Some((body, flags)) => Rule(body, if flags != [] then flags else DefaultFlags)
    case None => Rule(line, DefaultFlags)
  }

  /** `regexFilters.split('\n').map(line => line.trim()).filter(line => line.length > 0)`. */
  function RuleLines(filters: string): (lines: seq<string>)
    ensures forall i :: 0 <= i < |lines| ==> lines[i] != [] && IsTrimmed(lines[i]) && '\n' !in lines[i]
  {
    SplitTrimmed(filters, '\n')
  }

  /** One turn of the cleaning loop: the rule's matches are removed, and a
      rule that cannot be built leaves the text as it is. */
  function ApplyLine(engine: Engine, line: string, text: string): string {
    match engine(ParseRuleLine(line), text)
    case Some(cleaned) => cleaned
    case None => text
  }

  /** The rule lines applied in order, each to what the previous ones left. */
  function ApplyLines(engine: Engine, lines: seq<string>, text: string): string
    decreases |lines|
  {
    if lines == [] then text
    else ApplyLine(engine, lines[|lines| - 1], ApplyLines(engine, lines[..|lines| - 1], text))
  }

  /** What `cleanTextWithRegex` returns. */
  function Cleaned(engine: Engine, filters: string, text: string): string {
    if Trim(filters) == [] then text
    else Trim(ApplyLines(engine, RuleLines(filters), text))
  }

  /** The loop's step: the first `i + 1` lines are the first `i`, then line `i`. */
  lemma ApplyNextLine(engine: Engine, lines: seq<string>, i: nat, text: string)
    requires i < |lines|
    ensures ApplyLines(engine, lines[..i + 1], text) == ApplyLine(engine, lines[i], ApplyLines(engine, lines[..i], text))
  {
    assert lines[..i + 1][..i] == lines[..i];
  }

  /** `cleanTextWithRegex(text, settings)` with `settings.regexFilters == filters`. */
  method CleanText(engine: Engine, filters: string, text: string) returns (cleaned: string)
    ensures cleaned == Cleaned(engine, filters, text)
    ensures Trim(filters) == [] ==> cleaned == text
    ensures Trim(filters) != [] ==> IsTrimmed(cleaned)
  {
    if Trim(filters) == [] {
      return text;
    }
    var lines := RuleLines(filters);
    cleaned := text;
    var i := 0;
    while i < |lines|
      invariant 0 <= i <= |lines|
      invariant cleaned == ApplyLines(engine, lines[..i], text)
    {
      ghost var before := cleaned;
      var rule := ParseRuleLine(lines[i]);
      match engine(rule, cleaned) {
        case Some(result) => cleaned := result;
        case None =>  // the rule is skipped
      }
      assert cleaned == ApplyLine(engine, lines[i], before);
      ApplyNextLine(engine, lines, i, text);
      i := i + 1;
    }
    assert lines[..i] == lines;
    cleaned := Trim(cleaned);
  }

  /** Applying `first + second` is applying `first`, then `second` to its result. */
  lemma {:induction false} ApplyLinesAppend(engine: Engine, first: seq<string>, second: seq<string>, text: string)
    ensures ApplyLines(engine, first + second, text) == ApplyLines(engine, second, ApplyLines(engine, first, text))
    decreases |second|
  {
    if second == [] {
      assert first + second == first;
    } else {
      var n := |second|;
      assert (first + second)[..|first + second| - 1] == first + second[..n - 1];
      assert (first + second)[|first + second| - 1] == second[n - 1];
      ApplyLinesAppend(engine, first, second[..n - 1], text);
    }
  }

  /** A rule that cannot be built is skipped: the rules after it act on the
      text as if it were not there. */
  lemma FailingRuleIsSkipped(engine: Engine, before: seq<string>, bad: string, after: seq<string>, text: string)
    requires engine(ParseRuleLine(bad), ApplyLines(engine, before, text)).None?
    ensures ApplyLines(engine, before + [bad] + after, text) == ApplyLines(engine, before + after, text)
  {
    ApplyLinesAppend(engine, before + [bad], after, text);
    ApplyLinesAppend(engine, before, [bad], text);
    ApplyLinesAppend(engine, before, after, text);
    assert ApplyLines(engine, [bad], ApplyLines(engine, before, text)) == ApplyLines(engine, before, text) by {
      assert [bad][..0] == [];
    }
  }
}
