/**
 * The system prompt sent with the sentences to rewrite: the user's main and
 * system prompts, a line that names the disabled words, and the final
 * system prompt, one per line, with the empty ones dropped.
 */
module Prompt {
  import opened Strings
  import opened Matcher
  import opened Settings

  /** The fixed opening of the line that names the disabled words. */
  const AvoidPrefix := "必须避免使用这些词：["

  /** Line 131: the instruction never to use the words, listed in brackets. */
  function AvoidLine(words: seq<string>): string {
    AvoidPrefix + Join(words, ", ") + "]"
  }

  /** The four fragments of the prompt, in order, before the empty ones go. */
  function Fragments(settings: Settings): seq<string> {
    var p := settings.prompts;
    [p.main, p.system, AvoidLine(ParseWordList(settings.disabledWords)), p.finalSystem]
  }

  /** Lines 124-134: `getSystemPrompt`. */
  function SystemPrompt(settings: Settings): string {
    Join(NonEmpty(Fragments(settings)), "\n")
  }

  /** Dropping the empty strings distributes over concatenation. */
  lemma {:induction false} NonEmptyConcat(a: seq<string>, b: seq<string>)
    ensures NonEmpty(a + b) == NonEmpty(a) + NonEmpty(b)
    decreases |a|
  {
    if a == [] {
      assert a + b == b;
    } else {
      assert (a + b)[0] == a[0] && (a + b)[1..] == a[1..] + b;
      NonEmptyConcat(a[1..], b);
      if a[0] != [] {
        assert [a[0]] + (NonEmpty(a[1..]) + NonEmpty(b)) == [a[0]] + NonEmpty(a[1..]) + NonEmpty(b);
      }
    }
  }

  /** A character found in neither the parts nor the separator is not in
      their join. */
  lemma {:induction false} JoinWithout(parts: seq<string>, sep: string, c: char)
    requires c !in sep
    requires forall i :: 0 <= i < |parts| ==> c !in parts[i]
    ensures c !in Join(parts, sep)
    decreases |parts|
  {
    if |parts| > 1 {
      JoinWithout(parts[1..], sep, c);
    }
  }

  /** The line naming the words is never dropped, and the other fragments
      keep their order around it. */
  lemma NonEmptyFragments(settings: Settings)
    ensures var p := settings.prompts;
      NonEmpty(Fragments(settings)) ==
        NonEmpty([p.main, p.system]) + [AvoidLine(ParseWordList(settings.disabledWords))] + NonEmpty([p.finalSystem])
  {
    var p := settings.prompts;
    var line := AvoidLine(ParseWordList(settings.disabledWords));
    assert Fragments(settings) == [p.main, p.system] + [line] + [p.finalSystem];
    NonEmptyConcat([p.main, p.system] + [line], [p.finalSystem]);
    NonEmptyConcat([p.main, p.system], [line]);
    assert NonEmpty([line]) == [line] by {
      assert line[0] == '必';
      var none: seq<string> := [];
      assert [line][1..] == none;
    }
  }

  /** When no fragment holds a line break, the prompt's lines are the
      non-empty user prompts, with the line naming the words always present
      between the system prompt and the final system prompt. */
  lemma SystemPromptLines(settings: Settings)
    requires '\n' !in settings.prompts.main && '\n' !in settings.prompts.system
    requires '\n' !in settings.prompts.finalSystem
    requires forall w :: w in ParseWordList(settings.disabledWords) ==> '\n' !in w
    ensures var p := settings.prompts;
      Split(SystemPrompt(settings), '\n') ==
        NonEmpty([p.main, p.system]) + [AvoidLine(ParseWordList(settings.disabledWords))] + NonEmpty([p.finalSystem])
  {
    NonEmptyFragments(settings);
    FragmentsWithoutBreaks(settings);
    SplitJoin(NonEmpty(Fragments(settings)), '\n');
  }

  /** No kept fragment holds a line break when no user prompt and no word does. */
  lemma FragmentsWithoutBreaks(settings: Settings)
    requires '\n' !in settings.prompts.main && '\n' !in settings.prompts.system
    requires '\n' !in settings.prompts.finalSystem
    requires forall w :: w in ParseWordList(settings.disabledWords) ==> '\n' !in w
    ensures var lines := NonEmpty(Fragments(settings));
      forall i :: 0 <= i < |lines| ==> '\n' !in lines[i]
  {
    var words := ParseWordList(settings.disabledWords);
    AvoidLineWithoutBreak(words);
    var p := settings.prompts;
    var lines := NonEmpty(Fragments(settings));
    forall i | 0 <= i < |lines| ensures '\n' !in lines[i] {
      OneOfFour(lines[i], p.main, p.system, AvoidLine(words), p.finalSystem);
    }
  }

  /** The line naming the words holds no line break when no word does. */
  lemma AvoidLineWithoutBreak(words: seq<string>)
    requires forall w :: w in words ==> '\n' !in w
    ensures '\n' !in AvoidLine(words)
  {
    JoinWithout(words, ", ", '\n');
  }

  lemma OneOfFour(x: string, a: string, b: string, c: string, d: string)
    requires x in [a, b, c, d]
    ensures x == a || x == b || x == c || x == d
  {
  }

  /** With no disabled word and three non-empty one-line prompts, the
      prompt is four lines, the third naming no words. */
  lemma FourLines(settings: Settings)
    requires ParseWordList(settings.disabledWords) == []
    requires var p := settings.prompts;
      p.main != [] && p.system != [] && p.finalSystem != []
      && '\n' !in p.main && '\n' !in p.system && '\n' !in p.finalSystem
    ensures var p := settings.prompts;
      Split(SystemPrompt(settings), '\n') == [p.main, p.system, AvoidPrefix + "]", p.finalSystem]
  {
    var p := settings.prompts;
    SystemPromptLines(settings);
    assert NonEmpty([p.main, p.system]) == [p.main, p.system] by {
      assert [p.main, p.system][1..] == [p.system];
      assert [p.system][1..] == [];
    }
    assert NonEmpty([p.finalSystem]) == [p.finalSystem] by {
      assert [p.finalSystem][1..] == [];
    }
    assert AvoidLine([]) == AvoidPrefix + "]";
  }

  /** The default settings give that four-line prompt. */
  lemma DefaultSystemPrompt()
    ensures Split(SystemPrompt(Defaults), '\n') ==
              [DefaultPrompts.main, DefaultPrompts.system, AvoidPrefix + "]", DefaultPrompts.finalSystem]
  {
    EmptyWordList();
    DefaultPromptsOneLine();
    FourLines(Defaults);
  }

  /** An empty word list holds no word. */
  lemma EmptyWordList()
    ensures ParseWordList("") == []
  {
    assert Split("", ',') == [[]];
    assert Trim([]) == [];
  }
}
