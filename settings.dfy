/**
 * The snapshot of the add-on's settings that the text pipeline reads. The
 * settings store that fills in defaults and persists the record is not part
 * of this model: every operation takes the snapshot as a plain value.
 */
module Settings {
  import opened Strings

  datatype PromptSettings = PromptSettings(main: string, system: string, finalSystem: string)

  datatype Settings = Settings(
    autoOptimize: bool,
    disabledWords: string,     // comma-separated disabled words
    regexFilters: string,      // one cleaning rule per line
    disableNotifications: bool,
    prompts: PromptSettings)

  /** The default cleaning rules, one per line: a self-closing placeholder
      tag, HTML comments, a chain of wrapper and reasoning tags, and a
      `/.../gm` literal for variable-update blocks. */
  const DefaultRegexLines: seq<string> := [
    "<StatusPlaceHolderImpl\\/>",
    "\\s*<!--[\\s\\S]*?-->\\s*",
    "(<disclaimer>.*?<\\/disclaimer>)|(<guifan>.*?<\\/guifan>)|```start|<content>|<\\/content>|```end|<done>|`<done>`|(<!--\\s*consider\\s*:\\s*(.*?)\\s*-->)|(.*?<\\/think(ing)?>(\\n)?)|(<think(ing)?>[\\s\\S]*?<\\/think(ing)?>(\\n)?)",
    "/<UpdateVariable>[\\s\\S]*?<\\/UpdateVariable>/gm"
  ]

  const DefaultPrompts := PromptSettings(
    "你是一个专业的剧情优化助手。",
    "请根据用户的要求，优化提供的句子，使其更生动、更具描述性。",
    "只返回优化后的句子，不要包含任何额外的解释或标签。")

  const Defaults := Settings(
    autoOptimize := false,
    disabledWords := "",
    regexFilters := Join(DefaultRegexLines, "\n"),
    disableNotifications := false,
    prompts := DefaultPrompts)

  /** No default prompt is empty or holds a line break. */
  lemma DefaultPromptsOneLine()
    ensures DefaultPrompts.main != [] && '\n' !in DefaultPrompts.main
    ensures DefaultPrompts.system != [] && '\n' !in DefaultPrompts.system
    ensures DefaultPrompts.finalSystem != [] && '\n' !in DefaultPrompts.finalSystem
  {
    MainOneLine();
    SystemOneLine();
    FinalOneLine();
  }

  lemma MainOneLine()
    ensures '\n' !in DefaultPrompts.main
  {
  }

  lemma SystemOneLine()
    ensures '\n' !in DefaultPrompts.system
  {
  }

  lemma FinalOneLine()
    ensures '\n' !in DefaultPrompts.finalSystem
  {
  }

  /** The default cleaning rules are not blank, so the cleaner runs with
      them: the configuration starts with the `<` of the first rule. */
  lemma DefaultFiltersNotBlank()
    ensures Trim(Defaults.regexFilters) != []
  {
    var f := Defaults.regexFilters;
    var lines := DefaultRegexLines;
    assert f == lines[0] + "\n" + Join(lines[1..], "\n");
    assert f[0] == '<';
    TrimIsEmpty(f);
  }
}
