# AI text optimizer: the text pipeline

This project models the text pipeline of a chat add-on. The add-on finds the sentences of an AI character's last
message that contain words the user has banned, and sends them to a model as a numbered block. It then splices the
model's rewrites back into the message. The model covers the pure and loop-based logic of
`src/ai_optimizer/core.ts` and proves its properties:

- **Strings**: JavaScript's `trim` (the exact `\s` character set), `split` on one character, `join`,
  `indexOf`, `lastIndexOf` and `includes`. `replace` with a string pattern replaces the first occurrence only,
  and the `$` forms of the replacement string are expanded. ASCII lower-casing stands in for the `i` flag.
- **Matcher**: the comma-separated word list, and the escaped, case-insensitive word test of
  `checkMessageForDisabledWords`.
- **Cleaner**: `cleanTextWithRegex`. The rule lines are parsed as bare patterns or `/body/flags` literals. The
  regular-expression engine is a parameter that removes a rule's matches or reports an invalid rule.
- **Segmenter**: the matches of `/[^.!?。！？]+[.!?。！？]?/g`, and the `[text]` fallback when nothing matches
  (`Segmenter.SplitSentences`).
- **Extractor**: the normalisation of a sentence (`Extractor.Normalise`) and `extractSentencesWithWords`. Its
  nested loops fill an insertion-ordered set.
- **Numbering**: the `k. sentence` block of `manualOptimize` (`Numbering.Number`), the line parser for the
  original block (`Numbering.ParseOriginal`), and an exact scanner for the lazy, look-ahead expression that
  reads the model's reply (`Numbering.ParseResponse`).
- **Prompt**: `getSystemPrompt` (`Prompt.SystemPrompt`).
- **Splice**: lines 167-193 of `replaceMessage`, as a function from the message, the original block and the
  reply to the message to write back, or `None` when nothing is written (`Splice.Reconcile`). The function is
  implemented by a method with the source's loops.
- **Optimizer**: the steps of `checkMessageForDisabledWords`, `manualOptimize` and `handleFullAutoOptimize` on
  the message text (`Optimizer.AutoOptimize` for the automatic flow). The settings snapshot, the message and
  the model's reply are inputs. The rows below name the members whose contracts state each property; the
  defining functions named here carry none of their own.

The mismatched-count fallback leaves the spacing of the deleted sentences behind. For the message
`A. B. C.`, the originals `A.` and `B.`, and a three-item reply such as `1. X. 2. Y. 3. Z.`, the code's
`replace` calls give `1. X. 2. Y. 3. Z.  C.`, with two spaces before `C.`: deleting `B.` keeps the space on
each side. `Splice.MismatchLeavesSpacing` states this for every message `a b c` and every reply whose item
count is not two and that holds neither a `$` nor an earlier `b`.

The reply parser starts an item at every digit run followed by `.` or `)`, even inside a sentence. An echoed
block of `I hate page 5.` reads back as `I hate page`, the counts still agree, and the message loses ` 5.`
(`Splice.EchoSplitsAtInnerNumber`). The model reproduces this, and its round-trip results are stated for
sentences without such a run.

When the original block holds no sentence and the counts differ, `originalSentences[0]` is `undefined`. The
code's `includes` and `replace` then look for the text `undefined`, and the model does the same
(`Splice.Anchor`).

## Model

| member | source | states |
|---|---|---|
| Strings.Trim | src/ai_optimizer/core.ts:54 | the result has no leading or trailing JavaScript white space, and a text without any is returned unchanged |
| Strings.TrimIsSlice | src/ai_optimizer/core.ts:54 | the result is the text between a leading run and a trailing run of white space; with the row above this fixes the result |
| Strings.TrimIsEmpty | src/ai_optimizer/core.ts:99 | `trim()` gives the empty string exactly when every character is white space, so `!regexFilters.trim()` means a blank configuration |
| Strings.Split | src/ai_optimizer/core.ts:103 | `split(sep)` gives at least one piece, no piece holds the separator, and joining the pieces with it gives back the text |
| Strings.SplitJoin | src/ai_optimizer/core.ts:133 | splitting a join of separator-free parts gives back the parts |
| Strings.NonEmpty | src/ai_optimizer/core.ts:54 | `filter(Boolean)` keeps exactly the non-empty strings, each taken from the input |
| Strings.SplitTrimmed | src/ai_optimizer/core.ts:103 | split, trim and filter give non-empty trimmed items without the separator, and an item is in the result exactly when it is the trim of some non-blank piece |
| Strings.IndexOf | src/ai_optimizer/core.ts:177 | `indexOf` gives the first occurrence, and gives -1 exactly when there is none |
| Strings.LastIndexOf | src/ai_optimizer/core.ts:81 | `lastIndexOf` gives an occurrence after which none starts, or -1 |
| Strings.ReplaceFirst | src/ai_optimizer/core.ts:178 | `replace` with an absent pattern leaves the text unchanged |
| Strings.ReplaceFirstAt | src/ai_optimizer/core.ts:190 | `replace` puts the substitution where the pattern first occurs and keeps the text on either side; a replacement without `$` is inserted as it is |
| Matcher.ParseWordList | src/ai_optimizer/core.ts:54 | the disabled words are non-empty, trimmed and free of commas, and a word is in the list exactly when it is the trim of a non-blank comma-separated piece |
| Matcher.EscapeIsLiteral | src/ai_optimizer/core.ts:61 | the escaped word, read as a pattern of literal characters, is the word itself |
| Matcher.WordMatchesIffContains | src/ai_optimizer/core.ts:61-62 | the escaped case-insensitive test of a word succeeds exactly when the text contains the word, ignoring case |
| Matcher.AnyWordMatches | src/ai_optimizer/core.ts:60-63 | `some` is true exactly when some word occurs in the text, ignoring case |
| Cleaner.SplitLiteral | src/ai_optimizer/core.ts:110 | the match of `^\/(.*)\/([gimsuy]*)$` gives the groups of the literal form, and a line of that form always matches with those groups |
| Cleaner.ParseRuleLine | src/ai_optimizer/core.ts:108-114 | a literal line gives its body, with its own flags or `gs` when they are empty; any other line is the pattern itself with `gs` |
| Cleaner.RuleLines | src/ai_optimizer/core.ts:103 | every rule line is non-empty, trimmed and one line |
| Cleaner.CleanText | src/ai_optimizer/core.ts:97-122 | the loop computes `Cleaned`; a blank configuration returns the text unchanged and untrimmed; otherwise the result is trimmed |
| Cleaner.ApplyLinesAppend | src/ai_optimizer/core.ts:106-120 | the rules apply in order: the first lines run, then the rest run on what they left |
| Cleaner.FailingRuleIsSkipped | src/ai_optimizer/core.ts:117-119 | a rule the engine rejects changes nothing, and the later rules run as if it were absent |
| Segmenter.MatchesAreSentences | src/ai_optimizer/core.ts:70 | every match is a non-empty run of non-terminal characters, optionally closed by one terminal mark |
| Segmenter.MatchesMaximal | src/ai_optimizer/core.ts:70 | the matches are as long as the greedy expression makes them: every match but the last ends with a terminal mark |
| Segmenter.NoMatchesIffAllTerminal | src/ai_optimizer/core.ts:70 | nothing matches exactly when every character is a terminal mark |
| Segmenter.SplitSentencesShape | src/ai_optimizer/core.ts:70 | with no match the segments are `[text]`; otherwise they are the matches, each a sentence |
| Segmenter.MatchesRebuildText | src/ai_optimizer/core.ts:70 | the matches, concatenated, are the text without the marks that follow another mark or open the text |
| Extractor.LineBreaksGone | src/ai_optimizer/core.ts:78 | after `replace(/[\r\n]/g, ' ')` no line break is left |
| Extractor.RemoveAsterisks | src/ai_optimizer/core.ts:79 | every `*` is deleted: none is left, every other character keeps its count, and a text without `*` is returned unchanged |
| Extractor.RemoveAsterisksConcat | src/ai_optimizer/core.ts:79 | removing `*` from a concatenation removes it from each part; with the counts of the row above this fixes the result, so every other character is kept in order |
| Extractor.AsterisksGone | src/ai_optimizer/core.ts:79 | after removing `*` the text has no `*` and still no line break |
| Extractor.StripWrapsBare | src/ai_optimizer/core.ts:80 | stripping wraps leaves a text that neither starts with an opening wrap nor ends with a closing one |
| Extractor.StripWrapsSlice | src/ai_optimizer/core.ts:80 | the result is the text between a leading run of opening wraps and a trailing run of closing wraps, and a bare text is kept as it is |
| Extractor.UnwrappedShape | src/ai_optimizer/core.ts:78-80 | the sentence after lines 78-80 has no line break and no `*` and is bare |
| Extractor.UnwrappedKeepsBare | src/ai_optimizer/core.ts:78-80 | a sentence without line breaks or `*` that is already bare comes through lines 78-80 unchanged |
| Extractor.NormaliseShape | src/ai_optimizer/core.ts:78-85 | a normalised sentence has no `*`, `\r` or `\n`, does not start with white space or `"'“‘`, and does not end with white space or `"'”’` |
| Extractor.NormaliseKeepsTextAfterEllipsis | src/ai_optimizer/core.ts:81-85 | when the last `……` is followed by more text, only that text survives, without leading wraps, and it holds no `……` |
| Extractor.NormaliseWithoutCut | src/ai_optimizer/core.ts:81-84 | without such a `……` the sentence is kept as lines 78-80 left it |
| Extractor.NormaliseFixed | src/ai_optimizer/core.ts:78-85 | a plain, bare sentence with no `……` followed by more text is its own normalised form |
| Extractor.NormaliseIdempotent | src/ai_optimizer/core.ts:78-85 | normalising a normalised sentence changes nothing |
| Extractor.Harvest | src/ai_optimizer/core.ts:76-87 | the inner loop adds exactly the normalised sentences that match |
| Extractor.Dedup | src/ai_optimizer/core.ts:71 | the insertion-ordered set holds each element once, holds exactly the elements added, and orders them by first addition |
| Extractor.FirstPosUnique | src/ai_optimizer/core.ts:86 | an element's first addition is where it first appears |
| Extractor.DedupSnoc | src/ai_optimizer/core.ts:86 | `add` appends an unseen element and ignores a seen one |
| Extractor.AddHits | src/ai_optimizer/core.ts:76-88 | the inner `forEach` leaves the set of everything seen so far plus this word's hits |
| Extractor.ExtractSentences | src/ai_optimizer/core.ts:69-92 | the nested loops return `Extracted`: the set of the word-major candidate sequence, in first-seen order |
| Extractor.ExtractedMembers | src/ai_optimizer/core.ts:69-92 | an entry is returned exactly when it is the normalisation of a segment that contains some word, ignoring case |
| Extractor.ExtractedAreClean | src/ai_optimizer/core.ts:86-91 | the returned entries are distinct and each has the normalised shape |
| Numbering.Decimal | src/ai_optimizer/core.ts:230 | `String(index + 1)` is a non-empty run of decimal digits without a leading zero |
| Numbering.DecimalRoundTrip | src/ai_optimizer/core.ts:230 | the decimal numeral of `index + 1` reads back as that number |
| Numbering.LinesAt | src/ai_optimizer/core.ts:230 | line `i` of the block is `${k + i}. ${xs[i]}` |
| Numbering.StripMarkerOf | src/ai_optimizer/core.ts:167 | a line made of digits, `.` or `)`, white space and a rest that does not start with white space loses exactly the part before the rest |
| Numbering.StripMarkerUnmarked | src/ai_optimizer/core.ts:167 | a line whose leading digits, if any, are not followed by `.` or `)` is kept as it is |
| Numbering.ParsedItems | src/ai_optimizer/core.ts:167-170 | both parsers give non-empty trimmed items |
| Numbering.StrippedLines | src/ai_optimizer/core.ts:167 | stripping the markers of numbered trimmed lines gives back the texts |
| Numbering.ParseOriginalOfNumber | src/ai_optimizer/core.ts:167 | the line parser reads a numbered block of trimmed one-line sentences back as its non-empty sentences, in order |
| Numbering.MatchItem | src/ai_optimizer/core.ts:168 | the lazy match at an item ends exactly where the item's text ends, before the next item's marker |
| Numbering.ScanNumbered | src/ai_optimizer/core.ts:168-169 | the global match of the reply parser over a numbered block of readable sentences, stripped, gives back the sentences |
| Numbering.ParseResponseOfNumber | src/ai_optimizer/core.ts:168-170 | the reply parser reads the numbered block of readable sentences back as its non-empty sentences, in order |
| Numbering.ItemBeforeMarker | src/ai_optimizer/core.ts:168 | when a digit run with `.` or `)` follows an item's text on the same line, after white space, the item's match ends before it |
| Numbering.InnerNumberStartsItem | src/ai_optimizer/core.ts:168-170 | the echoed block of `I hate page 5.` reads back as the one item `I hate page` |
| Prompt.NonEmptyConcat | src/ai_optimizer/core.ts:133 | `filter(Boolean)` distributes over concatenation |
| Prompt.NonEmptyFragments | src/ai_optimizer/core.ts:128-133 | the line naming the disabled words is always kept, between the non-empty main and system prompts and the non-empty final prompt |
| Prompt.FourLines | src/ai_optimizer/core.ts:124-134 | with no disabled word and three non-empty one-line prompts, the prompt is those prompts in order with `必须避免使用这些词：[]` as the third line |
| Prompt.DefaultSystemPrompt | src/ai_optimizer/core.ts:124-134 | the default settings give the four-line prompt of the default main, system and final prompts |
| Settings.DefaultPromptsOneLine | src/ai_optimizer/settings.ts:32-36 | the default prompts are non-empty and hold no line break |
| Settings.DefaultFiltersNotBlank | src/ai_optimizer/settings.ts:11-18 | the default cleaning rules are not blank, so the cleaner runs with them |
| Prompt.SystemPromptLines | src/ai_optimizer/core.ts:124-134 | when no fragment holds a line break, the prompt's lines are exactly the non-empty main and system prompts, the line naming the words, and the non-empty final prompt |
| Splice.ReplaceInTurn | src/ai_optimizer/core.ts:187-192 | the `forEach` computes `ReplaceEach`: each original in turn is replaced by its rewrite on the current text, and an empty rewrite is skipped |
| Splice.DeleteInTurn | src/ai_optimizer/core.ts:179-181 | the loop computes `DeleteEach`: the first occurrence of each other original is removed in turn |
| Splice.ReplaceMessage | src/ai_optimizer/core.ts:167-193 | the method computes `Reconcile`, which is `None` on the early return |
| Splice.NothingWrittenIff | src/ai_optimizer/core.ts:174-185 | nothing is written exactly when the counts differ and the first original is not in the message |
| Splice.ReplaceAt | src/ai_optimizer/core.ts:190 | a `$`-free replacement of a pattern that occurs nowhere earlier changes that place only |
| Splice.ReplaceEachInLayout | src/ai_optimizer/core.ts:186-192 | when each original first occurs at its own place in the message as rewritten so far, every original is replaced by its rewrite and the text between them is kept |
| Splice.MatchedSplice | src/ai_optimizer/core.ts:167-193 | with equal counts, a message laid out around the originals comes back with each replaced by its rewrite and nothing else changed |
| Splice.DeleteEachInLayout | src/ai_optimizer/core.ts:179-181 | deleting originals that each first occur at their own place leaves only the text between them |
| Splice.MismatchSplice | src/ai_optimizer/core.ts:174-181 | with different counts, the first original's first occurrence takes the whole reply and the deletions run on the result |
| Splice.EchoSplitsAtInnerNumber | src/ai_optimizer/core.ts:167-193 | echoing the block of `I hate page 5.` turns the message `I hate page 5.` into `I hate page` |
| Splice.MismatchLeavesSpacing | src/ai_optimizer/core.ts:174-181 | with a reply whose item count differs from the two originals `a` and `b`, the message `a b c` becomes the reply, two spaces and `c`: the deleted `b` leaves the spaces on both of its sides |
| Splice.ReplaceEachBySelf | src/ai_optimizer/core.ts:187-192 | replacing each `$`-free original by itself leaves the message unchanged |
| Splice.UnchangedReplyKeepsMessage | src/ai_optimizer/core.ts:167-193 | a reply equal to the numbered block of readable sentences leaves the message as it was |
| Optimizer.CheckMessageForDisabledWords | src/ai_optimizer/core.ts:51-64 | the result is true exactly when some parsed word occurs in the cleaned message, ignoring case, so an empty list gives false |
| Optimizer.ManualOptimize | src/ai_optimizer/core.ts:204-236 | the callback receives the numbered block of the extracted sentences, or the empty string when there is no word or no sentence |
| Optimizer.NumberedBlockReadsBack | src/ai_optimizer/core.ts:226-230 | the block is empty exactly when no sentence was extracted, and the line-167 parser reads it back as the extracted sentences, in order |
| Optimizer.RepeatedBlockKeepsMessage | src/ai_optimizer/core.ts:241-268 | when the extracted sentences are readable and `$`-free and the model returns the block it was sent, the automatic flow writes back the message unchanged, or nothing when there was no block |

## Left out

- Host calls (`getSettings`, `getLastMessageId`, `getChatMessages`, `setChatMessages`, `generate`), toasts, event subscription, `initialize`, `optimizeText`, `testApiConnection`, `fetchModelsFromApi` and `getLastCharMessage` are I/O. The message text, the settings snapshot and the model's reply are parameters, and what would be written is a result.
- The `messageId !== lastMessageId` guard and the `autoOptimize` switch of `onGenerationEnded` are bare checks around host calls and are not modelled.
- The Promise plumbing and the `catch` in `handleFullAutoOptimize` are not modelled. `Optimizer.AutoOptimize` takes the reply as a parameter and gives `None` where the flow stops.
- The settings schema, its persistence and the UI store are configuration glue. `Settings.Defaults` records the default values as data.
- Full regular-expression semantics for user cleaning rules are not modelled. The engine is a parameter (`Cleaner.Engine`), so the cleaner's proofs hold for every engine.
- Case folding covers ASCII letters only, not Unicode case folding.
- Strings are sequences of characters, not of UTF-16 code units. This matters only for characters outside the Basic Multilingual Plane.
- Strings.ReplaceFirst: its own contract covers only the absent pattern. The present case is stated by `Strings.ReplaceFirstAt`.
- Splice.ReplaceAt, Splice.ReplaceEachInLayout, Splice.MatchedSplice, Splice.MismatchSplice, Splice.ReplaceEachBySelf, Splice.UnchangedReplyKeepsMessage: each assumes replacements without `$`. The `$` expansion itself is modelled (`Strings.Substitution`), but no property is proved about replies that use it.
- Optimizer.RepeatedBlockKeepsMessage: holds only when the extracted sentences are readable and `$`-free. Without that, the code does not keep the message. `Splice.EchoSplitsAtInnerNumber` shows a sentence that loses its end.
- Numbering.ScanNumbered, Numbering.ParseResponseOfNumber: each holds for sentences with no line break, no digit followed by `.` or `)`, and no leading or trailing white space. Other sentences can be cut or merged by the reply parser, and the model's scanner reproduces that but proves nothing about it.
