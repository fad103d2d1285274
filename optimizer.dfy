/**
 * The add-on's operations on the text of the last message, with the host
 * calls taken out: the settings snapshot, the message text and the model's
 * reply are parameters, and what would be written back is the result.
 */
module Optimizer {
  import opened Wrappers
  import opened Strings
  import opened Settings
  import opened Matcher
  import opened Cleaner
  import opened Extractor
  import opened Numbering
  import opened Splice

  /** Lines 51-64: whether the cleaned message contains a disabled word,
      ignoring case; never with an empty word list. */
  method CheckMessageForDisabledWords(engine: Engine, settings: Settings, message: string)
    returns (found: bool)
    ensures var words := ParseWordList(settings.disabledWords);
      found <==> exists i :: 0 <= i < |words| && ContainsIgnoringCase(Cleaned(engine, settings.regexFilters, message), words[i])
  {
    var cleaned := CleanText(engine, settings.regexFilters, message);
    var words := ParseWordList(settings.disabledWords);
    if |words| == 0 {
      return false;
    }
    found := AnyWordMatches(cleaned, words);
  }

  /** Lines 217-235: the numbered block `manualOptimize` hands to its
      callback, or the empty string when there is no word or no sentence. */
  function NumberedBlock(engine: Engine, settings: Settings, message: string): string {
    var words := ParseWordList(settings.disabledWords);
    if words == [] then ""
    else
      var sentences := Extracted(Cleaned(engine, settings.regexFilters, message), words);
      if sentences == [] then "" else Number(sentences)
  }

  /** Lines 204-236 of `manualOptimize`, on the text of the last message. */
  method ManualOptimize(engine: Engine, settings: Settings, message: string) returns (content: string)
    ensures content == NumberedBlock(engine, settings, message)
  {
    var cleaned := CleanText(engine, settings.regexFilters, message);
    var words := ParseWordList(settings.disabledWords);
    if |words| == 0 {
      return "";
    }
    var sentences := ExtractSentences(cleaned, words);
    if |sentences| > 0 {
      content := Number(sentences);
    } else {
      content := "";
    }
  }

  /** The sentences the block of `manualOptimize` lists. */
  function BlockSentences(engine: Engine, settings: Settings, message: string): seq<string> {
    Extracted(Cleaned(engine, settings.regexFilters, message), ParseWordList(settings.disabledWords))
  }

  /** The block is empty exactly when no sentence was extracted, and the
      parser of line 167 reads it back as the non-empty extracted sentences,
      in order. */
  lemma NumberedBlockReadsBack(engine: Engine, settings: Settings, message: string)
    ensures NumberedBlock(engine, settings, message) == [] <==> BlockSentences(engine, settings, message) == []
    ensures ParseOriginal(NumberedBlock(engine, settings, message)) == NonEmpty(BlockSentences(engine, settings, message))
  {
    var xs := BlockSentences(engine, settings, message);
    var block := NumberedBlock(engine, settings, message);
    if xs == [] {
      assert block == [];
      assert Split([], '\n') == [[]];
      assert Stripped([[]]) == [[]];
    } else {
      var text := Cleaned(engine, settings.regexFilters, message);
      var words := ParseWordList(settings.disabledWords);
      assert words != [];
      ExtractedAreClean(text, words);
      CleanSentencesFitOnALine(xs);
      ParseOriginalOfNumber(xs);
      NumberOfSome(xs);
    }
  }

  /** Clean sentences are trimmed and hold no line break. */
  lemma CleanSentencesFitOnALine(xs: seq<string>)
    requires forall x :: x in xs ==> All(x, Plain) && Bare(x)
    ensures forall i :: 0 <= i < |xs| ==> IsTrimmed(xs[i]) && '\n' !in xs[i]
  {
    forall i | 0 <= i < |xs| ensures IsTrimmed(xs[i]) && '\n' !in xs[i] {
      var x := xs[i];
      assert x in xs;
      BareIsTrimmed(x);
      assert forall k :: 0 <= k < |x| ==> InClass(x[k], Plain);
    }
  }

  /** A block of at least one item is not empty. */
  lemma NumberOfSome(xs: seq<string>)
    requires xs != []
    ensures Number(xs) != []
  {
    var lines := Lines(xs, 1);
    LinesAt(xs, 1);
    JoinHead(lines, "\n");
    assert |Item(1, xs[0])| > 0;
  }

  /** Lines 241-268, with the model's reply as a parameter: the message to
      write back, or `None` when there is nothing to rewrite, the reply is
      empty or the splice gives up. */
  function AutoOptimize(engine: Engine, settings: Settings, message: string, reply: string): Option<string> {
    var block := NumberedBlock(engine, settings, message);
    if block == [] || reply == [] then None
    else Reconcile(message, block, reply)
  }

  /** A model that returns the block it was sent unchanged leaves the
      message as it was, provided the sentences read back one item each. */
  lemma RepeatedBlockKeepsMessage(engine: Engine, settings: Settings, message: string)
    requires var xs := BlockSentences(engine, settings, message);
      forall i :: 0 <= i < |xs| ==> Readable(xs[i]) && '$' !in xs[i]
    ensures var block := NumberedBlock(engine, settings, message);
      AutoOptimize(engine, settings, message, block) == if block == [] then None else Some(message)
  {
    var xs := BlockSentences(engine, settings, message);
    if ParseWordList(settings.disabledWords) != [] && xs != [] {
      UnchangedReplyKeepsMessage(message, xs);
    }
  }
}
