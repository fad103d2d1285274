/**
 * The disabled-word matcher: the comma-separated word list is parsed into
 * words, each word is escaped into a regular expression that matches it
 * literally, and a text matches when some word's expression, made
 * case-insensitive, finds the word in it.
 */
module Matcher {
  import opened Wrappers
  import opened Strings

  /** `(disabledWords || '').split(',').map(w => w.trim()).filter(Boolean)`. */
  function ParseWordList(raw: string): (words: seq<string>)
    ensures forall i :: 0 <= i < |words| ==> words[i] != [] && IsTrimmed(words[i]) && ',' !in words[i]
    ensures forall w :: w in words <==> w != [] && exists piece :: piece in Split(raw, ',') && w == Trim(piece)
  {
    SplitTrimmed(raw, ',')
  }

  /** The characters the escaping expression `/[-/\\^$*+?.()|[\]{}]/g` prefixes with a backslash. */
  predicate IsMeta(c: char) {
    || c == '-' || c == '/' || c == '\\' || c == '^' || c == '$' || c == '*' || c == '+'
    || c == '?' || c == '.' || c == '(' || c == ')' || c == '|' || c == '[' || c == ']' || c == '{' || c == '}'
  }

  /** `word.replace(/[-/\\^$*+?.()|[\]{}]/g, '\\$&')`. */
  function Escape(word: string): (pattern: string)
    ensures |pattern| >= |word|
  {
    if word == [] then []
    else (if IsMeta(word[0]) then ['\\', word[0]] else [word[0]]) + Escape(word[1..])
  }

  /** The text a regular expression matches when it is built only from
      ordinary characters and backslash-escaped metacharacters (each of which
      stands for itself); `None` for a pattern with any other construct. */
  function LiteralText(pattern: string): (text: Option<string>)
    ensures text.Some? ==> |text.value| <= |pattern|
  {
    if pattern == [] then Some([])
    else if pattern[0] == '\\' && |pattern| >= 2 && IsMeta(pattern[1]) then
      match LiteralText(pattern[2..])
      case Some(rest) => Some([pattern[1]] + rest)
      case None => None
    else if IsMeta(pattern[0]) then None
    else
      match LiteralText(pattern[1..])
      case Some(rest) => Some([pattern[0]] + rest)
      case None => None
  }

  /** The escaped pattern has no regular-expression construct left: it
      matches exactly the word it was built from. */
  lemma {:induction false} EscapeIsLiteral(word: string)
    ensures LiteralText(Escape(word)) == Some(word)
  {
    if word != [] {
      EscapeIsLiteral(word[1..]);
      var head := if IsMeta(word[0]) then ['\\', word[0]] else [word[0]];
      var pattern := head + Escape(word[1..]);
      if IsMeta(word[0]) {
        assert pattern[2..] == Escape(word[1..]);
      } else {
        assert pattern[1..] == Escape(word[1..]);
      }
      assert word == [word[0]] + word[1..];
    }
  }

  /** `new RegExp(Escape(word), 'i').test(text)`. */
  predicate WordMatches(text: string, word: string) {
    match LiteralText(Escape(word))
    case Some(literal) => ContainsIgnoringCase(text, literal)
    case None => false
  }

  /** A word matches exactly when it occurs in the text, ignoring case. */
  lemma WordMatchesIffContains(text: string, word: string)
    ensures WordMatches(text, word) <==> ContainsIgnoringCase(text, word)
  {
    EscapeIsLiteral(word);
  }

  /** `words.some(word => WordMatches(text, word))`. */
  function AnyWordMatches(text: string, words: seq<string>): (found: bool)
    ensures found <==> exists i :: 0 <= i < |words| && ContainsIgnoringCase(text, words[i])
  {
    if words == [] then false
    else
      WordMatchesIffContains(text, words[0]);
      WordMatches(text, words[0]) || AnyWordMatches(text, words[1..])
  }
}
