/**
 * Editor rules: how the buffer is divided into words (used to place the
 * cursor relative to words) and whether a newline should submit the line.
 */
module EditorRules {
  import opened Common

  /** A word as a half-open range `[start, end)` of grapheme positions. */
  type Span = (nat, nat)

  /** Whether the unit at `j` comes straight after a backslash. */
  predicate AfterBackslash(text: Text, j: nat)
  {
    0 < j <= |text| && text[j - 1] == '\\'
  }

  /** A space that ends a word: one not escaped by a backslash just before it. */
  predicate SeparatingSpace(text: Text, j: nat)
  {
    j < |text| && text[j] == ' ' && !AfterBackslash(text, j)
  }

  /**
   * The words found from position `i` on, when `open` holds the start of a
   * word still open at `i`.  This is the loop of `divide_words_by_space`
   * read as a recursion: a backslash is skipped and escapes the unit after
   * it, an unescaped space closes the open word, any other unit opens one.
   */
  function WordsFrom(text: Text, i: nat, open: Option<nat>): seq<Span>
    requires i <= |text|
    decreases |text| - i
  {
    if i == |text| then
      (if open.Some? then [(open.value, |text|)] else [])
    else if text[i] == '\\' then
      WordsFrom(text, i + 1, open)
    else if open.Some? then
      if text[i] == ' ' && !AfterBackslash(text, i) then
        [(open.value, i)] + WordsFrom(text, i + 1, None)
      else
        WordsFrom(text, i + 1, open)
    else if text[i] != ' ' then
      WordsFrom(text, i + 1, Some(i))
    else
      WordsFrom(text, i + 1, None)
  }

  /** The words of the whole buffer. */
  function Words(text: Text): seq<Span>
  {
    WordsFrom(text, 0, None)
  }

  /** `divide_words_by_space`: the loop with `word_start` and `just_had_backslash`. */
  method DivideWordsBySpace(text: Text) returns (res: seq<Span>)
    ensures res == Words(text)
  {
    res := [];
    var wordStart: Option<nat> := None;
    var justHadBackslash := false;
    for i := 0 to |text|
      invariant justHadBackslash == AfterBackslash(text, i)
      invariant wordStart.Some? ==> wordStart.value < i
      invariant res + WordsFrom(text, i, wordStart) == Words(text)
    {
      var c := text[i];
      if c == '\\' {
        justHadBackslash := true;
        continue;
      }
      if wordStart.Some? {
        if c == ' ' && !justHadBackslash {
          res := res + [(wordStart.value, i)];
          wordStart := None;
        }
      } else if c != ' ' {
        wordStart := Some(i);
      }
      justHadBackslash := false;
    }
    if wordStart.Some? {
      res := res + [(wordStart.value, |text|)];
    }
  }

  /** One word: non-empty, opened by a unit that is neither a space nor a backslash, ended by an unescaped space or the end of the text, with no unescaped space inside. */
  predicate IsWord(text: Text, sp: Span)
  {
    sp.0 < sp.1 <= |text| &&
    text[sp.0] != ' ' && text[sp.0] != '\\' &&
    (sp.1 == |text| || SeparatingSpace(text, sp.1)) &&
    forall j | sp.0 < j < sp.1 :: !SeparatingSpace(text, j)
  }

  /** Spans are strictly increasing and separated by at least one unit. */
  predicate Ordered(spans: seq<Span>)
  {
    forall k | 0 <= k < |spans| - 1 :: spans[k].1 < spans[k + 1].0
  }

  /** The facts `WordsFrom` keeps about an open word. */
  predicate OpenWord(text: Text, i: nat, open: Option<nat>)
  {
    open.Some? ==>
      open.value < i <= |text| &&
      text[open.value] != ' ' && text[open.value] != '\\' &&
      forall j | open.value < j < i :: !SeparatingSpace(text, j)
  }

  /** What `WordsFrom` promises about the spans it returns. */
  predicate WellFormedFrom(text: Text, i: nat, open: Option<nat>, spans: seq<Span>)
  {
    var lo := if open.Some? then open.value else i;
    Ordered(spans) &&
    (forall k | 0 <= k < |spans| :: IsWord(text, spans[k]) && lo <= spans[k].0) &&
    (open.Some? ==> spans != [] && spans[0].0 == open.value && spans[0].1 >= i)
  }

  lemma {:induction false} WordsFromAreWords(text: Text, i: nat, open: Option<nat>)
    requires i <= |text|
    requires OpenWord(text, i, open)
    ensures WellFormedFrom(text, i, open, WordsFrom(text, i, open))
    decreases |text| - i
  {
    if i == |text| {
    } else if text[i] == '\\' {
      WordsFromAreWords(text, i + 1, open);
    } else if open.Some? {
      if text[i] == ' ' && !AfterBackslash(text, i) {
        WordsFromAreWords(text, i + 1, None);
        ClosedWordFirst(text, i, open.value, WordsFrom(text, i + 1, None));
      } else {
        WordsFromAreWords(text, i + 1, open);
      }
    } else if text[i] != ' ' {
      WordsFromAreWords(text, i + 1, Some(i));
    } else {
      WordsFromAreWords(text, i + 1, None);
    }
  }

  /** A word closed by the space at `i`, ahead of the words after that space, keeps the promise from `i` on. */
  lemma ClosedWordFirst(text: Text, i: nat, start: nat, rest: seq<Span>)
    requires i < |text| && SeparatingSpace(text, i)
    requires OpenWord(text, i, Some(start))
    requires WellFormedFrom(text, i + 1, None, rest)
    ensures WellFormedFrom(text, i, Some(start), [(start, i)] + rest)
  {
    assert IsWord(text, (start, i));
  }

  /** Every unit from the open word on that is neither a space nor a backslash lies inside a returned word. */
  lemma {:induction false} WordsFromCover(text: Text, i: nat, open: Option<nat>, j: nat)
    requires i <= |text|
    requires OpenWord(text, i, open)
    requires (if open.Some? then open.value else i) <= j < |text|
    requires text[j] != ' ' && text[j] != '\\'
    ensures exists k | 0 <= k < |WordsFrom(text, i, open)| ::
      WordsFrom(text, i, open)[k].0 <= j < WordsFrom(text, i, open)[k].1
    decreases |text| - i
  {
    var spans := WordsFrom(text, i, open);
    WordsFromAreWords(text, i, open);
    if open.Some? && j < i {
      assert spans[0].0 <= j < spans[0].1;
    } else if i == |text| {
    } else if text[i] == '\\' {
      WordsFromCover(text, i + 1, open, j);
    } else if open.Some? {
      if text[i] == ' ' && !AfterBackslash(text, i) {
        var rest := WordsFrom(text, i + 1, None);
        WordsFromCover(text, i + 1, None, j);
        assert spans == [(open.value, i)] + rest;
        var k :| 0 <= k < |rest| && rest[k].0 <= j < rest[k].1;
        assert spans[k + 1] == rest[k];
      } else {
        WordsFromCover(text, i + 1, open, j);
      }
    } else if text[i] != ' ' {
      WordsFromCover(text, i + 1, Some(i), j);
    } else {
      WordsFromCover(text, i + 1, None, j);
    }
  }

  /**
   * The words of a buffer are well formed, in order, and cover every unit
   * that is neither a space nor a backslash.
   */
  lemma WordsAreWords(text: Text)
    ensures Ordered(Words(text))
    ensures forall k | 0 <= k < |Words(text)| :: IsWord(text, Words(text)[k])
    ensures forall j | 0 <= j < |text| && text[j] != ' ' && text[j] != '\\' ::
      exists k | 0 <= k < |Words(text)| :: Words(text)[k].0 <= j < Words(text)[k].1
  {
    WordsFromAreWords(text, 0, None);
    forall j | 0 <= j < |text| && text[j] != ' ' && text[j] != '\\'
      ensures exists k | 0 <= k < |Words(text)| :: Words(text)[k].0 <= j < Words(text)[k].1
    {
      WordsFromCover(text, 0, None, j);
      assert Words(text) == WordsFrom(text, 0, None);
    }
  }

  /** An empty buffer, or one made only of spaces, has no words. */
  lemma BlankHasNoWords(text: Text)
    requires forall j | 0 <= j < |text| :: text[j] == ' '
    ensures Words(text) == []
  {
    WordsAreWords(text);
    assert Words(text) != [] ==> IsWord(text, Words(text)[0]);
  }

  /** A backslash never opens a word and an escaped space never ends one. */
  lemma BackslashRules(text: Text, k: nat)
    requires k < |Words(text)|
    ensures Words(text)[k].0 < |text| && text[Words(text)[k].0] != '\\'
    ensures Words(text)[k].1 < |text| ==> !AfterBackslash(text, Words(text)[k].1)
  {
    WordsAreWords(text);
  }

  /** There is a backslash followed only by spaces up to the end. */
  predicate EndsWithEscape(text: Text)
  {
    exists k | 0 <= k < |text| :: text[k] == '\\' && forall j | k < j < |text| :: text[j] == ' '
  }

  /** `last_non_ws_char_was_not_backslash`: scan back over spaces and look at the first other unit. */
  method LastNonWsCharWasNotBackslash(text: Text) returns (r: bool)
    ensures r <==> !EndsWithEscape(text)
  {
    var foundBackslash := false;
    var i := |text|;
    while i > 0
      invariant 0 <= i <= |text|
      invariant forall j | i <= j < |text| :: text[j] == ' '
    {
      var x := text[i - 1];
      if x == ' ' {
        i := i - 1;
        continue;
      } else if x == '\\' {
        foundBackslash := true;
        break;
      } else {
        break;
      }
    }
    r := !foundBackslash;
  }

  // Rule delegation.  A rule is either the library default or a function
  // supplied by the client.

  datatype WordDivideRule = DefaultWordDivideRule | CustomWordDivideRule(divide: Text -> seq<Span>)

  datatype NewlineRule = DefaultNewlineRule | CustomNewlineRule(evaluate: Text -> bool)

  datatype DefaultEditorRules = DefaultEditorRules(wordDividerRule: WordDivideRule, newlineRule: NewlineRule)

  /** `DefaultEditorRules::new`: both components are the defaults. */
  function NewRules(): (r: DefaultEditorRules)
    ensures r.wordDividerRule.DefaultWordDivideRule? && r.newlineRule.DefaultNewlineRule?
  {
    DefaultEditorRules(DefaultWordDivideRule, DefaultNewlineRule)
  }

  /** `DefaultEditorRules::divide_words` forwards to its word rule. */
  function DivideWords(rules: DefaultEditorRules, text: Text): (r: seq<Span>)
    ensures rules.wordDividerRule.DefaultWordDivideRule? ==> r == Words(text)
    ensures rules.wordDividerRule.CustomWordDivideRule? ==> r == rules.wordDividerRule.divide(text)
  {
    match rules.wordDividerRule
    case DefaultWordDivideRule => Words(text)
    case CustomWordDivideRule(f) => f(text)
  }

  /** `DefaultEditorRules::evaluate_on_newline` forwards to its newline rule. */
  function EvaluateOnNewline(rules: DefaultEditorRules, text: Text): (r: bool)
    ensures rules.newlineRule.DefaultNewlineRule? ==> (r <==> !EndsWithEscape(text))
    ensures rules.newlineRule.CustomNewlineRule? ==> r == rules.newlineRule.evaluate(text)
  {
    match rules.newlineRule
    case DefaultNewlineRule => !EndsWithEscape(text)
    case CustomNewlineRule(f) => f(text)
  }
}
