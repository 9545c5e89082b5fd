/**
 * The word divider the editing context installs by default.  Its loop is
 * the same as `divide_words_by_space`, over the buffer's characters.
 */
module Context {
  import opened Common
  import EditorRules

  /** `get_buffer_words`: the default word divider. */
  method GetBufferWords(text: Text) returns (res: seq<EditorRules.Span>)
    ensures res == EditorRules.Words(text)
  {
    res := [];
    var wordStart: Option<nat> := None;
    var justHadBackslash := false;
    for i := 0 to |text|
      invariant justHadBackslash == EditorRules.AfterBackslash(text, i)
      invariant wordStart.Some? ==> wordStart.value < i
      invariant res + EditorRules.WordsFrom(text, i, wordStart) == EditorRules.Words(text)
    {
      var c := text[i];
      if c == '\\' {
        justHadBackslash := true;
        continue;
      }
      if wordStart.Some? {
        if c == ' ' && !justHadBackslash {
          res := res + [(wordStart.value, i)];
          wordStart := None;
        }
      } else if c != ' ' {
        wordStart := Some(i);
      }
      justHadBackslash := false;
    }
    if wordStart.Some? {
      res := res + [(wordStart.value, |text|)];
    }
  }

  /** "abc  abc" divides into the words [0, 3) and [5, 8). */
  lemma TwoWords()
    ensures EditorRules.Words("abc  abc") == [(0, 3), (5, 8)]
  {
    var t := "abc  abc";
    assert EditorRules.WordsFrom(t, 8, Some(5)) == [(5, 8)];
    assert EditorRules.WordsFrom(t, 5, None) == [(5, 8)];
    assert EditorRules.WordsFrom(t, 3, Some(0)) == [(0, 3), (5, 8)];
  }

  /** An empty buffer has no words. */
  lemma EmptyHasNoWords()
    ensures EditorRules.Words("") == []
  {
  }
}
