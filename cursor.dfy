/**
 * The terminal cursor over a buffer: a position between grapheme units,
 * clamped moves, inserts and deletes relative to it, yank and paste, and
 * the vi normal-mode rule that the cursor may not rest past the last unit.
 * `CursorPosition::get` places the cursor relative to the buffer's words.
 */
module Cursors {
  import opened Common
  import opened Buffers
  import EditorRules

  type Span = EditorRules.Span

  // ---------------------------------------------------------------------
  // Where the cursor is relative to the words

  datatype CursorPosition =
    | InWord(word: nat)
    | OnWordLeftEdge(word: nat)
    | OnWordRightEdge(word: nat)
    | InSpace(left: Option<nat>, right: Option<nat>)

  /** `CursorPosition::get`: the first-word checks, then the scan over the words. */
  function Position(cursor: nat, words: seq<Span>): CursorPosition
  {
    if words == [] then InSpace(None, None)
    else if cursor == words[0].0 then OnWordLeftEdge(0)
    else if cursor < words[0].0 then InSpace(None, Some(0))
    else PositionFrom(cursor, words, 0)
  }

  /** The scan from word `i` on; every word before `i` lies wholly left of the cursor. */
  function PositionFrom(cursor: nat, words: seq<Span>, i: nat): CursorPosition
    requires words != [] && cursor > words[0].0 && i <= |words|
    decreases |words| - i
  {
    if i == |words| then InSpace(Some(|words| - 1), None)
    else
      var (start, end) := words[i];
      if start == cursor then OnWordLeftEdge(i)
      else if end == cursor then OnWordRightEdge(i)
      else if start < cursor < end then InWord(i)
      else if cursor < start then InSpace(Some(i - 1), Some(i))
      else PositionFrom(cursor, words, i + 1)
  }

  /** The loop of `CursorPosition::get`, with its early returns. */
  method Get(cursor: nat, words: seq<Span>) returns (pos: CursorPosition)
    ensures pos == Position(cursor, words)
  {
    if words == [] {
      return InSpace(None, None);
    } else if cursor == words[0].0 {
      return OnWordLeftEdge(0);
    } else if cursor < words[0].0 {
      return InSpace(None, Some(0));
    }
    for i := 0 to |words|
      invariant PositionFrom(cursor, words, i) == Position(cursor, words)
    {
      var (start, end) := words[i];
      if start == cursor {
        return OnWordLeftEdge(i);
      } else if end == cursor {
        return OnWordRightEdge(i);
      } else if start < cursor && cursor < end {
        return InWord(i);
      } else if cursor < start {
        return InSpace(Some(i - 1), Some(i));
      }
    }
    return InSpace(Some(|words| - 1), None);
  }

  /** Words as a divider returns them: each non-empty, in order, with a gap between neighbours. */
  predicate Spaced(words: seq<Span>)
  {
    (forall k | 0 <= k < |words| :: words[k].0 < words[k].1) && EditorRules.Ordered(words)
  }

  /** The cursor is wholly right of every word before `i`. */
  predicate RightOfAll(cursor: nat, words: seq<Span>, i: nat)
    requires i <= |words|
  {
    forall j | 0 <= j < i :: words[j].1 < cursor
  }

  /** The classification the scan from `i` gives, read as a table. */
  lemma {:induction false} PositionFromTable(cursor: nat, words: seq<Span>, i: nat)
    requires Spaced(words) && words != [] && cursor > words[0].0 && i <= |words|
    requires RightOfAll(cursor, words, i)
    ensures var r := PositionFrom(cursor, words, i);
      (forall j | i <= j < |words| && words[j].0 == cursor :: r == OnWordLeftEdge(j)) &&
      (forall j | i <= j < |words| && words[j].1 == cursor :: r == OnWordRightEdge(j)) &&
      (forall j | i <= j < |words| && words[j].0 < cursor < words[j].1 :: r == InWord(j)) &&
      (r.OnWordLeftEdge? ==> r.word < |words| && words[r.word].0 == cursor) &&
      (r.OnWordRightEdge? ==> r.word < |words| && words[r.word].1 == cursor) &&
      (r.InWord? ==> r.word < |words| && words[r.word].0 < cursor < words[r.word].1) &&
      (r.InSpace? ==> (r.left.Some? && r.left.value < |words| && words[r.left.value].1 < cursor &&
         (r.right.None? ==> r.left.value == |words| - 1) &&
         (r.right.Some? ==> r.right.value == r.left.value + 1 < |words| && cursor < words[r.right.value].0)))
    decreases |words| - i
  {
    if i < |words| {
      if words[i].1 < cursor {
        PositionFromTable(cursor, words, i + 1);
      } else {
        LaterWordsRight(cursor, words, i);
      }
    }
  }

  /** A cursor no further right than the end of word `i` is left of every later word. */
  lemma LaterWordsRight(cursor: nat, words: seq<Span>, i: nat)
    requires Spaced(words) && i < |words| && cursor <= words[i].1
    ensures forall j | i < j < |words| :: cursor < words[j].0
  {
    forall j | i < j < |words| ensures cursor < words[j].0 {
      OrderedApart(words, i, j);
    }
  }

  /** In ordered, non-empty spans, a later span starts after an earlier one ends. */
  lemma {:induction false} OrderedApart(words: seq<Span>, i: nat, j: nat)
    requires Spaced(words) && i < j < |words|
    ensures words[i].1 < words[j].0
    decreases j - i
  {
    if j > i + 1 {
      OrderedApart(words, i, j - 1);
      assert words[j - 1].0 < words[j - 1].1;
    }
  }

  /**
   * On the words a divider returns, `get` is the table: on a left edge, on
   * a right edge, strictly inside a word, or in the space between the
   * nearest words on either side (none when there is none).
   */
  lemma PositionTable(cursor: nat, words: seq<Span>)
    requires Spaced(words)
    ensures var r := Position(cursor, words);
      (words == [] ==> r == InSpace(None, None)) &&
      (forall j | 0 <= j < |words| && words[j].0 == cursor :: r == OnWordLeftEdge(j)) &&
      (forall j | 0 <= j < |words| && words[j].1 == cursor :: r == OnWordRightEdge(j)) &&
      (forall j | 0 <= j < |words| && words[j].0 < cursor < words[j].1 :: r == InWord(j)) &&
      (r.OnWordLeftEdge? ==> r.word < |words| && words[r.word].0 == cursor) &&
      (r.OnWordRightEdge? ==> r.word < |words| && words[r.word].1 == cursor) &&
      (r.InWord? ==> r.word < |words| && words[r.word].0 < cursor < words[r.word].1) &&
      (r.InSpace? && r.left.None? ==> words == [] || (r.right == Some(0) && cursor < words[0].0)) &&
      (r.InSpace? && r.left.Some? ==> (r.left.value < |words| && words[r.left.value].1 < cursor &&
         (r.right.None? ==> r.left.value == |words| - 1) &&
         (r.right.Some? ==> r.right.value == r.left.value + 1 < |words| && cursor < words[r.right.value].0)))
  {
    if words != [] {
      if cursor <= words[0].0 {
        forall j | 0 < j < |words| ensures cursor < words[j].0 {
          OrderedApart(words, 0, j);
        }
      } else {
        PositionFromTable(cursor, words, 0);
      }
    }
  }

  /** The default divider's words are spaced, so `PositionTable` applies to them. */
  lemma DividedWordsAreSpaced(text: Text)
    ensures Spaced(EditorRules.Words(text))
  {
    EditorRules.WordsAreWords(text);
  }

  /** The cursor table of the editor's tests, on the default word divider. */
  lemma PositionExamples()
    ensures Position(0, EditorRules.Words("hi")) == OnWordLeftEdge(0)
    ensures Position(1, EditorRules.Words("hi")) == InWord(0)
    ensures Position(2, EditorRules.Words("hi")) == OnWordRightEdge(0)
    ensures Position(4, EditorRules.Words("abc  abc")) == InSpace(Some(0), Some(1))
    ensures Position(5, EditorRules.Words("abc  abc")) == OnWordLeftEdge(1)
    ensures Position(6, EditorRules.Words("abc  abc")) == InWord(1)
    ensures Position(8, EditorRules.Words("abc  abc")) == OnWordRightEdge(1)
    ensures Position(0, EditorRules.Words(" a")) == InSpace(None, Some(0))
    ensures Position(2, EditorRules.Words("a ")) == InSpace(Some(0), None)
    ensures Position(0, EditorRules.Words("")) == InSpace(None, None)
  {
    assert EditorRules.WordsFrom("hi", 1, Some(0)) == [(0, 2)];
    var t := "abc  abc";
    assert EditorRules.WordsFrom(t, 5, None) == [(5, 8)];
    assert EditorRules.WordsFrom(t, 3, Some(0)) == [(0, 3), (5, 8)];
    assert EditorRules.WordsFrom(" a", 1, None) == [(1, 2)];
    assert EditorRules.WordsFrom("a ", 1, Some(0)) == [(0, 1)];
  }

  // ---------------------------------------------------------------------
  // The cursor

  class Cursor {
    /** Between units: 0 is before the first unit. */
    var currGrapheme: nat
    /** Set in vi normal mode: the cursor may not rest past the last unit. */
    var noEol: bool
    /** The rules that divide the buffer into words. */
    const rules: EditorRules.DefaultEditorRules

    /** The cursor lies within the buffer. */
    predicate InRange(buf: Buffer)
      reads this, buf
    {
      currGrapheme <= |buf.data|
    }

    /** `Cursor::new_with_divider`. */
    constructor NewWithDivider(divider: EditorRules.DefaultEditorRules)
      ensures currGrapheme == 0 && !noEol && rules == divider
    {
      currGrapheme := 0;
      noEol := false;
      rules := divider;
    }

    /** `move_cursor_to`: clamped to the buffer's length. */
    method MoveCursorTo(buf: Buffer, pos: nat)
      modifies this`currGrapheme
      ensures currGrapheme == Min(pos, |buf.data|)
      ensures InRange(buf)
    {
      currGrapheme := pos;
      var bufLen := buf.NumGraphemes();
      if currGrapheme > bufLen {
        currGrapheme := bufLen;
      }
    }

    /**
     * `insert_around`: paste the register around the cursor and move right
     * by what was pasted (one less when pasting to the left, so the cursor
     * rests on the last unit pasted).
     */
    method InsertAround(buf: Buffer, right: bool, count: nat)
      modifies this`currGrapheme, buf
      ensures buf.register == old(buf.register)
      ensures old(buf.register).None? || old(buf.register).value == [] ==>
        buf.data == old(buf.data) && currGrapheme == old(currGrapheme)
      ensures old(buf.register).Some? && old(buf.register).value != [] ==>
        var at := if |old(buf.data)| > old(currGrapheme) && right then old(currGrapheme) + 1 else old(currGrapheme);
        var text := if count > 1 then Repeat(old(buf.register).value, count) else old(buf.register).value;
        buf.data == InsertRawText(old(buf.data), at, text) &&
        currGrapheme == Min(old(currGrapheme) + (if right then |text| else |text| - 1), |buf.data|)
      ensures old(buf.Consistent()) ==> buf.Consistent()
    {
      var delta := buf.InsertRegisterAroundIdx(currGrapheme, count, right);
      if delta > 0 {
        var adjustment := if right then delta else delta - 1;
        MoveCursorTo(buf, currGrapheme + adjustment);
      }
    }

    /** `get_words_and_cursor_position`. */
    method GetWordsAndCursorPosition(buf: Buffer) returns (words: seq<Span>, pos: CursorPosition)
      ensures words == EditorRules.DivideWords(rules, buf.data)
      ensures pos == Position(currGrapheme, words)
    {
      words := EditorRules.DivideWords(rules, buf.data);
      pos := Get(currGrapheme, words);
    }

    /** `reset`: back to 0 on an emptied buffer. */
    method Reset(buf: Buffer)
      modifies this`currGrapheme, buf
      ensures currGrapheme == 0 && buf.data == []
      ensures old(buf.Consistent()) ==> buf.Consistent()
    {
      currGrapheme := 0;
      buf.Truncate(0);
    }

    /** `delete_until_cursor`: remove from `start` to the cursor and move back by what went. */
    method DeleteUntilCursor(buf: Buffer, start: nat)
      requires RemoveRawOk(buf.data, start, currGrapheme)
      modifies this`currGrapheme, buf
      ensures buf.data == RemoveRawText(old(buf.data), start, old(currGrapheme))
      ensures currGrapheme == old(currGrapheme) - (|old(buf.data)| - |buf.data|)
      ensures start <= old(currGrapheme) <= |old(buf.data)| ==> currGrapheme == start
      ensures old(InRange(buf)) ==> InRange(buf)
      ensures old(buf.Consistent()) ==> buf.Consistent()
    {
      var moved := buf.Remove(start, currGrapheme);
      currGrapheme := currGrapheme - moved;
    }

    /** `insert_chars_after_cursor` (and the `char` and `str` forms): insert at the cursor and move past the insert. */
    method InsertCharsAfterCursor(buf: Buffer, cs: Text)
      modifies this`currGrapheme, buf
      ensures buf.data == InsertRawText(old(buf.data), old(currGrapheme), cs)
      ensures currGrapheme == old(currGrapheme) + |buf.data| - |old(buf.data)|
      ensures currGrapheme == old(currGrapheme) + |cs|
      ensures old(InRange(buf)) ==> InRange(buf)
      ensures old(InRange(buf)) ==> (buf.data[..old(currGrapheme)] == old(buf.data)[..old(currGrapheme)] &&
        buf.data[old(currGrapheme)..currGrapheme] == cs && buf.data[currGrapheme..] == old(buf.data)[old(currGrapheme)..])
      ensures old(buf.Consistent()) ==> buf.Consistent()
    {
      var len := buf.Insert(currGrapheme, cs);
      currGrapheme := currGrapheme + len;
    }

    /** `delete_before_cursor`: a backspace; nothing at 0. */
    method DeleteBeforeCursor(buf: Buffer)
      modifies this`currGrapheme, buf
      ensures old(currGrapheme) == 0 ==> buf.data == old(buf.data) && currGrapheme == 0
      ensures 0 < old(currGrapheme) <= |old(buf.data)| ==>
        buf.data == old(buf.data)[..old(currGrapheme) - 1] + old(buf.data)[old(currGrapheme)..] &&
        currGrapheme == old(currGrapheme) - 1
      ensures old(InRange(buf)) ==> InRange(buf)
      ensures old(buf.Consistent()) ==> buf.Consistent()
    {
      if currGrapheme > 0 {
        var _ := buf.Remove(currGrapheme - 1, currGrapheme);
        currGrapheme := currGrapheme - 1;
      }
    }

    /** `delete_after_cursor`: a delete; nothing at the end. */
    method DeleteAfterCursor(buf: Buffer)
      modifies buf
      ensures old(currGrapheme) >= |old(buf.data)| ==> buf.data == old(buf.data)
      ensures old(currGrapheme) < |old(buf.data)| ==>
        buf.data == old(buf.data)[..currGrapheme] + old(buf.data)[currGrapheme + 1..]
      ensures old(buf.Consistent()) ==> buf.Consistent()
    {
      if currGrapheme < buf.NumGraphemes() {
        var _ := buf.Remove(currGrapheme, currGrapheme + 1);
      }
    }

    /** `delete_all_before_cursor`. */
    method DeleteAllBeforeCursor(buf: Buffer)
      modifies this`currGrapheme, buf
      ensures buf.data == old(buf.data)[Min(old(currGrapheme), |old(buf.data)|)..]
      ensures currGrapheme == 0
      ensures old(buf.Consistent()) ==> buf.Consistent()
    {
      var _ := buf.Remove(0, currGrapheme);
      currGrapheme := 0;
    }

    /** `yank_all_after_cursor`: the text from the cursor on goes to the register. */
    method YankAllAfterCursor(buf: Buffer)
      requires InRange(buf)
      modifies buf`register
      ensures buf.register == Some(buf.data[currGrapheme..])
    {
      buf.Yank(currGrapheme, buf.NumGraphemes());
      assert buf.data[currGrapheme..Min(|buf.data|, |buf.data|)] == buf.data[currGrapheme..];
    }

    /** `delete_all_after_cursor`. */
    method DeleteAllAfterCursor(buf: Buffer)
      modifies buf
      ensures buf.data == old(buf.data)[..Min(currGrapheme, |old(buf.data)|)]
      ensures old(InRange(buf)) ==> InRange(buf)
      ensures old(buf.Consistent()) ==> buf.Consistent()
    {
      buf.Truncate(currGrapheme);
    }

    /** `yank_until`: the text between the cursor and `position`, in either order. */
    method YankUntil(buf: Buffer, position: nat)
      requires Max(currGrapheme, position) >= |buf.data| ==> Min(currGrapheme, position) <= |buf.data|
      modifies buf`register
      ensures var (lo, hi) := (Min(currGrapheme, position), Max(currGrapheme, position));
        buf.register == Some(buf.data[lo..Min(hi, |buf.data|)])
    {
      buf.Yank(Min(currGrapheme, position), Max(currGrapheme, position));
    }

    /** `delete_until_silent`: as `delete_until`, without recording it. */
    method DeleteUntilSilent(buf: Buffer, position: nat)
      modifies this`currGrapheme, buf`data
      ensures buf.data == RemoveRawText(old(buf.data), Min(old(currGrapheme), position), Max(old(currGrapheme), position))
      ensures currGrapheme == Min(old(currGrapheme), position)
      ensures old(InRange(buf)) ==> InRange(buf)
    {
      buf.RemoveUnrecorded(Min(currGrapheme, position), Max(currGrapheme, position));
      currGrapheme := Min(currGrapheme, position);
    }

    /** `delete_until`: remove between the cursor and `position`; the cursor goes to the lower end. */
    method DeleteUntil(buf: Buffer, position: nat)
      modifies this`currGrapheme, buf
      ensures var (lo, hi) := (Min(old(currGrapheme), position), Max(old(currGrapheme), position));
        buf.data == RemoveRawText(old(buf.data), lo, hi) &&
        (lo < |old(buf.data)| ==> buf.data == old(buf.data)[..lo] + old(buf.data)[Min(hi, |old(buf.data)|)..])
      ensures currGrapheme == Min(old(currGrapheme), position)
      ensures old(InRange(buf)) ==> InRange(buf)
      ensures old(buf.Consistent()) ==> buf.Consistent()
    {
      var _ := buf.Remove(Min(currGrapheme, position), Max(currGrapheme, position));
      currGrapheme := Min(currGrapheme, position);
    }

    /** `yank_until_inclusive`: as `yank_until`, taking in the unit at the upper end too. */
    method YankUntilInclusive(buf: Buffer, position: nat)
      requires Max(currGrapheme + 1, position + 1) >= |buf.data| ==> Min(currGrapheme, position) <= |buf.data|
      modifies buf`register
      ensures var (lo, hi) := (Min(currGrapheme, position), Max(currGrapheme + 1, position + 1));
        buf.register == Some(buf.data[lo..Min(hi, |buf.data|)])
    {
      buf.Yank(Min(currGrapheme, position), Max(currGrapheme + 1, position + 1));
    }

    /** `delete_until_inclusive`: remove `[min(cur, p), max(cur, p) + 1)`; the cursor goes to the lower end. */
    method DeleteUntilInclusive(buf: Buffer, position: nat)
      modifies this`currGrapheme, buf
      ensures var (lo, hi) := (Min(old(currGrapheme), position), Max(old(currGrapheme) + 1, position + 1));
        buf.data == RemoveRawText(old(buf.data), lo, hi) &&
        (lo < |old(buf.data)| ==> buf.data == old(buf.data)[..lo] + old(buf.data)[Min(hi, |old(buf.data)|)..])
      ensures currGrapheme == Min(old(currGrapheme), position)
      ensures old(InRange(buf)) ==> InRange(buf)
      ensures old(buf.Consistent()) ==> buf.Consistent()
    {
      var _ := buf.Remove(Min(currGrapheme, position), Max(currGrapheme + 1, position + 1));
      currGrapheme := Min(currGrapheme, position);
    }

    /** `move_cursor_left`: stops at 0. */
    method MoveCursorLeft(count: nat)
      modifies this`currGrapheme
      ensures currGrapheme == old(currGrapheme) - Min(count, old(currGrapheme))
      ensures count <= old(currGrapheme) ==> currGrapheme + count == old(currGrapheme)
      ensures count >= old(currGrapheme) ==> currGrapheme == 0
    {
      var inc := count;
      if count > currGrapheme {
        inc := currGrapheme;
      }
      currGrapheme := currGrapheme - inc;
    }

    /** `move_cursor_right`: stops at the end.  The room left is an unsigned difference, so the cursor must be in range. */
    method MoveCursorRight(buf: Buffer, count: nat)
      requires InRange(buf)
      modifies this`currGrapheme
      ensures currGrapheme == old(currGrapheme) + Min(count, |buf.data| - old(currGrapheme))
      ensures InRange(buf)
      ensures old(currGrapheme) + count <= |buf.data| ==> currGrapheme == old(currGrapheme) + count
      ensures old(currGrapheme) + count >= |buf.data| ==> currGrapheme == |buf.data|
    {
      var inc := count;
      if count > buf.NumGraphemes() - currGrapheme {
        inc := buf.NumGraphemes() - currGrapheme;
      }
      currGrapheme := currGrapheme + inc;
    }

    /** `move_cursor_to_end_of_line`. */
    method MoveCursorToEndOfLine(buf: Buffer)
      modifies this`currGrapheme
      ensures currGrapheme == |buf.data| && InRange(buf)
    {
      currGrapheme := buf.NumGraphemes();
    }

    /** `is_at_beginning_of_word_or_line`: at 0, on an empty buffer, or just after whitespace. */
    function IsAtBeginningOfWordOrLine(buf: Buffer): (r: bool)
      reads this, buf
      ensures r <==> |buf.data| == 0 || currGrapheme == 0 || currGrapheme > |buf.data| ||
                     IsWhitespace(buf.data[currGrapheme - 1])
    {
      if |buf.data| > 0 && currGrapheme != 0 then
        match buf.GraphemeBefore(currGrapheme)
        case Some(s) => IsWhitespace(s)
        case None => true
      else true
    }

    /** `set_no_eol`. */
    method SetNoEol(noEol: bool)
      modifies this`noEol
      ensures this.noEol == noEol
    {
      this.noEol := noEol;
    }

    /**
     * `is_at_end_of_line`: on the last unit in vi normal mode, past it
     * otherwise.  The unsigned `len - 1` needs a non-empty buffer in vi
     * normal mode.
     */
    function IsAtEndOfLine(buf: Buffer): (r: bool)
      requires noEol ==> |buf.data| > 0
      reads this, buf
      ensures !noEol ==> (r <==> currGrapheme == |buf.data|)
      ensures noEol ==> (r <==> currGrapheme + 1 == |buf.data|)
    {
      if noEol then currGrapheme == |buf.data| - 1 else currGrapheme == |buf.data|
    }

    /**
     * `pre_display_adjustment`: clamp to the end, and in vi normal mode
     * step back off the end onto the last unit.
     */
    method PreDisplayAdjustment(buf: Buffer)
      modifies this`currGrapheme
      ensures InRange(buf)
      ensures noEol && |buf.data| > 0 ==> currGrapheme < |buf.data|
      ensures old(currGrapheme) < |buf.data| ==> currGrapheme == old(currGrapheme)
      ensures !noEol ==> currGrapheme == Min(old(currGrapheme), |buf.data|)
      ensures noEol && |buf.data| > 0 && old(currGrapheme) >= |buf.data| ==> currGrapheme == |buf.data| - 1
    {
      var bufNumChars := buf.NumGraphemes();
      if bufNumChars < currGrapheme {
        currGrapheme := bufNumChars;
      }
      if noEol && currGrapheme != 0 && currGrapheme == bufNumChars {
        currGrapheme := currGrapheme - 1;
      }
    }
  }

  // ---------------------------------------------------------------------
  // The cursor's documented usage

  /** A cursor moved past the end is clamped to it; reset empties the buffer and goes to 0. */
  method ClampThenReset() returns (clamped: nat, afterReset: nat, text: Text)
    ensures clamped == 5 && afterReset == 0 && text == []
  {
    var cur := new Cursor.NewWithDivider(EditorRules.NewRules());
    var buf := new Buffer.FromText("01234");
    cur.MoveCursorTo(buf, 100);
    clamped := cur.currGrapheme;
    cur.Reset(buf);
    afterReset := cur.currGrapheme;
    text := buf.data;
  }

  /** Yanking "hello" from the second word and pasting it to the right of the cursor. */
  method YankAndPaste() returns (text: Text, cursor: nat)
    ensures text == "hello hhelloello" && cursor == 11
  {
    var cur := new Cursor.NewWithDivider(EditorRules.NewRules());
    var buf := new Buffer.FromText("hello hello");
    cur.MoveCursorTo(buf, 6);
    cur.YankAllAfterCursor(buf);
    assert buf.register == Some("hello");
    cur.InsertAround(buf, true, 1);
    text := buf.data;
    cursor := cur.currGrapheme;
  }

  /** In vi normal mode a cursor past the end of a non-empty buffer comes back onto its last unit. */
  method ClampForDisplay(noEol: bool) returns (cursor: nat)
    ensures noEol ==> cursor == 4
    ensures !noEol ==> cursor == 5
  {
    var cur := new Cursor.NewWithDivider(EditorRules.NewRules());
    cur.SetNoEol(noEol);
    var buf := new Buffer.FromText("hello");
    cur.currGrapheme := 8;
    cur.PreDisplayAdjustment(buf);
    cursor := cur.currGrapheme;
  }
}
