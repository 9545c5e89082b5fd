/**
 * The line editor's state as a value, and what each of its operations
 * does to it.  The `Editor` class holds the same state in its fields and
 * buffers; each of its methods is proved to move its state exactly as
 * the function here of the same name does, and the properties of the
 * editor are proved here, about these functions.
 *
 * Terminal output is not modelled: a redraw is its effect on the state,
 * the clamped cursor and the row of the cursor it records.
 */
module EditorModel {
  import opened Common
  import opened Buffers
  import opened Histories
  import Util
  import Prompts
  import Terminals
  import Terms
  import opened EditorText

  /**
   * The editor: the prompt, the cursor, the line being typed and the copy
   * of a recalled history entry, the history's entries and search
   * context, the row of the cursor, the completion hint, the no-eol mode,
   * the incremental search, the autosuggestion and the terminal width.
   */
  datatype EditorState = EditorState(
    prompt: Prompts.Prompt,
    cursor: nat,
    newBuf: BufferValue,
    histBuf: BufferValue,
    histBufValid: bool,
    curHistoryLoc: Option<nat>,
    items: seq<HistoryItem>,
    searchContext: Option<Text>,
    termCursorLine: nat,
    hint: Option<Hint>,
    noEol: bool,
    reverseSearch: bool,
    forwardSearch: bool,
    bufferChanged: bool,
    index: seq<nat>,
    subsetLoc: Option<nat>,
    autosuggestion: Option<Text>,
    width: nat)

  // ---------------------------------------------------------------------
  // Invariants

  /** `is_search`. */
  predicate IsSearch(s: EditorState)
  {
    s.reverseSearch || s.forwardSearch
  }

  /** `cur_buf!`: the copy of the recalled entry once it is made, the typed line otherwise. */
  function Cur(s: EditorState): BufferValue
  {
    if s.curHistoryLoc.Some? && s.histBufValid then s.histBuf else s.newBuf
  }

  /** The text being edited. */
  function CurText(s: EditorState): Text
  {
    Cur(s).data
  }

  /** The line typed at the prompt, whatever is recalled. */
  function NewText(s: EditorState): Text
  {
    s.newBuf.data
  }

  /** The places and the hint point inside what they index. */
  predicate Wf(s: EditorState)
  {
    s.width > 0 &&
    (s.curHistoryLoc.Some? ==> s.curHistoryLoc.value < |s.items|) &&
    (s.subsetLoc.Some? ==> s.subsetLoc.value < |s.index|) &&
    (forall k | 0 <= k < |s.index| :: s.index[k] < |s.items|) &&
    HintOk(s.hint)
  }

  /** The search index is that of the typed line, and it has a place exactly when it has entries. */
  predicate Indexed(s: EditorState)
  {
    s.index == SearchIndex(s.items, NewText(s)) && (s.subsetLoc.Some? <==> s.index != [])
  }

  /**
   * What holds before every redraw: the copy is in use exactly while an
   * entry is recalled, and an unchanged search is up to date and on the
   * typed line.
   */
  predicate Ready(s: EditorState)
  {
    Wf(s) && (s.histBufValid <==> s.curHistoryLoc.Some?) &&
    (IsSearch(s) && !s.bufferChanged ==> s.curHistoryLoc.None? && Indexed(s))
  }

  /** What holds between operations, but for the autosuggestion: a search is on the typed line, and the cursor within the text. */
  predicate Settled(s: EditorState)
  {
    Ready(s) && (IsSearch(s) ==> s.curHistoryLoc.None?) && s.cursor <= |CurText(s)|
  }

  /** What holds after every redraw. */
  predicate Valid(s: EditorState)
  {
    Settled(s) && (IsSearch(s) ==> Indexed(s)) && s.autosuggestion == Autosuggestion(s)
  }

  // ---------------------------------------------------------------------
  // The autosuggestion and the search

  /**
   * `current_autosuggestion`: nothing while a copy of a recalled entry is
   * edited or the line is empty; in a search, the entry the search is
   * on; otherwise the recalled entry, or the newest entry starting with
   * the typed line (preferring one entered in the search context).
   */
  function Autosuggestion(s: EditorState): Option<Text>
    requires Wf(s)
  {
    if s.histBufValid || NewText(s) == [] then None
    else if IsSearch(s) then
      match SearchEntry(s.index, s.subsetLoc)
      case Some(i) => Some(s.items[i].buffer)
      case None => None
    else if s.curHistoryLoc.Some? then Some(s.items[s.curHistoryLoc.value].buffer)
    else
      var m := MatchSpec(s.items, s.searchContext, Descending(|s.items|), NewText(s));
      MatchSpecMeaning(s.items, s.searchContext, Descending(|s.items|), NewText(s));
      if m.Some? then Some(s.items[m.value].buffer) else None
  }

  /** `refresh_search`: index the entries containing the typed line and keep the place near the entry shown before. */
  function Refresh(s: EditorState, forward: bool): (r: EditorState)
    requires Wf(s)
    ensures Wf(r)
  {
    var idx := SearchIndex(s.items, NewText(s));
    s.(index := idx, subsetLoc := RefreshedLoc(SearchEntry(s.index, s.subsetLoc), idx, forward),
       reverseSearch := !forward, forwardSearch := forward,
       curHistoryLoc := None, histBufValid := false, bufferChanged := false)
  }

  /** `clear_search`. */
  function ClearSearch(s: EditorState): EditorState
  {
    s.(reverseSearch := false, forwardSearch := false, subsetLoc := None, index := [])
  }

  // ---------------------------------------------------------------------
  // Redrawing

  /** The prompt `_display` draws: `search_prompt` in a search, the prompt otherwise. */
  function PromptLine(s: EditorState): Text
  {
    if IsSearch(s) then SearchPromptText(Prompts.Prefix(s.prompt), CurText(s), s.index, s.subsetLoc, Prompts.Suffix(s.prompt))
    else Prompts.ToString(s.prompt)
  }

  /** The autosuggestion drawn contains the text being edited. */
  predicate Fits(s: EditorState)
  {
    s.autosuggestion.None? || Occurs(CurText(s), s.autosuggestion.value)
  }

  /** The row of a cursor at `c`, counted from the prompt's row as 1, with the completion list's rows below. */
  function CursorRow(s: EditorState, c: nat): nat
    requires s.width > 0 && c <= |CurText(s)|
  {
    Terminals.Row(Terminals.TotalWidth(Util.LastPromptLineWidth(PromptLine(s)),
      Terminals.LineWidths(Terminals.ShownToCursor(CurText(s), c, s.autosuggestion)), s.width), s.width) +
    CompletionLines(s.hint, s.width)
  }

  /** `_display`'s effect: the cursor clamped (and off the end in no-eol mode), and its row recorded. */
  function Measure(s: EditorState): (r: EditorState)
    requires s.width > 0
  {
    var c := Terms.DisplayCursor(s.cursor, |CurText(s)|, s.noEol);
    s.(cursor := c, termCursorLine := CursorRow(s, c))
  }

  /** The first half of `display`: refresh a search whose text changed, and recompute the autosuggestion. */
  function Prepare(s: EditorState): (r: EditorState)
    requires Wf(s)
    ensures Wf(r)
  {
    var s1 := if IsSearch(s) && s.bufferChanged then Refresh(s, s.forwardSearch) else s;
    s1.(autosuggestion := Autosuggestion(s1))
  }

  /** `display`. */
  function Redraw(s: EditorState): EditorState
    requires Wf(s)
  {
    Measure(Prepare(s))
  }

  /** The settings and the history a redraw and every edit keep. */
  predicate Keeps(s: EditorState, r: EditorState)
  {
    r.prompt == s.prompt && r.noEol == s.noEol && r.items == s.items &&
    r.searchContext == s.searchContext && r.width == s.width
  }

  /**
   * The cursor's row is never below the last row drawn: the case `_display`
   * marks unreachable is.
   */
  lemma CursorRowWithinText(promptWidth: nat, buf: Text, cursor: nat, sugg: Option<Text>, width: nat)
    requires width > 0 && cursor <= |buf|
    requires sugg.None? || Occurs(buf, sugg.value)
    ensures Terminals.Row(Terminals.TotalWidth(promptWidth, Terminals.LineWidths(Terminals.ShownToCursor(buf, cursor, sugg)), width), width) <=
            Terminals.Row(Terminals.TotalWidth(promptWidth, Terminals.LineWidths(Terminals.Shown(buf, sugg)), width), width)
  {
    var shown := Terminals.Shown(buf, sugg);
    Terminals.ShownPrefix(buf, cursor, sugg);
    Terminals.PrefixLinesDominated(shown, cursor);
    Terminals.TotalWidthMonotone(promptWidth, Terminals.LineWidths(shown[..cursor]), Terminals.LineWidths(shown), width);
    Terminals.RowMonotone(
      Terminals.TotalWidth(promptWidth, Terminals.LineWidths(shown[..cursor]), width),
      Terminals.TotalWidth(promptWidth, Terminals.LineWidths(shown), width), width);
  }

  /** The cursor clamping at the start of `_display`: to the end of the text, and off it in no-eol mode. */
  method ClampForDisplay(cursor: nat, len: nat, noEol: bool) returns (c: nat)
    ensures c == Terms.DisplayCursor(cursor, len, noEol)
  {
    c := cursor;
    if len < c {
      c := len;
    }
    if noEol && c != 0 && c == len {
      c := c - 1;
    }
  }

  /**
   * `_display`'s measurements: the clamped cursor and its row, after
   * checking that the row is not below the last row of the prompt, text
   * and autosuggestion.
   */
  method MeasureRow(s: EditorState) returns (c: nat, row: nat)
    requires s.width > 0 && Fits(s)
    ensures c == Terms.DisplayCursor(s.cursor, |CurText(s)|, s.noEol)
    ensures row == CursorRow(s, c)
    ensures Measure(s) == s.(cursor := c, termCursorLine := row)
  {
    var text := CurText(s);
    c := ClampForDisplay(s.cursor, |text|, s.noEol);
    var promptWidth := Util.LastPromptLineWidth(PromptLine(s));
    var total := Terminals.CalcWidth(promptWidth, Terminals.LineWidths(Terminals.Shown(text, s.autosuggestion)), s.width);
    var toCursor := Terminals.CalcWidth(promptWidth, Terminals.LineWidths(Terminals.ShownToCursor(text, c, s.autosuggestion)), s.width);
    var newNumLines := Terminals.Row(total, s.width);
    row := Terminals.Row(toCursor, s.width);
    CursorRowWithinText(promptWidth, text, c, s.autosuggestion, s.width);
    if newNumLines < row {
      assert false;
    }
    row := row + CompletionLines(s.hint, s.width);
  }

  /** The autosuggestion contains the typed line; out of a search and off the history it starts with it. */
  lemma AutosuggestionContainsText(s: EditorState)
    requires Wf(s) && (s.histBufValid <==> s.curHistoryLoc.Some?) && (IsSearch(s) ==> Indexed(s))
    ensures var sugg := Autosuggestion(s);
      sugg.Some? ==> !s.histBufValid && NewText(s) != [] && Occurs(NewText(s), sugg.value)
    ensures var sugg := Autosuggestion(s);
      sugg.Some? && !IsSearch(s) && s.curHistoryLoc.None? ==> NewText(s) <= sugg.value
  {
    var sugg := Autosuggestion(s);
    if sugg.Some? {
      var term := NewText(s);
      if IsSearch(s) {
        SearchIndexExact(s.items, term);
        var i := SearchEntry(s.index, s.subsetLoc).value;
        assert Occurs(term, s.items[i].buffer);
      } else {
        MatchSpecMeaning(s.items, s.searchContext, Descending(|s.items|), term);
        assert OccursAt(term, sugg.value, 0);
      }
    }
  }

  /**
   * A redraw restores every invariant.  It keeps the settings, the
   * history, the hint and both texts; the text being edited changes only
   * when a search whose text changed goes back to the typed line; the
   * cursor is clamped to that text.
   */
  lemma RedrawValid(s: EditorState)
    requires Ready(s)
    ensures var r := Redraw(s);
      Valid(r) && Keeps(s, r) && r.hint == s.hint &&
      r.newBuf == s.newBuf && r.histBuf == s.histBuf &&
      (!IsSearch(s) || s.curHistoryLoc.None? ==> Cur(r) == Cur(s)) &&
      r.cursor == Terms.DisplayCursor(s.cursor, |CurText(r)|, s.noEol) &&
      IsSearch(r) == IsSearch(s)
    ensures var r := Redraw(s);
      !(IsSearch(s) && s.bufferChanged) ==>
        r.curHistoryLoc == s.curHistoryLoc && r.histBufValid == s.histBufValid &&
        r.bufferChanged == s.bufferChanged && r.index == s.index && r.subsetLoc == s.subsetLoc &&
        r.reverseSearch == s.reverseSearch && r.forwardSearch == s.forwardSearch
    ensures var r := Redraw(s);
      IsSearch(s) && s.bufferChanged ==>
        r.index == SearchIndex(s.items, NewText(s)) &&
        r.subsetLoc == RefreshedLoc(SearchEntry(s.index, s.subsetLoc), r.index, s.forwardSearch) &&
        r.curHistoryLoc.None? && !r.bufferChanged && r.forwardSearch == s.forwardSearch
  {
    PrepareReady(s);
    MeasureValid(Prepare(s));
  }

  /** Preparing a redraw leaves a search up to date, on the typed line, with its autosuggestion. */
  lemma PrepareReady(s: EditorState)
    requires Ready(s)
    ensures var p := Prepare(s);
      Ready(p) && (IsSearch(p) ==> Indexed(p) && p.curHistoryLoc.None?) &&
      p.autosuggestion == Autosuggestion(p) && Fits(p)
  {
    var s1 := if IsSearch(s) && s.bufferChanged then Refresh(s, s.forwardSearch) else s;
    if IsSearch(s) && s.bufferChanged {
      assert Indexed(s1);
    }
    AutosuggestionContainsText(s1);
  }

  /** Measuring changes only the cursor, which it brings within the text, and the cursor's row. */
  lemma MeasureValid(p: EditorState)
    requires Ready(p) && (IsSearch(p) ==> Indexed(p) && p.curHistoryLoc.None?)
    requires p.autosuggestion == Autosuggestion(p)
    ensures var r := Measure(p);
      Valid(r) && r == p.(cursor := r.cursor, termCursorLine := r.termCursorLine)
  {
    var r := Measure(p);
    assert Autosuggestion(r) == Autosuggestion(p);
  }

  /**
   * After a redraw the autosuggestion shows the text it belongs to: out
   * of a search it extends the typed line, and there is one exactly when
   * some entry starts with the line; in a search it contains the typed
   * line, and there is one exactly when some entry does.
   */
  lemma AutosuggestionMeaning(s: EditorState)
    requires Valid(s)
    ensures s.autosuggestion.Some? ==>
      NewText(s) != [] && CurText(s) == NewText(s) && Occurs(NewText(s), s.autosuggestion.value)
    ensures !IsSearch(s) && s.autosuggestion.Some? ==> NewText(s) <= s.autosuggestion.value
    ensures !IsSearch(s) && s.curHistoryLoc.None? && NewText(s) != [] ==>
      (s.autosuggestion.Some? <==> exists i | 0 <= i < |s.items| :: NewText(s) <= s.items[i].buffer)
    ensures IsSearch(s) && NewText(s) != [] ==>
      (s.autosuggestion.Some? <==> exists i | 0 <= i < |s.items| :: Occurs(NewText(s), s.items[i].buffer))
  {
    var items, term := s.items, NewText(s);
    var vals := Descending(|items|);
    AutosuggestionContainsText(s);
    MatchSpecMeaning(items, s.searchContext, vals, term);
    if !IsSearch(s) && s.curHistoryLoc.None? && term != [] {
      if exists i | 0 <= i < |items| :: term <= items[i].buffer {
        var i :| 0 <= i < |items| && term <= items[i].buffer;
        assert vals[|items| - 1 - i] == i;
        assert PrefixMatch(items, vals[|items| - 1 - i], term);
      }
    }
    if IsSearch(s) && term != [] {
      SearchIndexExact(items, term);
      if exists i | 0 <= i < |items| :: Occurs(term, items[i].buffer) {
        var i :| 0 <= i < |items| && Occurs(term, items[i].buffer);
        assert i in s.index;
      }
    }
  }

  // ---------------------------------------------------------------------
  // The buffer being edited

  /** Replace the buffer `cur_buf!` names. */
  function SetCur(s: EditorState, b: BufferValue): (r: EditorState)
    ensures Cur(r) == b && r.curHistoryLoc == s.curHistoryLoc && r.histBufValid == s.histBufValid
  {
    if s.curHistoryLoc.Some? && s.histBufValid then s.(histBuf := b) else s.(newBuf := b)
  }

  /**
   * `cur_buf_mut!`: mark the text changed and, the first time a recalled
   * entry is edited, copy it into the second buffer.  The history's
   * entries themselves are never edited.
   */
  function Touched(s: EditorState): (r: EditorState)
    requires Wf(s)
    ensures Wf(r) && Keeps(s, r) && r.bufferChanged && r.curHistoryLoc == s.curHistoryLoc
    ensures r.curHistoryLoc.Some? ==> r.histBufValid
    ensures s.curHistoryLoc.Some? && !s.histBufValid ==> CurText(r) == s.items[s.curHistoryLoc.value].buffer
    ensures !(s.curHistoryLoc.Some? && !s.histBufValid) ==> r == s.(bufferChanged := true)
  {
    match s.curHistoryLoc
    case Some(i) =>
      if s.histBufValid then s.(bufferChanged := true)
      else s.(bufferChanged := true, histBuf := Copied(s.histBuf, s.items[i].buffer), histBufValid := true)
    case None => s.(bufferChanged := true)
  }

  /** An edit: the buffer `cur_buf_mut!` hands out replaced by `b`, and the cursor moved to `c`. */
  function Edited(s: EditorState, b: BufferValue, c: nat): EditorState
    requires Wf(s)
  {
    SetCur(Touched(s), b).(cursor := c)
  }

  /** Between operations no copy is pending: the buffer `cur_buf_mut!` hands out is the one shown. */
  lemma NoCopyPending(s: EditorState)
    requires Ready(s)
    ensures Cur(Touched(s)) == Cur(s) && CurText(Touched(s)) == CurText(s)
  {
  }

  /**
   * An edit followed by a redraw, the shape of every editing operation:
   * it restores every invariant, keeps the history and the settings, and
   * leaves the edited buffer in place with the cursor clamped to it.
   */
  function Commit(s: EditorState, b: BufferValue, c: nat): (r: EditorState)
    requires Settled(s)
    ensures Valid(r) && Keeps(s, r) && r.hint == s.hint && Cur(r) == b &&
      r.cursor == Terms.DisplayCursor(c, |b.data|, s.noEol) &&
      IsSearch(r) == IsSearch(s) && r.curHistoryLoc == s.curHistoryLoc
  {
    RedrawValid(Edited(s, b, c));
    Redraw(Edited(s, b, c))
  }

  /** `display` between operations: it keeps the buffers and clamps the cursor. */
  function Redisplay(s: EditorState): (r: EditorState)
    requires Settled(s)
    ensures Valid(r) && Keeps(s, r) && r.hint == s.hint && Cur(r) == Cur(s) &&
      r.cursor == Terms.DisplayCursor(s.cursor, |CurText(s)|, s.noEol) &&
      IsSearch(r) == IsSearch(s) && r.curHistoryLoc == s.curHistoryLoc
  {
    RedrawValid(s);
    Redraw(s)
  }

  /** A cursor move followed by a redraw. */
  function Moved(s: EditorState, c: nat): (r: EditorState)
    requires Settled(s) && c <= |CurText(s)|
    ensures Valid(r) && Keeps(s, r) && r.hint == s.hint && Cur(r) == Cur(s) &&
      r.cursor == Terms.DisplayCursor(c, |CurText(s)|, s.noEol) &&
      IsSearch(r) == IsSearch(s) && r.curHistoryLoc == s.curHistoryLoc
  {
    Redisplay(s.(cursor := c))
  }

  /** An edit that leaves the cursor inside the new text leaves the editor settled. */
  lemma EditedSettled(s: EditorState, b: BufferValue, c: nat)
    requires Settled(s) && c <= |b.data|
    ensures var e := Edited(s, b, c);
      Settled(e) && Cur(e) == b && e.cursor == c && Keeps(s, e) && e.hint == s.hint && IsSearch(e) == IsSearch(s)
  {
  }

  // ---------------------------------------------------------------------
  // Edits at the cursor

  /**
   * `insert_chars_after_cursor` (and `insert_str_after_cursor`,
   * `insert_after_cursor`): the characters go in at the cursor, as one
   * recorded insert, and the cursor moves past them.
   */
  function InsertChars(s: EditorState, cs: Text): (r: EditorState)
    requires Settled(s)
    ensures Valid(r) && Keeps(s, r) && r.hint == s.hint && IsSearch(r) == IsSearch(s)
    ensures Cur(r) == Inserted(Cur(s), s.cursor, cs)
    ensures CurText(r) == CurText(s)[..s.cursor] + cs + CurText(s)[s.cursor..]
    ensures r.cursor == Terms.DisplayCursor(s.cursor + |cs|, |CurText(r)|, s.noEol)
  {
    InsertedAt(CurText(s), s.cursor, cs);
    Commit(s, Inserted(Cur(s), s.cursor, cs), Plus(s.cursor, |cs|))
  }

  /** `delete_before_cursor`: the unit before the cursor removed, and the cursor moved back onto its place; nothing at the start. */
  function DeleteBefore(s: EditorState): (r: EditorState)
    requires Settled(s)
    ensures Valid(r) && Keeps(s, r) && r.hint == s.hint && IsSearch(r) == IsSearch(s)
    ensures s.cursor > 0 ==>
      Cur(r) == Removed(Cur(s), s.cursor - 1, s.cursor) &&
      CurText(r) == CurText(s)[..s.cursor - 1] + CurText(s)[s.cursor..] &&
      r.cursor == Terms.DisplayCursor(s.cursor - 1, |CurText(r)|, s.noEol)
    ensures s.cursor == 0 ==> Cur(r) == Cur(s) && r.cursor == Terms.DisplayCursor(0, |CurText(s)|, s.noEol)
  {
    if s.cursor > 0 then
      RemovedText(CurText(s), s.cursor - 1, s.cursor);
      Commit(s, Removed(Cur(s), Minus(s.cursor, 1), s.cursor), Minus(s.cursor, 1))
    else
      Moved(s, s.cursor)
  }

  /** `delete_after_cursor`: the unit under the cursor removed, the cursor kept; nothing at the end. */
  function DeleteAfter(s: EditorState): (r: EditorState)
    requires Settled(s)
    ensures Valid(r) && Keeps(s, r) && r.hint == s.hint && IsSearch(r) == IsSearch(s)
    ensures s.cursor < |CurText(s)| ==>
      Cur(r) == Removed(Cur(s), s.cursor, s.cursor + 1) &&
      CurText(r) == CurText(s)[..s.cursor] + CurText(s)[s.cursor + 1..]
    ensures s.cursor == |CurText(s)| ==> Cur(r) == Cur(s)
    ensures r.cursor == Terms.DisplayCursor(s.cursor, |CurText(r)|, s.noEol)
  {
    RemovedText(CurText(s), s.cursor, s.cursor + 1);
    Commit(s, if s.cursor < |CurText(s)| then Removed(Cur(s), s.cursor, Plus(s.cursor, 1)) else Cur(s), s.cursor)
  }

  /** `delete_all_before_cursor`: everything before the cursor removed, and the cursor at the start. */
  function DeleteAllBefore(s: EditorState): (r: EditorState)
    requires Settled(s)
    ensures Valid(r) && Keeps(s, r) && r.hint == s.hint && IsSearch(r) == IsSearch(s)
    ensures Cur(r) == Removed(Cur(s), 0, s.cursor) && CurText(r) == CurText(s)[s.cursor..]
    ensures r.cursor == 0
  {
    RemovedText(CurText(s), 0, s.cursor);
    Commit(s, Removed(Cur(s), 0, s.cursor), 0)
  }

  /** `delete_all_after_cursor`: everything from the cursor on removed; the cursor kept. */
  function DeleteAllAfter(s: EditorState): (r: EditorState)
    requires Settled(s)
    ensures Valid(r) && Keeps(s, r) && r.hint == s.hint && IsSearch(r) == IsSearch(s)
    ensures Cur(r) == Truncated(Cur(s), s.cursor) && CurText(r) == CurText(s)[..s.cursor]
    ensures r.cursor == Terms.DisplayCursor(s.cursor, s.cursor, s.noEol)
  {
    RemovedText(CurText(s), s.cursor, |CurText(s)|);
    Commit(s, Truncated(Cur(s), s.cursor), s.cursor)
  }

  /** `delete_until`: everything between the cursor and `p` removed, and the cursor at the smaller of the two. */
  function DeleteUntil(s: EditorState, p: nat): (r: EditorState)
    requires Settled(s)
    ensures Valid(r) && Keeps(s, r) && r.hint == s.hint && IsSearch(r) == IsSearch(s)
    ensures Cur(r) == Removed(Cur(s), Min(s.cursor, p), Max(s.cursor, p))
    ensures p <= |CurText(s)| ==>
      CurText(r) == CurText(s)[..Min(s.cursor, p)] + CurText(s)[Max(s.cursor, p)..] &&
      r.cursor == Terms.DisplayCursor(Min(s.cursor, p), |CurText(r)|, s.noEol)
  {
    UntilRemoved(CurText(s), s.cursor, p);
    Commit(s, Removed(Cur(s), Min(s.cursor, p), Max(s.cursor, p)), Min(s.cursor, p))
  }

  /** `delete_until_inclusive`: as `delete_until`, and the unit at the larger of the two as well. */
  function DeleteUntilInclusive(s: EditorState, p: nat): (r: EditorState)
    requires Settled(s)
    requires RemoveRawOk(CurText(s), Min(s.cursor, p), Max(Plus(s.cursor, 1), Plus(p, 1)))
    ensures Valid(r) && Keeps(s, r) && r.hint == s.hint && IsSearch(r) == IsSearch(s)
    ensures Cur(r) == Removed(Cur(s), Min(s.cursor, p), Max(Plus(s.cursor, 1), Plus(p, 1)))
    ensures r.cursor == Terms.DisplayCursor(Min(s.cursor, p), |CurText(r)|, s.noEol)
  {
    Commit(s, Removed(Cur(s), Min(s.cursor, p), Max(Plus(s.cursor, 1), Plus(p, 1))), Min(s.cursor, p))
  }

  /** With `p` inside the text, `delete_until_inclusive` removes everything from the smaller of the cursor and `p` through the larger. */
  lemma DeleteUntilInclusiveText(s: EditorState, p: nat)
    requires Settled(s) && p <= |CurText(s)|
    ensures RemoveRawOk(CurText(s), Min(s.cursor, p), Max(Plus(s.cursor, 1), Plus(p, 1)))
    ensures CurText(DeleteUntilInclusive(s, p)) ==
      CurText(s)[..Min(s.cursor, p)] + CurText(s)[Min(Max(s.cursor, p) + 1, |CurText(s)|)..]
  {
    UntilRemoved(CurText(s), s.cursor, p);
  }

  /** Inserting at a place inside the text puts the insert between the two halves. */
  lemma InsertedAt(t: Text, c: nat, cs: Text)
    requires c <= |t|
    ensures InsertRawText(t, c, cs) == t[..c] + cs + t[c..]
  {
    if c == |t| {
      assert t[c..] == [] && t[..c] == t;
    }
  }

  /** The texts both `delete_until`s leave, with the position inside the text. */
  lemma UntilRemoved(t: Text, c: nat, p: nat)
    requires c <= |t|
    ensures p <= |t| ==> RemoveRawOk(t, Min(c, p), Max(c, p)) && RemoveRawOk(t, Min(c, p), Max(Plus(c, 1), Plus(p, 1)))
    ensures p <= |t| ==>
      RemoveRawText(t, Min(c, p), Max(c, p)) == t[..Min(c, p)] + t[Max(c, p)..] &&
      RemoveRawText(t, Min(c, p), Max(Plus(c, 1), Plus(p, 1))) == t[..Min(c, p)] + t[Min(Max(c, p) + 1, |t|)..]
  {
    if p <= |t| {
      DeleteUntilRemovesBetween(t, c, p);
    }
  }

  /**
   * `delete_word_before_cursor`: from the start of the word before the
   * cursor up to the cursor removed, and the cursor stepped back by what
   * went; with no such word, only a redraw.
   */
  function DeleteWord(s: EditorState, ignore: bool): (r: EditorState)
    requires Settled(s)
    ensures Valid(r) && Keeps(s, r) && r.hint == s.hint && IsSearch(r) == IsSearch(s)
    ensures var w := WordBeforeCursor(CurText(s), s.cursor, ignore);
      (w.Some? ==>
         Cur(r) == Removed(Cur(s), w.value.0, s.cursor) &&
         CurText(r) == CurText(s)[..w.value.0] + CurText(s)[s.cursor..] &&
         r.cursor == Terms.DisplayCursor(w.value.0, |CurText(r)|, s.noEol)) &&
      (w.None? ==> Cur(r) == Cur(s) && r.cursor == Terms.DisplayCursor(s.cursor, |CurText(s)|, s.noEol))
  {
    DeleteWordAt(s, WordBeforeCursor(CurText(s), s.cursor, ignore))
  }

  /** `delete_word_before_cursor` once the word is found. */
  function DeleteWordAt(s: EditorState, w: Option<Span>): (r: EditorState)
    requires Settled(s) && (w.Some? ==> w.value.0 < s.cursor)
    ensures Valid(r) && Keeps(s, r) && r.hint == s.hint && IsSearch(r) == IsSearch(s)
    ensures w.Some? ==>
      Cur(r) == Removed(Cur(s), w.value.0, s.cursor) &&
      CurText(r) == CurText(s)[..w.value.0] + CurText(s)[s.cursor..] &&
      r.cursor == Terms.DisplayCursor(w.value.0, |CurText(r)|, s.noEol)
    ensures w.None? ==> Cur(r) == Cur(s) && r.cursor == Terms.DisplayCursor(s.cursor, |CurText(s)|, s.noEol)
  {
    match w
    case Some((start, _)) =>
      SpanRemoved(s, start);
      Commit(s, Removed(Cur(s), start, s.cursor), Minus(s.cursor, Minus(|CurText(s)|, |Removed(Cur(s), start, s.cursor).data|)))
    case None =>
      Moved(s, s.cursor)
  }

  /** Removing `[start, cursor)` shortens the text by as much as the cursor steps back. */
  lemma SpanRemoved(s: EditorState, start: nat)
    requires Settled(s) && start < s.cursor
    ensures var t := CurText(s); var b := Removed(Cur(s), start, s.cursor);
      b.data == t[..start] + t[s.cursor..] && Minus(s.cursor, Minus(|t|, |b.data|)) == start
  {
    RemovedText(CurText(s), start, s.cursor);
  }

  // ---------------------------------------------------------------------
  // Cursor moves

  /** `move_cursor_left`: back by `n`, stopping at the start. */
  function MoveLeft(s: EditorState, n: nat): (r: EditorState)
    requires Settled(s)
    ensures Valid(r) && Keeps(s, r) && r.hint == s.hint && Cur(r) == Cur(s) && IsSearch(r) == IsSearch(s)
    ensures r.cursor == Terms.DisplayCursor(s.cursor - Min(n, s.cursor), |CurText(s)|, s.noEol)
  {
    Moved(s, Minus(s.cursor, Min(n, s.cursor)))
  }

  /** `move_cursor_right`: forward by `n`, stopping at the end. */
  function MoveRight(s: EditorState, n: nat): (r: EditorState)
    requires Settled(s)
    ensures Valid(r) && Keeps(s, r) && r.hint == s.hint && Cur(r) == Cur(s) && IsSearch(r) == IsSearch(s)
    ensures r.cursor == Terms.DisplayCursor(s.cursor + Min(n, |CurText(s)| - s.cursor), |CurText(s)|, s.noEol)
  {
    Moved(s, Plus(s.cursor, Min(n, Minus(|CurText(s)|, s.cursor))))
  }

  /** `move_cursor_to`: to `p`, clamped to the end. */
  function MoveTo(s: EditorState, p: nat): (r: EditorState)
    requires Settled(s)
    ensures Valid(r) && Keeps(s, r) && r.hint == s.hint && Cur(r) == Cur(s) && IsSearch(r) == IsSearch(s)
    ensures r.cursor == Terms.DisplayCursor(Min(p, |CurText(s)|), |CurText(s)|, s.noEol)
  {
    Moved(s, Min(p, |CurText(s)|))
  }

  /** `move_cursor_to_start_of_line`. */
  function MoveToStart(s: EditorState): (r: EditorState)
    requires Settled(s)
    ensures Valid(r) && Keeps(s, r) && r.hint == s.hint && Cur(r) == Cur(s) && IsSearch(r) == IsSearch(s)
    ensures r.cursor == 0
  {
    Moved(s, 0)
  }

  /**
   * `move_cursor_to_end_of_line`: to the end of the text being edited
   * (the last unit in no-eol mode).  It is where every history move,
   * undo and accepted suggestion ends, so it asks only for `Ready`.
   */
  function MoveToEnd(s: EditorState): (r: EditorState)
    requires Ready(s)
    ensures Valid(r) && Keeps(s, r) && r.hint == s.hint && IsSearch(r) == IsSearch(s)
    ensures !IsSearch(s) || s.curHistoryLoc.None? ==>
      Cur(r) == Cur(s) && r.curHistoryLoc == s.curHistoryLoc &&
      r.cursor == Terms.DisplayCursor(|CurText(s)|, |CurText(s)|, s.noEol)
    ensures !IsSearch(s) ==> r.index == s.index && r.subsetLoc == s.subsetLoc && r.newBuf == s.newBuf
  {
    RedrawValid(s.(cursor := |CurText(s)|));
    Redraw(s.(cursor := |CurText(s)|))
  }

  /**
   * `cursor_is_at_end_of_line` as intended: on the last unit in no-eol
   * mode, past it otherwise; an empty text has no last unit.
   */
  function AtEndOfLine(s: EditorState): (r: bool)
    ensures r ==> s.cursor <= |CurText(s)|
    ensures !s.noEol ==> (r <==> s.cursor == |CurText(s)|)
    ensures s.noEol ==> (r <==> |CurText(s)| > 0 && s.cursor + 1 == |CurText(s)|)
  {
    var n := |CurText(s)|;
    if s.noEol then n > 0 && s.cursor == n - 1 else s.cursor == n
  }

  /**
   * `cursor_is_at_end_of_line` as written: `num_chars - 1` on an empty
   * text underflows, which panics (`None` here) in a checked build.
   */
  function AtEndOfLineAsWritten(s: EditorState): (r: Option<bool>)
    ensures r.Some? ==> r.value == AtEndOfLine(s)
    ensures r.None? <==> s.noEol && CurText(s) == []
  {
    var n := |CurText(s)|;
    if s.noEol then (if n == 0 then None else Some(s.cursor == n - 1)) else Some(s.cursor == n)
  }

  /** Moving left by a count and back right by it returns, away from the text's ends and off the no-eol clamp. */
  lemma LeftThenRight(s: EditorState, n: nat)
    requires Settled(s) && n <= s.cursor
    requires !s.noEol || s.cursor < |CurText(s)|
    ensures var l := MoveLeft(s, n);
      Settled(l) && var r := MoveRight(l, n);
      r.cursor == s.cursor && Cur(r) == Cur(s)
  {
    LeftRightReturns(|CurText(s)|, s.cursor, n);
  }

  // ---------------------------------------------------------------------
  // Undo

  /**
   * `undo` on the buffer being edited; when something was undone the
   * cursor goes to the end of the line.  Reports whether anything was.
   */
  function Undo(s: EditorState): (r: (EditorState, bool))
    requires Settled(s)
    ensures Valid(r.0) && Keeps(s, r.0) && r.0.hint == s.hint && IsSearch(r.0) == IsSearch(s)
    ensures var (b, pos) := Undone(Cur(s)); Cur(r.0) == b && r.1 == pos.Some?
    ensures r.1 ==> r.0.cursor == Terms.DisplayCursor(|CurText(r.0)|, |CurText(r.0)|, s.noEol)
  {
    var (b, pos) := Undone(Cur(s));
    UndoRedraw(s, b, pos.Some?)
  }

  /** `redo`: the mirror image of `undo`. */
  function Redo(s: EditorState): (r: (EditorState, bool))
    requires Settled(s)
    ensures Valid(r.0) && Keeps(s, r.0) && r.0.hint == s.hint && IsSearch(r.0) == IsSearch(s)
    ensures var (b, pos) := Redone(Cur(s)); Cur(r.0) == b && r.1 == pos.Some?
    ensures r.1 ==> r.0.cursor == Terms.DisplayCursor(|CurText(r.0)|, |CurText(r.0)|, s.noEol)
  {
    var (b, pos) := Redone(Cur(s));
    UndoRedraw(s, b, pos.Some?)
  }

  /** `revert`: every recorded change undone; reports whether there was any. */
  function Revert(s: EditorState): (r: (EditorState, bool))
    requires Settled(s)
    ensures Valid(r.0) && Keeps(s, r.0) && r.0.hint == s.hint && IsSearch(r.0) == IsSearch(s)
    ensures var (b, did) := Reverted(Cur(s)); Cur(r.0) == b && r.1 == did
    ensures r.1 <==> Cur(s).actions != []
  {
    var (b, did) := Reverted(Cur(s));
    UndoRedraw(s, b, did)
  }

  /** The end of `undo`, `redo` and `revert`: to the end of the line when something changed, a redraw otherwise. */
  function UndoRedraw(s: EditorState, b: BufferValue, did: bool): (r: (EditorState, bool))
    requires Settled(s)
    ensures Valid(r.0) && Keeps(s, r.0) && r.0.hint == s.hint && IsSearch(r.0) == IsSearch(s)
    ensures Cur(r.0) == b && r.1 == did
    ensures did ==> r.0.cursor == Terms.DisplayCursor(|b.data|, |b.data|, s.noEol)
  {
    var x := SetCur(Touched(s), b);
    RedrawValid(x);
    if did then (MoveToEnd(x), true) else (Redraw(x), false)
  }

  /** Typing a text and undoing gives back the text and the recorded history, and reports the undo. */
  lemma InsertThenUndoRestores(s: EditorState, cs: Text)
    requires Settled(s)
    ensures var r := Undo(InsertChars(s, cs));
      r.1 && CurText(r.0) == CurText(s) && Cur(r.0).actions == Cur(s).actions
  {
    InsertThenUndo(Cur(s), s.cursor, cs);
  }

  /**
   * `undo` right after a removal from `b` (`DeleteBefore`, `DeleteAfter`,
   * the word and line deletions all leave such a state) gives back the
   * text and the history of `b`, and reports the undo.
   */
  lemma UndoAfterRemove(d: EditorState, b: BufferValue, start: nat, end: nat)
    requires Settled(d) && RemoveRawOk(b.data, start, end) && Cur(d) == Removed(b, start, end)
    ensures var r := Undo(d);
      r.1 && CurText(r.0) == b.data && Cur(r.0).actions == b.actions
  {
    RemoveThenUndo(b, start, end);
  }

  /** With nothing to redo, typing, undoing and redoing gives the typed text again. */
  lemma InsertUndoRedoReplays(s: EditorState, cs: Text)
    requires Settled(s) && Cur(s).undone == []
    ensures var r := Redo(Undo(InsertChars(s, cs)).0);
      r.1 && CurText(r.0) == CurText(s)[..s.cursor] + cs + CurText(s)[s.cursor..] && Cur(r.0).undone == []
  {
    InsertUndoRedo(Cur(s), s.cursor, cs);
    InsertedAt(CurText(s), s.cursor, cs);
  }

  /** Typing a character and deleting the one before the cursor gives the text back, off the no-eol clamp. */
  lemma InsertThenDeleteBeforeRestores(s: EditorState, ch: char)
    requires Settled(s)
    requires !s.noEol || s.cursor < |CurText(s)|
    ensures var r := DeleteBefore(InsertChars(s, [ch]));
      CurText(r) == CurText(s) && r.cursor == Terms.DisplayCursor(s.cursor, |CurText(s)|, s.noEol)
  {
    var i := InsertChars(s, [ch]);
    assert i.cursor == s.cursor + 1;
    CutInserted(CurText(s), s.cursor, ch);
  }

  /** Cutting out the character put in at `c` gives the text back. */
  lemma CutInserted(t: Text, c: nat, ch: char)
    requires c <= |t|
    ensures var u := t[..c] + [ch] + t[c..]; u[..c] + u[c + 1..] == t
  {
    var u := t[..c] + [ch] + t[c..];
    assert u[..c] == t[..c];
    assert u[c + 1..] == t[c..];
    assert t[..c] + t[c..] == t;
  }

  // ---------------------------------------------------------------------
  // The incremental search

  /**
   * `search`: start a search (indexing the entries that contain the typed
   * line, in the direction given), or step to the next match in the
   * direction given, round from the last to the first.
   */
  function Search(s: EditorState, forward: bool): (r: EditorState)
    requires Settled(s)
    ensures Valid(r) && Keeps(s, r) && r.hint == s.hint && IsSearch(r)
    ensures r.curHistoryLoc.None? && CurText(r) == NewText(s) && r.index == SearchIndex(s.items, NewText(s))
    ensures !IsSearch(s) ==> r.forwardSearch == forward && r.reverseSearch == !forward
    ensures IsSearch(s) && !s.bufferChanged ==>
      !r.bufferChanged && r.index == s.index &&
      r.subsetLoc == (if s.index != [] then SearchStep(s.subsetLoc, |s.index|, forward) else s.subsetLoc)
  {
    if !IsSearch(s) then
      RedrawValid(Refresh(s, forward));
      Redraw(Refresh(s, forward))
    else if s.index != [] then
      RedrawValid(s.(subsetLoc := SearchStep(s.subsetLoc, |s.index|, forward)));
      Redraw(s.(subsetLoc := SearchStep(s.subsetLoc, |s.index|, forward)))
    else
      RedrawValid(s);
      Redraw(s)
  }

  /** In an unchanged search with matches, a step one way and a step back return to the same match. */
  lemma SearchStepBack(s: EditorState, forward: bool)
    requires Valid(s) && IsSearch(s) && !s.bufferChanged && s.index != []
    ensures var a := Search(s, forward);
      Settled(a) && var b := Search(a, !forward);
      b.subsetLoc == s.subsetLoc && b.index == s.index && CurText(b) == CurText(s)
  {
    SearchStepsCancel(s.subsetLoc.value, |s.index|);
  }

  // ---------------------------------------------------------------------
  // Walking the history

  /** The place `move_up` goes to: on a typed line, the next older entry containing it; on an empty line, the next older entry. */
  function UpPlace(s: EditorState): (p: Place)
    requires Wf(s)
    ensures p.loc.Some? ==> p.loc.value < |s.items|
    ensures p.subsetLoc.Some? ==> p.subsetLoc.value < |p.subset|
    ensures forall k | 0 <= k < |p.subset| :: p.subset[k] < |s.items|
  {
    if NewText(s) != [] then
      SubsetContainsTerm(s.items, s.searchContext, NewText(s));
      SubsetUp(Place(s.curHistoryLoc, s.index, s.subsetLoc), s.items, s.searchContext, NewText(s))
    else Place(HistoryUp(s.curHistoryLoc, |s.items|), s.index, s.subsetLoc)
  }

  /** The place `move_down` goes to: the next newer entry, and past the newest back to the typed line. */
  function DownPlace(s: EditorState): (p: Place)
    requires Wf(s)
    ensures p.loc.Some? ==> p.loc.value < |s.items|
    ensures p.subsetLoc.Some? ==> p.subsetLoc.value < |p.subset|
    ensures forall k | 0 <= k < |p.subset| :: p.subset[k] < |s.items|
  {
    if NewText(s) != [] then SubsetDown(Place(s.curHistoryLoc, s.index, s.subsetLoc))
    else Place(HistoryDown(s.curHistoryLoc, |s.items|), s.index, s.subsetLoc)
  }

  /**
   * The end of every history move: the copy dropped, the place taken, a
   * fresh copy of the entry made and the cursor put at its end.  The
   * typed line is kept; the text shown is the entry, or the typed line.
   */
  function Recall(s: EditorState, p: Place): (r: EditorState)
    requires Settled(s) && !IsSearch(s)
    requires p.loc.Some? ==> p.loc.value < |s.items|
    requires p.subsetLoc.Some? ==> p.subsetLoc.value < |p.subset|
    requires forall k | 0 <= k < |p.subset| :: p.subset[k] < |s.items|
    ensures Valid(r) && Keeps(s, r) && r.hint == s.hint && !IsSearch(r)
    ensures r.curHistoryLoc == p.loc && r.index == p.subset && r.subsetLoc == p.subsetLoc && r.newBuf == s.newBuf
    ensures p.loc.Some? ==> CurText(r) == s.items[p.loc.value].buffer
    ensures p.loc.None? ==> CurText(r) == NewText(s)
    ensures r.cursor == Terms.DisplayCursor(|CurText(r)|, |CurText(r)|, s.noEol)
  {
    MoveToEnd(Touched(s.(histBufValid := false, curHistoryLoc := p.loc, index := p.subset, subsetLoc := p.subsetLoc)))
  }

  /** `move_up`: a step back in the search, or to the next older (matching) entry. */
  function MoveUp(s: EditorState): (r: EditorState)
    requires Settled(s)
    ensures Valid(r) && Keeps(s, r) && r.hint == s.hint && IsSearch(r) == IsSearch(s)
    ensures IsSearch(s) ==> CurText(r) == NewText(s)
    ensures !IsSearch(s) ==>
      var p := UpPlace(s);
      r.curHistoryLoc == p.loc && r.index == p.subset && r.subsetLoc == p.subsetLoc && r.newBuf == s.newBuf &&
      (p.loc.Some? ==> CurText(r) == s.items[p.loc.value].buffer) && (p.loc.None? ==> CurText(r) == NewText(s))
  {
    if IsSearch(s) then Search(s, false) else Recall(s, UpPlace(s))
  }

  /** `move_down`: a step forward in the search, or to the next newer (matching) entry, or back to the typed line. */
  function MoveDown(s: EditorState): (r: EditorState)
    requires Settled(s)
    ensures Valid(r) && Keeps(s, r) && r.hint == s.hint && IsSearch(r) == IsSearch(s)
    ensures IsSearch(s) ==> CurText(r) == NewText(s)
    ensures !IsSearch(s) ==>
      var p := DownPlace(s);
      r.curHistoryLoc == p.loc && r.index == p.subset && r.subsetLoc == p.subsetLoc && r.newBuf == s.newBuf &&
      (p.loc.Some? ==> CurText(r) == s.items[p.loc.value].buffer) && (p.loc.None? ==> CurText(r) == NewText(s))
  {
    if IsSearch(s) then Search(s, true) else Recall(s, DownPlace(s))
  }

  /** On an empty line, up then down returns to the same entry (or to the line), but from the oldest entry. */
  lemma UpThenDownReturns(s: EditorState)
    requires Settled(s) && !IsSearch(s) && NewText(s) == [] && s.curHistoryLoc != Some(0)
    ensures var u := MoveUp(s);
      Settled(u) && MoveDown(u).curHistoryLoc == s.curHistoryLoc
  {
    HistoryWalkReturns(s.curHistoryLoc, |s.items|);
  }

  /** On an empty line, down then up from an entry returns to it. */
  lemma DownThenUpReturns(s: EditorState)
    requires Settled(s) && !IsSearch(s) && NewText(s) == [] && s.curHistoryLoc.Some?
    ensures var d := MoveDown(s);
      Settled(d) && MoveUp(d).curHistoryLoc == s.curHistoryLoc
  {
    HistoryWalkReturns(s.curHistoryLoc, |s.items|);
  }

  /**
   * On a typed line, walking the entries that contain it: up recalls
   * only such an entry, and down after up comes back to the same place.
   */
  lemma SubsetWalkReturns(s: EditorState)
    requires Settled(s) && !IsSearch(s) && NewText(s) != []
    requires forall k | 0 <= k < |s.index| :: Occurs(NewText(s), s.items[s.index[k]].buffer)
    requires s.subsetLoc.Some? ==> s.curHistoryLoc == Some(s.index[s.subsetLoc.value])
    ensures var u := MoveUp(s);
      (u.curHistoryLoc.Some? && u.curHistoryLoc != s.curHistoryLoc ==>
        Occurs(NewText(s), CurText(u)) && CurText(u) == s.items[u.curHistoryLoc.value].buffer) &&
      Settled(u) &&
      (s.subsetLoc.Some? && s.subsetLoc.value > 0 ==>
        var d := MoveDown(u);
        d.curHistoryLoc == s.curHistoryLoc && d.subsetLoc == s.subsetLoc && d.index == s.index)
  {
    var p := Place(s.curHistoryLoc, s.index, s.subsetLoc);
    SubsetWalk(p, s.items, s.searchContext, NewText(s));
  }

  /** `move_to_start_of_history`: the oldest entry, or the typed line when there is none. */
  function MoveToStartOfHistory(s: EditorState): (r: EditorState)
    requires Settled(s)
    ensures Valid(r) && Keeps(s, r) && r.hint == s.hint && IsSearch(r) == IsSearch(s)
    ensures s.items == [] ==> r.curHistoryLoc.None? && CurText(r) == NewText(s)
    ensures s.items != [] && !IsSearch(s) ==>
      r.curHistoryLoc == Some(0) && CurText(r) == s.items[0].buffer &&
      r.cursor == Terms.DisplayCursor(|CurText(r)|, |CurText(r)|, s.noEol)
  {
    if s.items == [] then
      Redisplay(s.(histBufValid := false, curHistoryLoc := None))
    else
      MoveToEnd(Touched(s.(histBufValid := false, curHistoryLoc := Some(0))))
  }

  /** `move_to_end_of_history`: back to the typed line, with the cursor at its end when an entry was recalled. */
  function MoveToEndOfHistory(s: EditorState): (r: EditorState)
    requires Settled(s)
    ensures Valid(r) && Keeps(s, r) && r.hint == s.hint && IsSearch(r) == IsSearch(s)
    ensures r.curHistoryLoc.None? && CurText(r) == NewText(s)
    ensures s.curHistoryLoc.Some? ==> r.cursor == Terms.DisplayCursor(|NewText(s)|, |NewText(s)|, s.noEol)
  {
    if s.curHistoryLoc.Some? then
      MoveToEnd(s.(histBufValid := false, curHistoryLoc := None))
    else
      Redisplay(s.(histBufValid := false))
  }

  /** `clear`: the search ended and everything redrawn from the top. */
  function Clear(s: EditorState): (r: EditorState)
    requires Settled(s)
    ensures Valid(r) && Keeps(s, r) && r.hint == s.hint && !IsSearch(r) && Cur(r) == Cur(s)
  {
    Redisplay(ClearSearch(s.(termCursorLine := 1)))
  }

  // ---------------------------------------------------------------------
  // Accepting a line

  /**
   * `accept_autosuggestion`: in a search the suggestion replaces the text,
   * otherwise the rest of it is appended; the search ends and the cursor
   * goes to the end.
   */
  function AcceptAutosuggestion(s: EditorState): (r: EditorState)
    requires Valid(s)
    ensures Valid(r) && Keeps(s, r) && r.hint == s.hint && !IsSearch(r)
    ensures s.autosuggestion.Some? ==> CurText(r) == s.autosuggestion.value
    ensures s.autosuggestion.None? ==> Cur(r) == Cur(s)
    ensures r.cursor == Terms.DisplayCursor(|CurText(r)|, |CurText(r)|, s.noEol)
  {
    AutosuggestionMeaning(s);
    MoveToEnd(ClearSearch(SetCur(Touched(s), Accepted(s))))
  }

  /** The buffer `accept_autosuggestion` leaves: the suggestion copied in during a search, its rest appended otherwise. */
  function Accepted(s: EditorState): BufferValue
    requires Valid(s)
  {
    AutosuggestionMeaning(s);
    match s.autosuggestion
    case Some(x) => if IsSearch(s) then Copied(Cur(s), x) else InsertedFrom(Cur(s), x)
    case None => Cur(s)
  }

  /** The text ends in a backslash, asking for another line. */
  predicate Continued(t: Text)
  {
    |t| > 0 && t[|t| - 1] == '\\'
  }

  /**
   * `handle_newline`: in a search the suggestion is accepted first; the
   * search ends.  With a completion hint shown, the hint goes and the
   * line is not done; after a backslash a newline is added and the line
   * is not done; otherwise the cursor goes to the end and the line is done.
   */
  function HandleNewline(s: EditorState): (r: (EditorState, bool))
    requires Valid(s)
    ensures Valid(r.0) && Keeps(s, r.0) && !IsSearch(r.0) && r.0.hint.None?
    ensures var t := if IsSearch(s) && s.autosuggestion.Some? then s.autosuggestion.value else CurText(s);
      (s.hint.Some? ==> !r.1 && CurText(r.0) == t) &&
      (s.hint.None? && Continued(t) ==> !r.1 && CurText(r.0) == t + ['\n']) &&
      (s.hint.None? && !Continued(t) ==>
         r.1 && CurText(r.0) == t && r.0.cursor == Terms.DisplayCursor(|t|, |t|, s.noEol))
  {
    var b := SearchEnded(s);
    HintDropped(b);
    if b.hint.Some? then (b.(hint := None), false)
    else if Continued(CurText(b)) then (NextLine(b), false)
    else (LineDone(b), true)
  }

  /** Dropping the completion hint keeps every invariant. */
  lemma HintDropped(s: EditorState)
    requires Valid(s)
    ensures Valid(s.(hint := None))
  {
    assert Autosuggestion(s.(hint := None)) == Autosuggestion(s);
  }

  /** A line ending in a backslash continues: a newline appended, the cursor after it. */
  function NextLine(s: EditorState): (r: EditorState)
    requires Valid(s) && !IsSearch(s)
    ensures Valid(r) && Keeps(s, r) && !IsSearch(r) && r.hint == s.hint
    ensures CurText(r) == CurText(s) + ['\n']
  {
    Commit(s, Pushed(Cur(s), '\n'), Plus(|CurText(s)|, 1))
  }

  /** The line is done: the cursor at the end and the line measured once more, without refreshing anything. */
  function LineDone(s: EditorState): (r: EditorState)
    requires Valid(s) && !IsSearch(s)
    ensures Valid(r) && Keeps(s, r) && !IsSearch(r) && r.hint == s.hint
    ensures CurText(r) == CurText(s) && r.cursor == Terms.DisplayCursor(|CurText(s)|, |CurText(s)|, s.noEol)
  {
    MeasureValid(s.(cursor := |CurText(s)|));
    Measure(s.(cursor := |CurText(s)|))
  }

  /** The start of `handle_newline`: a search's suggestion accepted, and the search ended. */
  function SearchEnded(s: EditorState): (r: EditorState)
    requires Valid(s)
    ensures Valid(r) && Keeps(s, r) && !IsSearch(r) && r.hint == s.hint
    ensures CurText(r) == if IsSearch(s) && s.autosuggestion.Some? then s.autosuggestion.value else CurText(s)
  {
    var a := if IsSearch(s) then AcceptAutosuggestion(s) else s;
    assert Autosuggestion(ClearSearch(a)) == Autosuggestion(a);
    ClearSearch(a)
  }

  /** `From<Editor> for String`: the text being edited (the recalled entry if no copy is made), exported. */
  function ToText(s: EditorState): (r: Text)
    requires Wf(s)
    ensures Ready(s) ==> r == Exported(CurText(s))
    ensures s.curHistoryLoc.None? ==> r == Exported(NewText(s))
  {
    match s.curHistoryLoc
    case Some(i) => Exported(if s.histBufValid then s.histBuf.data else s.items[i].buffer)
    case None => Exported(s.newBuf.data)
  }

  // ---------------------------------------------------------------------
  // Opening the editor

  /** The editor `new_with_init_buffer` builds before it moves the cursor and redraws: nothing recalled, no search, no hint. */
  function Initial(prompt: Prompts.Prompt, items: seq<HistoryItem>, ctx: Option<Text>, init: Text, width: nat): (r: EditorState)
    requires width > 0
    ensures Ready(r) && Settled(r) && CurText(r) == init && r.cursor == 0
  {
    EditorState(prompt, 0, Fresh(init), Fresh([]), false, None, items, ctx, 1, None, false,
                false, false, false, [], None, None, width)
  }

  /**
   * `new_with_init_buffer`: a non-empty initial text puts the cursor at
   * its end, then the first redraw.  The editor opens on the initial
   * text with the cursor after it, off the history, out of a search,
   * without a hint, and in insert (not no-eol) mode.
   */
  function Opened(prompt: Prompts.Prompt, items: seq<HistoryItem>, ctx: Option<Text>, init: Text, width: nat): (r: EditorState)
    requires width > 0
    ensures Valid(r) && r.prompt == prompt && r.items == items && r.searchContext == ctx && r.width == width
    ensures CurText(r) == init && r.cursor == |init| && r.curHistoryLoc.None? && !IsSearch(r) && r.hint.None? && !r.noEol
  {
    var s := Initial(prompt, items, ctx, init, width);
    Redisplay(if init != [] then MoveToEnd(s) else s)
  }

  // ---------------------------------------------------------------------
  // Completion

  /**
   * Deleting the word before the cursor and inserting a text replaces the
   * part of the word left of the cursor with the text (outside no-eol
   * mode), and leaves the cursor after it.
   */
  lemma WordReplaced(s: EditorState, text: Text)
    requires Settled(s) && !s.noEol
    ensures var d := DeleteWord(s, false);
      Settled(d) && var r := InsertChars(d, text);
      var w := WordBeforeCursor(CurText(s), s.cursor, false);
      var start := if w.Some? then w.value.0 else s.cursor;
      CurText(r) == CurText(s)[..start] + text + CurText(s)[s.cursor..] && r.cursor == start + |text|
  {
    var t, c := CurText(s), s.cursor;
    var w := WordBeforeCursor(t, c, false);
    var start := if w.Some? then w.value.0 else c;
    CutAndInsert(t, start, c, text);
  }

  /** Cutting `[start, c)` out of a text and inserting at `start` puts the insert in place of the cut. */
  lemma CutAndInsert(t: Text, start: nat, c: nat, text: Text)
    requires start <= c <= |t|
    ensures t[..start] + t[c..] == (if start == c then t else t[..start] + t[c..])
    ensures var d := t[..start] + t[c..];
      d[..start] + text + d[start..] == t[..start] + text + t[c..]
  {
    var d := t[..start] + t[c..];
    assert d[..start] == t[..start] && d[start..] == t[c..];
    if start == c {
      assert t == t[..c] + t[c..];
    }
  }

  /**
   * `complete` with a hint shown: the next candidate is highlighted and
   * replaces the previous one (the whole text, when it is exactly that
   * candidate; the word before the cursor otherwise).
   */
  function CycleCompletion(s: EditorState, h: Hint): (r: EditorState)
    requires Settled(s) && s.hint == Some(h) && HintOk(s.hint)
    ensures Valid(r) && Keeps(s, r) && IsSearch(r) == IsSearch(s)
    ensures r.hint == Some(Hint(h.completions, Some(NextHighlight(h))))
    ensures h.highlighted.Some? && CurText(s) == h.completions[h.highlighted.value] ==>
      CurText(r) == h.completions[NextHighlight(h)]
  {
    var i := NextHighlight(h);
    var s2 := InsertChars(ClearForNext(s, h), h.completions[i]);
    WithHint(s2, Some(Hint(h.completions, Some(i))));
    Redisplay(s2.(hint := Some(Hint(h.completions, Some(i)))))
  }

  /**
   * Cycling when the text is not the highlighted candidate: the next
   * candidate takes the place of the part of the word before the cursor
   * (outside no-eol mode), and the cursor lands after it.
   */
  lemma CycleReplacesWord(s: EditorState, h: Hint)
    requires Settled(s) && s.hint == Some(h) && HintOk(s.hint) && !s.noEol
    requires !(h.highlighted.Some? && CurText(s) == h.completions[h.highlighted.value])
    ensures var t := CurText(s);
      var w := WordBeforeCursor(t, s.cursor, false);
      var start := if w.Some? then w.value.0 else s.cursor;
      var r := CycleCompletion(s, h);
      CurText(r) == t[..start] + h.completions[NextHighlight(h)] + t[s.cursor..] &&
      r.cursor == start + |h.completions[NextHighlight(h)]|
  {
    WithHint(s, None);
    CycleAfterDelete(s, h);
    WordReplaced(s.(hint := None), h.completions[NextHighlight(h)]);
  }

  /** Cycling when the text is not the highlighted candidate: the word deleted, then the next candidate typed. */
  lemma CycleAfterDelete(s: EditorState, h: Hint)
    requires Settled(s) && s.hint == Some(h) && HintOk(s.hint) && !s.noEol && Settled(s.(hint := None))
    requires !(h.highlighted.Some? && CurText(s) == h.completions[h.highlighted.value])
    ensures var s2 := InsertChars(DeleteWord(s.(hint := None), false), h.completions[NextHighlight(h)]);
      var r := CycleCompletion(s, h);
      CurText(r) == CurText(s2) && r.cursor == s2.cursor
  {
    var s0 := s.(hint := None);
    assert ClearForNext(s, h) == DeleteWord(s0, false);
    var s2 := InsertChars(DeleteWord(s0, false), h.completions[NextHighlight(h)]);
    var hint := Some(Hint(h.completions, Some(NextHighlight(h))));
    WithHint(s2, hint);
  }

  /**
   * The first half of cycling: with the hint taken, the whole text is
   * cleared when it is exactly the highlighted candidate, and the word
   * before the cursor deleted otherwise.
   */
  function ClearForNext(s: EditorState, h: Hint): (r: EditorState)
    requires Settled(s) && s.hint == Some(h) && HintOk(s.hint)
    ensures Settled(r) && Keeps(s, r) && IsSearch(r) == IsSearch(s) && r.hint.None?
    ensures h.highlighted.Some? && CurText(s) == h.completions[h.highlighted.value] ==>
      CurText(r) == [] && r.cursor == 0
  {
    WithHint(s, None);
    var s0 := s.(hint := None);
    if h.highlighted.Some? && CurText(s) == h.completions[h.highlighted.value] then
      EditedSettled(s0, Truncated(Cur(s0), 0), 0);
      Edited(s0, Truncated(Cur(s0), 0), 0)
    else DeleteWord(s0, false)
  }

  /** The hint is not part of any invariant but its own bounds. */
  lemma WithHint(s: EditorState, h: Option<Hint>)
    requires Settled(s) && HintOk(h)
    ensures var r := s.(hint := h);
      Settled(r) && Cur(r) == Cur(s) && (Valid(s) ==> Valid(r))
  {
    assert Autosuggestion(s.(hint := h)) == Autosuggestion(s);
  }

  /**
   * `complete` without a hint: the candidates for the word before the
   * cursor, sorted without repeats.  None: nothing changes.  One: it
   * replaces the word.  Several: their longest common prefix replaces the
   * word when it extends it; otherwise they are shown as the hint.
   */
  function FreshCompletion(s: EditorState, handler: Text -> seq<Text>): (r: EditorState)
    requires Valid(s) && s.hint.None?
    ensures Valid(r) && Keeps(s, r) && IsSearch(r) == IsSearch(s)
    ensures var word := WordToComplete(CurText(s), s.cursor);
      var cs := SortedUnique(handler(word));
      (cs == [] ==> CurText(r) == CurText(s) && r.hint.None?) &&
      (|cs| == 1 ==> r.hint.None?) &&
      (|cs| >= 2 && !CanExtend(word, cs) ==> CurText(r) == CurText(s) && r.hint == Some(Hint(cs, None))) &&
      (|cs| >= 2 && CanExtend(word, cs) ==> r.hint.None?)
  {
    TouchedValid(s);
    var word := WordToComplete(CurText(s), s.cursor);
    Offered(Touched(s), word, SortedUnique(handler(word)))
  }

  /** What `complete` does with the candidates `cs` for `word`, once the text is marked changed. */
  function Offered(t: EditorState, word: Text, cs: seq<Text>): (r: EditorState)
    requires Valid(t) && t.hint.None?
    ensures Valid(r) && Keeps(t, r) && IsSearch(r) == IsSearch(t)
    ensures (cs == [] ==> r == t) && (|cs| == 1 ==> r.hint.None?)
    ensures |cs| >= 2 && !CanExtend(word, cs) ==> CurText(r) == CurText(t) && r.hint == Some(Hint(cs, None))
    ensures |cs| >= 2 && CanExtend(word, cs) ==> r.hint.None?
  {
    if cs == [] then t
    else if |cs| == 1 then InsertChars(DeleteWord(t, false), cs[0])
    else ExtendedOrShown(t, word, cs)
  }

  /** Several candidates: their longest common prefix replaces the word when it extends it; otherwise they are shown. */
  function ExtendedOrShown(t: EditorState, word: Text, cs: seq<Text>): (r: EditorState)
    requires Valid(t) && t.hint.None? && |cs| >= 2
    ensures Valid(r) && Keeps(t, r) && IsSearch(r) == IsSearch(t)
    ensures !CanExtend(word, cs) ==> CurText(r) == CurText(t) && r.hint == Some(Hint(cs, None))
    ensures CanExtend(word, cs) ==> r.hint.None?
  {
    ExtendByLongest(word, cs);
    var p := LongestCommonPrefix(cs);
    if |p| > |word| && word <= p then InsertChars(DeleteWord(t, false), p)
    else
      WithHint(t, Some(Hint(cs, None)));
      Redisplay(t.(hint := Some(Hint(cs, None))))
  }

  /** Marking the text changed keeps every invariant. */
  lemma TouchedValid(s: EditorState)
    requires Valid(s)
    ensures Valid(Touched(s)) && Cur(Touched(s)) == Cur(s) && Touched(s).hint == s.hint
  {
    assert Autosuggestion(Touched(s)) == Autosuggestion(s);
  }

  /** `complete`: cycle through the hint shown, or complete afresh. */
  function Complete(s: EditorState, handler: Text -> seq<Text>): (r: EditorState)
    requires Valid(s)
    ensures Valid(r) && Keeps(s, r) && IsSearch(r) == IsSearch(s)
  {
    match s.hint
    case Some(h) => CycleCompletion(s, h)
    case None => FreshCompletion(s, handler)
  }

  /**
   * Outside no-eol mode, a fresh completion with a single candidate leaves
   * the text around the word as it was, with the candidate in place of
   * the part of the word before the cursor.
   */
  lemma CompletionReplacesWord(s: EditorState, handler: Text -> seq<Text>)
    requires Valid(s) && s.hint.None? && !s.noEol
    requires |SortedUnique(handler(WordToComplete(CurText(s), s.cursor)))| == 1
    ensures var word := WordToComplete(CurText(s), s.cursor);
      var cs := SortedUnique(handler(word));
      var w := WordBeforeCursor(CurText(s), s.cursor, false);
      var start := if w.Some? then w.value.0 else s.cursor;
      CurText(FreshCompletion(s, handler)) == CurText(s)[..start] + cs[0] + CurText(s)[s.cursor..]
  {
    var word := WordToComplete(CurText(s), s.cursor);
    var cs := SortedUnique(handler(word));
    WordReplaced(Touched(s), cs[0]);
  }

  /**
   * When the candidates share a prefix longer than the word, a fresh
   * completion puts that prefix in place of the part of the word before
   * the cursor.
   */
  lemma CompletionExtendsWord(s: EditorState, handler: Text -> seq<Text>)
    requires Valid(s) && s.hint.None? && !s.noEol
    requires var word := WordToComplete(CurText(s), s.cursor);
      var cs := SortedUnique(handler(word));
      |cs| >= 2 && CanExtend(word, cs)
    ensures var word := WordToComplete(CurText(s), s.cursor);
      var cs := SortedUnique(handler(word));
      var w := WordBeforeCursor(CurText(s), s.cursor, false);
      var start := if w.Some? then w.value.0 else s.cursor;
      CurText(FreshCompletion(s, handler)) == CurText(s)[..start] + LongestCommonPrefix(cs) + CurText(s)[s.cursor..]
  {
    var word := WordToComplete(CurText(s), s.cursor);
    var cs := SortedUnique(handler(word));
    ExtendByLongest(word, cs);
    assert FreshCompletion(s, handler) == InsertChars(DeleteWord(Touched(s), false), LongestCommonPrefix(cs));
    WordReplaced(Touched(s), LongestCommonPrefix(cs));
  }
}
