/**
 * The line editor as an object: the prompt, the cursor, the line being
 * typed and the copy of a recalled history entry (two `Buffer`s), the
 * history it reads, the search, the completion hint and the
 * autosuggestion.  `State()` reads all of it as an `EditorState`, and
 * each method is proved to move that state exactly as the function of
 * the same name in `EditorModel` does; the properties of the editor are
 * proved there.  Terminal output is not modelled, and the terminal width
 * is fixed when the editor is made.
 */
module Editors {
  import opened Common
  import opened Buffers
  import opened Histories
  import Util
  import Prompts
  import Terminals
  import Terms
  import EditorRules
  import Cursors
  import opened EditorText
  import opened EditorModel
  import opened EditorSteps

  /** `find_longest_common_prefix` of several candidates: their longest common prefix, none when that is empty. */
  method CommonPrefixOf(completions: seq<Text>) returns (r: Option<Text>)
    requires |completions| >= 2
    ensures r.Some? ==> r.value == LongestCommonPrefix(completions) && r.value != []
    ensures r.None? ==> LongestCommonPrefix(completions) == []
  {
    r := Util.FindLongestCommonPrefix(completions);
    FoundPrefix(completions, r);
  }

  /** `remove` on one buffer, seen as a change of its value. */
  method RemoveFrom(b: Buffer, start: nat, end: nat) returns (removed: nat)
    requires RemoveRawOk(b.data, start, end)
    modifies b
    ensures b.Value() == Removed(old(b.Value()), start, end)
    ensures removed == |old(b.data)| - |b.data|
  {
    removed := b.Remove(start, end);
  }

  /** `move_cursor_left`'s arithmetic: the count cut to the units left of the cursor. */
  method LeftOf(cursor: nat, count: nat) returns (c: nat)
    ensures c == Minus(cursor, Min(count, cursor))
    ensures c <= cursor && (count <= cursor ==> c + count == cursor) && (count > cursor ==> c == 0)
  {
    var n := count;
    if n > cursor {
      n := cursor;
    }
    c := cursor - n;
  }

  /** `move_cursor_right`'s arithmetic: the count cut to the units right of the cursor. */
  method RightOf(cursor: nat, count: nat, len: nat) returns (c: nat)
    requires cursor <= len
    ensures c == Plus(cursor, Min(count, Minus(len, cursor)))
    ensures cursor <= c <= len && (cursor + count <= len ==> c == cursor + count) && (cursor + count > len ==> c == len)
  {
    var n := count;
    if n > len - cursor {
      n := len - cursor;
    }
    c := cursor + n;
  }

  /** `move_cursor_to`'s arithmetic: a position past the end clamped to it. */
  method Clamped(pos: nat, len: nat) returns (c: nat)
    ensures c == Min(pos, len)
    ensures c <= len && (pos <= len ==> c == pos)
  {
    c := pos;
    if c > len {
      c := len;
    }
  }

  class Editor {
    var prompt: Prompts.Prompt
    var cursor: nat
    /** The line being typed. */
    const newBuf: Buffer
    /** The copy of the recalled history entry, once it has been edited. */
    const histBuf: Buffer
    var histBufValid: bool
    /** The recalled history entry, none on the new line. */
    var curHistoryLoc: Option<nat>
    const history: History
    /** The row of the cursor, counted from the prompt's row as 1. */
    var termCursorLine: nat
    var showCompletionsHint: Option<Hint>
    /** The cursor may not sit after the last unit (vi normal mode). */
    var noEol: bool
    var reverseSearch: bool
    var forwardSearch: bool
    /** The text changed since the search index was built. */
    var bufferChanged: bool
    var historySubsetIndex: seq<nat>
    var historySubsetLoc: Option<nat>
    var autosuggestion: Option<Text>
    const termWidth: nat

    /** Everything the editor holds, with the history's entries and search context, as a value. */
    function State(): EditorState
      reads this, newBuf, histBuf, history
    {
      EditorState(prompt, cursor, newBuf.Value(), histBuf.Value(), histBufValid, curHistoryLoc,
                  history.buffers, history.searchContext, termCursorLine, showCompletionsHint, noEol,
                  reverseSearch, forwardSearch, bufferChanged, historySubsetIndex, historySubsetLoc,
                  autosuggestion, termWidth)
    }

    /** The two buffers are distinct objects, and the state keeps the editor's invariant. */
    ghost predicate Valid()
      reads this, newBuf, histBuf, history
    {
      newBuf != histBuf && EditorModel.Valid(State())
    }

    /**
     * `new_with_init_buffer`: only the prompt's last line is kept; the
     * initial text is the new line; a non-empty one puts the cursor at
     * its end; then the first redraw.
     */
    constructor (p: Prompts.Prompt, history: History, init: Text, termWidth: nat)
      requires termWidth > 0
      ensures Valid() && this.history == history && fresh(newBuf) && fresh(histBuf)
      ensures State() == Opened(Terminals.MakePrompt(p), history.buffers, history.searchContext, init, termWidth)
    {
      prompt, cursor, termCursorLine := Terminals.MakePrompt(p), 0, 1;
      var nb := new Buffer.FromText(init);
      var hb := new Buffer();
      assert nb.Value() == Fresh(init) && hb.Value() == Fresh([]);
      newBuf, histBuf := nb, hb;
      histBufValid, curHistoryLoc, showCompletionsHint, noEol := false, None, None, false;
      this.history := history;
      reverseSearch, forwardSearch, bufferChanged := false, false, false;
      historySubsetIndex, historySubsetLoc, autosuggestion := [], None, None;
      this.termWidth := termWidth;
      new;
      assert State() == Initial(prompt, history.buffers, history.searchContext, init, termWidth);
      FirstDisplay(history.buffers, history.searchContext, init);
    }

    /** The end of `new_with_init_buffer`: the cursor at the end of a non-empty initial text, then a redraw. */
    method FirstDisplay(items: seq<HistoryItem>, ctx: Option<Text>, init: Text)
      requires newBuf != histBuf && termWidth > 0 && State() == Initial(prompt, items, ctx, init, termWidth)
      modifies this
      ensures Valid() && State() == Opened(old(prompt), items, ctx, init, termWidth)
    {
      OpenedSteps(prompt, items, ctx, init, termWidth);
      if init != [] {
        MoveCursorToEndOfLine();
      }
      Display();
    }

    // -------------------------------------------------------------------
    // The buffer being edited, and redrawing

    /** `is_search`. */
    function Searching(): (r: bool)
      reads this
      ensures r == IsSearch(State())
    {
      reverseSearch || forwardSearch
    }

    /** The text being edited. */
    function Line(): (t: Text)
      reads this, newBuf, histBuf, history
      ensures t == CurText(State())
    {
      CurBuf().data
    }

    /** `cur_buf!` */
    function CurBuf(): Buffer
      reads this
    {
      if curHistoryLoc.Some? && histBufValid then histBuf else newBuf
    }

    /**
     * `cur_buf_mut!`: mark the text changed and hand out the buffer to
     * edit, copying the recalled entry into the copy on first use.
     */
    method CurBufMut() returns (b: Buffer)
      requires newBuf != histBuf && Wf(State())
      modifies this, histBuf
      ensures State() == Touched(old(State())) && b == CurBuf() && b.Value() == Cur(State())
    {
      bufferChanged := true;
      if curHistoryLoc.Some? {
        if !histBufValid {
          var entry := new Buffer.FromText(history.At(curHistoryLoc.value));
          var _ := histBuf.CopyBuffer(entry);
          histBufValid := true;
        }
        b := histBuf;
      } else {
        b := newBuf;
      }
    }

    /** `clear_search`. */
    method ClearSearch()
      modifies this
      ensures State() == EditorModel.ClearSearch(old(State()))
    {
      reverseSearch, forwardSearch, historySubsetLoc, historySubsetIndex := false, false, None, [];
    }

    /** `refresh_search`: index the entries containing the typed line and keep the place near the entry shown before. */
    method RefreshSearch(forward: bool)
      requires Wf(State())
      modifies this
      ensures State() == Refresh(old(State()), forward)
    {
      ghost var e := Refresh(State(), forward);
      var target := SearchEntry(historySubsetIndex, historySubsetLoc);
      var index := SearchIndex(history.buffers, newBuf.data);
      var loc := SelectLoc(index, target, forward);
      historySubsetIndex, historySubsetLoc := index, loc;
      reverseSearch, forwardSearch := !forward, forward;
      curHistoryLoc, histBufValid, bufferChanged := None, false, false;
      assert State() == e;
    }

    /** `current_autosuggestion`. */
    method CurrentAutosuggestion() returns (r: Option<Text>)
      requires Wf(State())
      ensures r == Autosuggestion(State())
    {
      if histBufValid || newBuf.data == [] {
        return None;
      }
      if reverseSearch || forwardSearch {
        var e := SearchEntry(historySubsetIndex, historySubsetLoc);
        r := if e.Some? then Some(history.At(e.value)) else None;
      } else if curHistoryLoc.Some? {
        r := Some(history.At(curHistoryLoc.value));
      } else {
        var m := history.GetNewestMatch(Some(|history.buffers|), newBuf.data);
        r := if m.Some? then Some(history.At(m.value)) else None;
      }
    }

    /** `display`: a search whose text changed is refreshed, the autosuggestion recomputed, and the cursor measured. */
    method Display()
      requires newBuf != histBuf && Ready(State())
      modifies this
      ensures State() == Redraw(old(State()))
    {
      PrepareReady(State());
      PrepareDisplay();
      MeasureDisplay();
    }

    /** The first half of `display`. */
    method PrepareDisplay()
      requires Wf(State())
      modifies this
      ensures State() == Prepare(old(State()))
    {
      if (reverseSearch || forwardSearch) && bufferChanged {
        RefreshSearch(forwardSearch);
      }
      autosuggestion := CurrentAutosuggestion();
    }

    /** `_display`'s measurements: the cursor clamped and its row recorded. */
    method MeasureDisplay()
      requires Wf(State()) && Fits(State())
      modifies this
      ensures State() == Measure(old(State()))
    {
      var c, row := MeasureRow(State());
      cursor, termCursorLine := c, row;
    }

    // -------------------------------------------------------------------
    // The buffer edits, each on the buffer `cur_buf_mut!` hands out

    /** `cur_buf_mut!(self).insert(at, t)`. */
    method EditInsert(at: nat, t: Text)
      requires newBuf != histBuf && Ready(State())
      modifies this, newBuf, histBuf
      ensures var s := old(State()); State() == SetCur(Touched(s), Inserted(Cur(s), at, t))
    {
      NoCopyPending(State());
      var b := CurBufMut();
      var _ := b.Insert(at, t);
    }

    /** `cur_buf_mut!(self).remove(start, end)`, returning how many units went. */
    method EditRemove(start: nat, end: nat) returns (removed: nat)
      requires newBuf != histBuf && Ready(State()) && RemoveRawOk(Line(), start, end)
      modifies this, newBuf, histBuf
      ensures var s := old(State()); State() == SetCur(Touched(s), Removed(Cur(s), start, end))
      ensures var s := old(State()); removed == |CurText(s)| - |Removed(Cur(s), start, end).data|
    {
      NoCopyPending(State());
      var b := CurBufMut();
      removed := RemoveFrom(b, start, end);
    }

    /** `cs` inserted at the cursor, and the cursor moved past it. */
    method InsertAndPlace(cs: Text)
      requires newBuf != histBuf && Ready(State())
      modifies this, newBuf, histBuf
      ensures var s := old(State()); State() == Edited(s, Inserted(Cur(s), s.cursor, cs), Plus(s.cursor, |cs|))
    {
      EditInsert(cursor, cs);
      cursor := cursor + |cs|;
    }

    /** The unit before the cursor removed, and the cursor moved back over it. */
    method RemoveOneBefore()
      requires newBuf != histBuf && Ready(State()) && cursor > 0
      modifies this, newBuf, histBuf
      ensures var s := old(State()); State() == Edited(s, Removed(Cur(s), Minus(s.cursor, 1), s.cursor), Minus(s.cursor, 1))
    {
      RemoveAndPlace(cursor - 1, cursor, cursor - 1);
    }

    /** `[start, end)` removed and the cursor put at `c`. */
    method RemoveAndPlace(start: nat, end: nat, c: nat)
      requires newBuf != histBuf && Ready(State()) && RemoveRawOk(Line(), start, end)
      modifies this, newBuf, histBuf
      ensures var s := old(State()); State() == Edited(s, Removed(Cur(s), start, end), c)
    {
      var _ := EditRemove(start, end);
      cursor := c;
    }

    /** `[start, cursor)` removed, and the cursor moved back by what went. */
    method RemoveBeforeCursor(start: nat)
      requires newBuf != histBuf && Ready(State()) && start <= cursor <= |Line()|
      modifies this, newBuf, histBuf
      ensures var s := old(State()); State() == Edited(s, Removed(Cur(s), start, s.cursor), start)
    {
      RemovedText(Line(), start, cursor);
      var moved := EditRemove(start, cursor);
      cursor := cursor - moved;
    }

    /** `cur_buf_mut!(self).truncate(n)`. */
    method EditTruncate(n: nat)
      requires newBuf != histBuf && Ready(State())
      modifies this, newBuf, histBuf
      ensures var s := old(State()); State() == SetCur(Touched(s), Truncated(Cur(s), n))
    {
      NoCopyPending(State());
      var b := CurBufMut();
      b.Truncate(n);
    }

    /** `cur_buf_mut!(self).push(ch)`. */
    method EditPush(ch: char)
      requires newBuf != histBuf && Ready(State())
      modifies this, newBuf, histBuf
      ensures var s := old(State()); State() == SetCur(Touched(s), Pushed(Cur(s), ch))
    {
      NoCopyPending(State());
      var b := CurBufMut();
      b.Push(ch);
    }

    /** `cur_buf_mut!(self).start_undo_group()`. */
    method EditStartGroup()
      requires newBuf != histBuf && Ready(State())
      modifies this, newBuf, histBuf
      ensures var s := old(State()); State() == SetCur(Touched(s), GroupStarted(Cur(s)))
    {
      NoCopyPending(State());
      var b := CurBufMut();
      b.StartUndoGroup();
    }

    /** `cur_buf_mut!(self).end_undo_group()`. */
    method EditEndGroup()
      requires newBuf != histBuf && Ready(State())
      modifies this, newBuf, histBuf
      ensures var s := old(State()); State() == SetCur(Touched(s), GroupEnded(Cur(s)))
    {
      NoCopyPending(State());
      var b := CurBufMut();
      b.EndUndoGroup();
    }

    /** `cur_buf_mut!(self).undo()`. */
    method EditUndo() returns (did: bool)
      requires newBuf != histBuf && Ready(State())
      modifies this, newBuf, histBuf
      ensures var s := old(State()); State() == SetCur(Touched(s), Undone(Cur(s)).0) && did == Undone(Cur(s)).1.Some?
    {
      NoCopyPending(State());
      var b := CurBufMut();
      var pos := b.Undo();
      did := pos.Some?;
    }

    /** `cur_buf_mut!(self).redo()`. */
    method EditRedo() returns (did: bool)
      requires newBuf != histBuf && Ready(State())
      modifies this, newBuf, histBuf
      ensures var s := old(State()); State() == SetCur(Touched(s), Redone(Cur(s)).0) && did == Redone(Cur(s)).1.Some?
    {
      NoCopyPending(State());
      var b := CurBufMut();
      var pos := b.Redo();
      did := pos.Some?;
    }

    /** `cur_buf_mut!(self).revert()`. */
    method EditRevert() returns (did: bool)
      requires newBuf != histBuf && Ready(State())
      modifies this, newBuf, histBuf
      ensures var s := old(State()); State() == SetCur(Touched(s), Reverted(Cur(s)).0) && did == Reverted(Cur(s)).1
    {
      NoCopyPending(State());
      var b := CurBufMut();
      did := b.Revert();
    }

    /** The edit of `accept_autosuggestion`: the suggestion copied in during a search, its rest appended otherwise. */
    method EditAccept()
      requires Valid()
      modifies this, newBuf, histBuf
      ensures var s := old(State()); State() == SetCur(Touched(s), Accepted(s))
    {
      AutosuggestionMeaning(State());
      NoCopyPending(State());
      var suggestion := autosuggestion;
      var search := Searching();
      var b := CurBufMut();
      if suggestion.Some? {
        if search {
          var copy := new Buffer.FromText(suggestion.value);
          var _ := b.CopyBuffer(copy);
        } else {
          var _ := b.Insert(|b.data|, suggestion.value[|b.data|..]);
        }
      }
    }

    // -------------------------------------------------------------------
    // Edits at the cursor

    /** `insert_chars_after_cursor` (and `insert_str_after_cursor`, `insert_after_cursor`). */
    method InsertCharsAfterCursor(cs: Text)
      requires newBuf != histBuf && Settled(State())
      modifies this, newBuf, histBuf
      ensures Valid() && State() == InsertChars(old(State()), cs)
    {
      InsertCharsSteps(State(), cs);
      InsertAndPlace(cs);
      Display();
    }

    /** `delete_before_cursor`. */
    method DeleteBeforeCursor()
      requires newBuf != histBuf && Settled(State())
      modifies this, newBuf, histBuf
      ensures Valid() && State() == DeleteBefore(old(State()))
    {
      DeleteBeforeSteps(State());
      if cursor > 0 {
        RemoveOneBefore();
      }
      Display();
    }

    /** `delete_after_cursor`. */
    method DeleteAfterCursor()
      requires newBuf != histBuf && Settled(State())
      modifies this, newBuf, histBuf
      ensures Valid() && State() == DeleteAfter(old(State()))
    {
      if cursor < |Line()| {
        DeleteUnderCursor();
      } else {
        DeleteAfterSteps(State());
        var _ := CurBufMut();
        Display();
      }
    }

    /** The unit under the cursor removed, and a redraw. */
    method DeleteUnderCursor()
      requires newBuf != histBuf && Settled(State()) && cursor < |Line()|
      modifies this, newBuf, histBuf
      ensures Valid() && State() == DeleteAfter(old(State()))
    {
      DeleteUnderSteps(State());
      var _ := EditRemove(cursor, Plus(cursor, 1));
      Display();
    }

    /** `delete_all_before_cursor`. */
    method DeleteAllBeforeCursor()
      requires newBuf != histBuf && Settled(State())
      modifies this, newBuf, histBuf
      ensures Valid() && State() == DeleteAllBefore(old(State()))
    {
      DeleteAllBeforeSteps(State());
      RemoveAndPlace(0, cursor, 0);
      Display();
    }

    /** `delete_all_after_cursor`. */
    method DeleteAllAfterCursor()
      requires newBuf != histBuf && Settled(State())
      modifies this, newBuf, histBuf
      ensures Valid() && State() == DeleteAllAfter(old(State()))
    {
      DeleteAllAfterSteps(State());
      EditTruncate(cursor);
      Display();
    }

    /** `delete_until`. */
    method DeleteUntil(position: nat)
      requires newBuf != histBuf && Settled(State())
      modifies this, newBuf, histBuf
      ensures Valid() && State() == EditorModel.DeleteUntil(old(State()), position)
    {
      DeleteUntilSteps(State(), position);
      RemoveAndPlace(Min(cursor, position), Max(cursor, position), Min(cursor, position));
      Display();
    }

    /** `delete_until_inclusive`; a range reaching past the text must not start past it. */
    method DeleteUntilInclusive(position: nat)
      requires newBuf != histBuf && Settled(State())
      requires RemoveRawOk(CurText(State()), Min(cursor, position), Max(cursor + 1, position + 1))
      modifies this, newBuf, histBuf
      ensures Valid() && State() == EditorModel.DeleteUntilInclusive(old(State()), position)
    {
      DeleteUntilInclusiveSteps(State(), position);
      var end := Max(cursor + 1, position + 1);
      assert end == Max(Plus(cursor, 1), Plus(position, 1));
      RemoveAndPlace(Min(cursor, position), end, Min(cursor, position));
      Display();
    }

    /** `delete_word_before_cursor`. */
    method DeleteWordBeforeCursor(ignoreSpaceBeforeCursor: bool)
      requires newBuf != histBuf && Settled(State())
      modifies this, newBuf, histBuf
      ensures Valid() && State() == DeleteWord(old(State()), ignoreSpaceBeforeCursor)
    {
      DeleteWordSteps(State(), ignoreSpaceBeforeCursor);
      var w := WordBeforeCursor(Line(), cursor, ignoreSpaceBeforeCursor);
      DeleteFoundWord(w);
    }

    /** The rest of `delete_word_before_cursor` once the word `w` before the cursor is found. */
    method DeleteFoundWord(w: Option<Span>)
      requires newBuf != histBuf && Settled(State()) && (w.Some? ==> w.value.0 < cursor)
      modifies this, newBuf, histBuf
      ensures Valid() && State() == DeleteWordAt(old(State()), w)
    {
      if w.Some? {
        DeleteWordSpan(w.value);
      } else {
        NoWordSteps(State());
        Display();
      }
    }

    /** The word `w` before the cursor removed up to the cursor, and a redraw. */
    method DeleteWordSpan(w: Span)
      requires newBuf != histBuf && Settled(State()) && w.0 < cursor
      modifies this, newBuf, histBuf
      ensures Valid() && State() == DeleteWordAt(old(State()), Some(w))
    {
      DeleteWordAtSteps(State(), w);
      RemoveBeforeCursor(w.0);
      Display();
    }

    // -------------------------------------------------------------------
    // Cursor moves

    /** `move_cursor_left`. */
    method MoveCursorLeft(count: nat)
      requires newBuf != histBuf && Settled(State())
      modifies this
      ensures Valid() && State() == MoveLeft(old(State()), count)
    {
      ghost var s := State();
      MoveLeftSteps(s, count);
      var c := LeftOf(cursor, count);
      SetCursor(c);
      Display();
    }

    /** `move_cursor_right`. */
    method MoveCursorRight(count: nat)
      requires newBuf != histBuf && Settled(State())
      modifies this
      ensures Valid() && State() == MoveRight(old(State()), count)
    {
      ghost var s := State();
      MoveRightSteps(s, count);
      var c := RightOf(cursor, count, |Line()|);
      SetCursor(c);
      Display();
    }

    /** `move_cursor_to`. */
    method MoveCursorTo(pos: nat)
      requires newBuf != histBuf && Settled(State())
      modifies this
      ensures Valid() && State() == MoveTo(old(State()), pos)
    {
      ghost var s := State();
      MoveToSteps(s, pos);
      var c := Clamped(pos, |Line()|);
      SetCursor(c);
      Display();
    }

    /** `move_cursor_to_start_of_line`. */
    method MoveCursorToStartOfLine()
      requires newBuf != histBuf && Settled(State())
      modifies this
      ensures Valid() && State() == MoveToStart(old(State()))
    {
      ghost var s := State();
      MoveToStartSteps(s);
      SetCursor(0);
      Display();
    }

    /** `move_cursor_to_end_of_line`. */
    method MoveCursorToEndOfLine()
      requires newBuf != histBuf && Ready(State())
      modifies this
      ensures Valid() && State() == MoveToEnd(old(State()))
    {
      ghost var s := State();
      MoveToEndSteps(s);
      SetCursor(|Line()|);
      Display();
    }

    /** `cursor_is_at_end_of_line`, without the underflow on an empty text in no-eol mode. */
    function CursorIsAtEndOfLine(): (r: bool)
      reads this, newBuf, histBuf, history
      ensures r == AtEndOfLine(State())
    {
      var n := |Line()|;
      if noEol then n > 0 && cursor == n - 1 else cursor == n
    }

    // -------------------------------------------------------------------
    // Undo

    /** `undo`: reports whether anything was undone. */
    method Undo() returns (did: bool)
      requires newBuf != histBuf && Settled(State())
      modifies this, newBuf, histBuf
      ensures Valid() && State() == EditorModel.Undo(old(State())).0 && did == EditorModel.Undo(old(State())).1
    {
      UndoSteps(State());
      did := EditUndo();
      if did {
        MoveCursorToEndOfLine();
      } else {
        Display();
      }
    }

    /** `redo`: reports whether anything was redone. */
    method Redo() returns (did: bool)
      requires newBuf != histBuf && Settled(State())
      modifies this, newBuf, histBuf
      ensures Valid() && State() == EditorModel.Redo(old(State())).0 && did == EditorModel.Redo(old(State())).1
    {
      RedoSteps(State());
      did := EditRedo();
      if did {
        MoveCursorToEndOfLine();
      } else {
        Display();
      }
    }

    /** `revert`: reports whether there was anything to revert. */
    method Revert() returns (did: bool)
      requires newBuf != histBuf && Settled(State())
      modifies this, newBuf, histBuf
      ensures Valid() && State() == EditorModel.Revert(old(State())).0 && did == EditorModel.Revert(old(State())).1
    {
      RevertSteps(State());
      did := EditRevert();
      if did {
        MoveCursorToEndOfLine();
      } else {
        Display();
      }
    }

    // -------------------------------------------------------------------
    // The incremental search and the history

    /** `search`: start a search, or step to the next match, round from the last to the first. */
    method Search(forward: bool)
      requires newBuf != histBuf && Settled(State())
      modifies this
      ensures Valid() && State() == EditorModel.Search(old(State()), forward)
    {
      if !Searching() {
        SearchSteps(State(), forward);
        RefreshSearch(forward);
        Display();
      } else {
        StepSearch(forward);
      }
    }

    /** A search under way moves to its next match, if it has any, and is drawn again. */
    method StepSearch(forward: bool)
      requires newBuf != histBuf && Settled(State()) && Searching()
      modifies this
      ensures Valid() && State() == EditorModel.Search(old(State()), forward)
    {
      SearchSteps(State(), forward);
      if historySubsetIndex != [] {
        var loc := NextSearchLoc(forward);
        SetSubset(historySubsetIndex, loc);
      }
      Display();
    }

    /** The next match of a search with matches, round from the last to the first (or back from the first to the last). */
    method NextSearchLoc(forward: bool) returns (loc: Option<nat>)
      requires Wf(State()) && historySubsetIndex != []
      ensures loc == SearchStep(historySubsetLoc, |historySubsetIndex|, forward)
    {
      loc := historySubsetLoc;
      if loc.Some? {
        var p := loc.value;
        if forward {
          loc := if p < |historySubsetIndex| - 1 then Some(p + 1) else Some(0);
        } else {
          loc := if p > 0 then Some(p - 1) else Some(|historySubsetIndex| - 1);
        }
      }
    }

    /** Where `move_up` goes: on a typed line the previous entry of its subset (made on the first step), else the next older entry. */
    method OlderPlace() returns (p: Place)
      requires Wf(State())
      ensures p == UpPlace(State())
    {
      p := Place(curHistoryLoc, historySubsetIndex, historySubsetLoc);
      if |newBuf.data| > 0 {
        if historySubsetLoc.Some? {
          var i := historySubsetLoc.value;
          if i > 0 {
            p := Place(Some(historySubsetIndex[i - 1]), historySubsetIndex, Some(i - 1));
          }
        } else {
          var subset := history.GetHistorySubset(newBuf.data);
          if subset != [] {
            p := Place(Some(subset[|subset| - 1]), subset, Some(|subset| - 1));
          } else {
            p := Place(curHistoryLoc, subset, None);
          }
        }
      } else if curHistoryLoc.Some? {
        if curHistoryLoc.value > 0 {
          p := p.(loc := Some(curHistoryLoc.value - 1));
        }
      } else if !history.IsEmpty() {
        p := p.(loc := Some(history.Len() - 1));
      }
    }

    /** Where `move_down` goes: the next entry of the subset, or the next newer entry, and past the end back to the typed line. */
    method NewerPlace() returns (p: Place)
      requires Wf(State())
      ensures p == DownPlace(State())
    {
      p := Place(curHistoryLoc, historySubsetIndex, historySubsetLoc);
      if |newBuf.data| > 0 {
        if historySubsetLoc.Some? {
          var i := historySubsetLoc.value;
          if i < |historySubsetIndex| - 1 {
            p := Place(Some(historySubsetIndex[i + 1]), historySubsetIndex, Some(i + 1));
          } else {
            p := Place(None, [], None);
          }
        }
      } else if curHistoryLoc.Some? && curHistoryLoc.value < history.Len() - 1 {
        p := p.(loc := Some(curHistoryLoc.value + 1));
      } else {
        p := p.(loc := None);
      }
    }

    /** The end of every history move: the copy dropped, the place taken, a copy of the entry made, the cursor at its end. */
    method Recall(p: Place)
      requires newBuf != histBuf && Settled(State()) && !Searching()
      requires p.loc.Some? ==> p.loc.value < |history.buffers|
      requires p.subsetLoc.Some? ==> p.subsetLoc.value < |p.subset|
      requires forall k | 0 <= k < |p.subset| :: p.subset[k] < |history.buffers|
      modifies this, histBuf
      ensures Valid() && State() == EditorModel.Recall(old(State()), p)
    {
      RecallSteps(State(), p);
      SetSubset(p.subset, p.subsetLoc);
      GoTo(p.loc);
      MoveCursorToEndOfLine();
    }

    /** The copy dropped, the entry at `loc` (or the new line) taken, and `cur_buf_mut!` run on it. */
    method GoTo(loc: Option<nat>)
      requires newBuf != histBuf && Wf(State()) && (loc.Some? ==> loc.value < |history.buffers|)
      modifies this, histBuf
      ensures newBuf != histBuf && State() == Touched(old(State()).(histBufValid := false, curHistoryLoc := loc))
    {
      Leave(loc);
      var _ := CurBufMut();
    }

    /** The copy of the recalled entry dropped and the place in the history set to `loc`; nothing else changed. */
    method Leave(loc: Option<nat>)
      modifies this
      ensures State() == old(State()).(histBufValid := false, curHistoryLoc := loc)
    {
      ghost var e := State().(histBufValid := false, curHistoryLoc := loc);
      histBufValid, curHistoryLoc := false, loc;
      assert State() == e;
    }

    /** The matching entries and the place among them set; nothing else changed. */
    method SetSubset(subset: seq<nat>, subsetLoc: Option<nat>)
      modifies this
      ensures State() == old(State()).(index := subset, subsetLoc := subsetLoc)
    {
      ghost var e := State().(index := subset, subsetLoc := subsetLoc);
      historySubsetIndex, historySubsetLoc := subset, subsetLoc;
      assert State() == e;
    }

    /** `move_up`. */
    method MoveUp()
      requires newBuf != histBuf && Settled(State())
      modifies this, histBuf
      ensures Valid() && State() == EditorModel.MoveUp(old(State()))
    {
      MoveUpSteps(State());
      if Searching() {
        Search(false);
      } else {
        var p := OlderPlace();
        Recall(p);
      }
    }

    /** `move_down`. */
    method MoveDown()
      requires newBuf != histBuf && Settled(State())
      modifies this, histBuf
      ensures Valid() && State() == EditorModel.MoveDown(old(State()))
    {
      MoveDownSteps(State());
      if Searching() {
        Search(true);
      } else {
        var p := NewerPlace();
        Recall(p);
      }
    }

    /** `move_to_start_of_history`. */
    method MoveToStartOfHistory()
      requires newBuf != histBuf && Settled(State())
      modifies this, histBuf
      ensures Valid() && State() == EditorModel.MoveToStartOfHistory(old(State()))
    {
      ghost var s := State();
      MoveToStartOfHistorySteps(s);
      if history.IsEmpty() {
        Leave(None);
        Display();
      } else {
        GoTo(Some(0));
        MoveCursorToEndOfLine();
      }
    }

    /** `move_to_end_of_history`. */
    method MoveToEndOfHistory()
      requires newBuf != histBuf && Settled(State())
      modifies this
      ensures Valid() && State() == EditorModel.MoveToEndOfHistory(old(State()))
    {
      ghost var s := State();
      MoveToEndOfHistorySteps(s);
      if curHistoryLoc.Some? {
        Leave(None);
        MoveCursorToEndOfLine();
      } else {
        Leave(None);
        Display();
      }
    }

    /** `clear`. */
    method Clear()
      requires newBuf != histBuf && Settled(State())
      modifies this
      ensures Valid() && State() == EditorModel.Clear(old(State()))
    {
      ClearSteps(State());
      termCursorLine := 1;
      ClearSearch();
      Display();
    }

    // -------------------------------------------------------------------
    // Accepting a line

    /** `accept_autosuggestion`. */
    method AcceptAutosuggestion()
      requires Valid()
      modifies this, newBuf, histBuf
      ensures Valid() && State() == EditorModel.AcceptAutosuggestion(old(State()))
    {
      AcceptAutosuggestionSteps(State());
      EditAccept();
      ClearSearch();
      MoveCursorToEndOfLine();
    }

    /** `handle_newline`: reports whether the line is done. */
    method HandleNewline() returns (done: bool)
      requires Valid()
      modifies this, newBuf, histBuf
      ensures Valid() && State() == EditorModel.HandleNewline(old(State())).0
      ensures done == EditorModel.HandleNewline(old(State())).1
    {
      HandleNewlineSteps(State());
      EndSearch();
      done := NewlineOutOfSearch();
    }

    /** The rest of `handle_newline`: a shown hint is dropped; a line ending in a backslash goes on; any other is done. */
    method NewlineOutOfSearch() returns (done: bool)
      requires Valid() && !Searching()
      modifies this, newBuf, histBuf
      ensures Valid() && (State(), done) == Newline(old(State()))
    {
      if showCompletionsHint.Some? {
        HintDropped(State());
        DropHint();
        return false;
      }
      if Continued(Line()) {
        ContinueLine();
        done := false;
      } else {
        FinishLine();
        DropHint();
        done := true;
      }
    }

    /** The start of `handle_newline`: a search's suggestion accepted, and the search ended. */
    method EndSearch()
      requires Valid()
      modifies this, newBuf, histBuf
      ensures Valid() && State() == SearchEnded(old(State()))
    {
      SearchEndedSteps(State());
      if Searching() {
        AcceptAutosuggestion();
      }
      ClearSearch();
    }

    /** A line ending in a backslash goes on: a newline pushed, the cursor after it, and a redraw. */
    method ContinueLine()
      requires Valid() && !Searching()
      modifies this, newBuf, histBuf
      ensures Valid() && State() == NextLine(old(State()))
    {
      ghost var s := State();
      NextLineSteps(s);
      EditPush('\n');
      SetCursor(|Line()|);
      Display();
    }

    /** The cursor put at `c`, nothing else changed. */
    method SetCursor(c: nat)
      modifies this
      ensures State() == old(State()).(cursor := c)
    {
      ghost var e := State().(cursor := c);
      cursor := c;
      assert State() == e;
    }

    /** The line is done: the cursor at its end and the line measured once more. */
    method FinishLine()
      requires Valid() && !Searching()
      modifies this
      ensures Valid() && State() == LineDone(old(State()))
    {
      LineDoneSteps(State());
      SetCursor(|Line()|);
      MeasureDisplay();
    }

    // -------------------------------------------------------------------
    // Completion

    /** `complete`: cycle through the hint shown, or complete the word before the cursor afresh. */
    method Complete(handler: Text -> seq<Text>)
      requires Valid()
      modifies this, newBuf, histBuf
      ensures Valid() && State() == EditorModel.Complete(old(State()), handler)
    {
      if showCompletionsHint.Some? {
        CycleCompletions(showCompletionsHint.value);
      } else {
        CompleteFresh(handler);
      }
    }

    /** `complete` with a hint shown: the next candidate highlighted and put in place of the previous one. */
    method CycleCompletions(h: Hint)
      requires newBuf != histBuf && Settled(State()) && showCompletionsHint == Some(h)
      modifies this, newBuf, histBuf
      ensures Valid() && State() == CycleCompletion(old(State()), h)
    {
      CycleCompletionSteps(State(), h);
      var i := NextHighlight(h);
      ClearCandidate(h);
      InsertCharsAfterCursor(h.completions[i]);
      ShowHint(Hint(h.completions, Some(i)));
    }

    /** The hint taken, then the whole text cleared when it is exactly the highlighted candidate, else the word before the cursor deleted. */
    method ClearCandidate(h: Hint)
      requires newBuf != histBuf && Settled(State()) && showCompletionsHint == Some(h)
      modifies this, newBuf, histBuf
      ensures newBuf != histBuf && State() == ClearForNext(old(State()), h)
    {
      ClearForNextSteps(State(), h);
      DropHint();
      if h.highlighted.Some? && Line() == h.completions[h.highlighted.value] {
        ClearLine();
      } else {
        DeleteWordBeforeCursor(false);
      }
    }

    /** The hint shown taken away, and nothing else changed. */
    method DropHint()
      modifies this
      ensures State() == old(State()).(hint := None)
    {
      ghost var e := State().(hint := None);
      showCompletionsHint := None;
      assert State() == e;
    }

    /** `complete` without a hint: the sorted, deduplicated candidates replace the word, extend it, or are shown. */
    method CompleteFresh(handler: Text -> seq<Text>)
      requires Valid() && showCompletionsHint.None?
      modifies this, newBuf, histBuf
      ensures Valid() && State() == FreshCompletion(old(State()), handler)
    {
      FreshCompletionSteps(State(), handler);
      var word := WordToComplete(Line(), cursor);
      var _ := CurBufMut();
      var completions := SortedUnique(handler(word));
      OfferCompletions(word, completions);
    }

    /** The candidates, sorted and without repeats: none leaves the text, one replaces the word, several extend it by their common prefix or are shown. */
    method OfferCompletions(word: Text, completions: seq<Text>)
      requires Valid() && showCompletionsHint.None?
      modifies this, newBuf, histBuf
      ensures Valid() && State() == Offered(old(State()), word, completions)
    {
      if completions == [] {
        DropHint();
      } else if |completions| == 1 {
        ReplaceWithSole(completions[0]);
      } else {
        ExtendOrShow(word, completions);
      }
    }

    /** A sole candidate replaces the word before the cursor. */
    method ReplaceWithSole(c: Text)
      requires Valid() && showCompletionsHint.None?
      modifies this, newBuf, histBuf
      ensures Valid() && State() == InsertChars(DeleteWord(old(State()), false), c)
    {
      DropHint();
      ReplaceWord(c);
    }

    /** Several candidates: their longest common prefix replaces the word when it extends it; otherwise they are shown as the hint. */
    method ExtendOrShow(word: Text, completions: seq<Text>)
      requires Valid() && showCompletionsHint.None? && |completions| >= 2
      modifies this, newBuf, histBuf
      ensures Valid() && State() == Offered(old(State()), word, completions)
    {
      var common := CommonPrefixOf(completions);
      if common.Some? && |common.value| > |word| && word <= common.value {
        ExtendWord(word, completions, common.value);
      } else {
        ShowCandidates(word, completions);
      }
    }

    /** The word replaced by the candidates' longest common prefix, which extends it. */
    method ExtendWord(word: Text, completions: seq<Text>, prefix: Text)
      requires Valid() && showCompletionsHint.None? && |completions| >= 2
      requires prefix == LongestCommonPrefix(completions) && |prefix| > |word| && word <= prefix
      modifies this, newBuf, histBuf
      ensures Valid() && State() == Offered(old(State()), word, completions)
    {
      OfferedSteps(State(), word, completions);
      ReplaceWord(prefix);
    }

    /** No common prefix extends the word: the candidates are shown as the hint. */
    method ShowCandidates(word: Text, completions: seq<Text>)
      requires Valid() && showCompletionsHint.None? && |completions| >= 2
      requires var p := LongestCommonPrefix(completions); !(|p| > |word| && word <= p)
      modifies this
      ensures Valid() && State() == Offered(old(State()), word, completions)
    {
      OfferedSteps(State(), word, completions);
      ShowHint(Hint(completions, None));
    }

    /** The hint set, and a redraw. */
    method ShowHint(h: Hint)
      requires Valid() && HintOk(Some(h))
      modifies this
      ensures Valid() && State() == Redraw(old(State()).(hint := Some(h)))
    {
      ghost var e := State().(hint := Some(h));
      WithHint(State(), Some(h));
      RedrawValid(e);
      showCompletionsHint := Some(h);
      assert State() == e;
      Display();
    }

    /** The whole text cut and the cursor put at its start. */
    method ClearLine()
      requires newBuf != histBuf && Ready(State())
      modifies this, newBuf, histBuf
      ensures var s := old(State()); State() == Edited(s, Truncated(Cur(s), 0), 0)
    {
      EditTruncate(0);
      cursor := 0;
    }

    /** The word before the cursor replaced by a candidate. */
    method ReplaceWord(text: Text)
      requires newBuf != histBuf && Settled(State())
      modifies this, newBuf, histBuf
      ensures Valid() && State() == InsertChars(DeleteWord(old(State()), false), text)
    {
      DeleteWordBeforeCursor(false);
      InsertCharsAfterCursor(text);
    }

    /** `get_words_and_cursor_position`: the words of the text, and where the cursor is among them. */
    method GetWordsAndCursorPosition() returns (words: seq<Span>, pos: Cursors.CursorPosition)
      ensures words == EditorRules.Words(Line()) && pos == Cursors.Position(cursor, words)
    {
      words := EditorRules.DivideWordsBySpace(CurBuf().data);
      pos := Cursors.Get(cursor, words);
    }

    /** `skip_completions_hint`. */
    method SkipCompletionsHint()
      requires Valid()
      modifies this
      ensures Valid() && State() == old(State()).(hint := None)
    {
      HintDropped(State());
      showCompletionsHint := None;
    }

    /** `From<Editor> for String`: the text being edited (the recalled entry if no copy is made), exported. */
    method IntoString() returns (r: Text)
      requires Wf(State())
      ensures r == ToText(State())
    {
      var b: Buffer;
      if curHistoryLoc.Some? {
        if histBufValid {
          b := histBuf;
        } else {
          b := new Buffer.FromText(history.At(curHistoryLoc.value));
        }
      } else {
        b := newBuf;
      }
      r := b.IntoString();
    }
  }
}
