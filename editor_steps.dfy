/**
 * Each operation of `EditorModel` taken apart into the steps the
 * `Editor` class performs: the edit of the buffer `cur_buf_mut!` hands
 * out, the fields set, and the redraw that ends it.  The class's methods
 * follow these steps one by one; the properties of the operations are
 * proved in `EditorModel`.
 */
module EditorSteps {
  import opened Common
  import opened Buffers
  import Prompts
  import Histories
  import Util
  import opened EditorText
  import opened EditorModel

  // ---------------------------------------------------------------------
  // Opening and redrawing

  lemma OpenedSteps(prompt: Prompts.Prompt, items: seq<Histories.HistoryItem>, ctx: Option<Text>, init: Text, width: nat)
    requires width > 0
    ensures var s := Initial(prompt, items, ctx, init, width);
      Opened(prompt, items, ctx, init, width) == Redraw(if init != [] then MoveToEnd(s) else s)
  {
  }

  lemma MoveToEndSteps(s: EditorState)
    requires Ready(s)
    ensures var e := s.(cursor := |CurText(s)|);
      Ready(e) && MoveToEnd(s) == Redraw(e)
  {
  }

  // ---------------------------------------------------------------------
  // Edits

  lemma InsertCharsSteps(s: EditorState, cs: Text)
    requires Settled(s)
    ensures var e := Edited(s, Inserted(Cur(s), s.cursor, cs), Plus(s.cursor, |cs|));
      Ready(e) && InsertChars(s, cs) == Redraw(e)
  {
    EditedSettled(s, Inserted(Cur(s), s.cursor, cs), Plus(s.cursor, |cs|));
  }

  lemma DeleteBeforeSteps(s: EditorState)
    requires Settled(s)
    ensures s.cursor > 0 ==>
      var e := Edited(s, Removed(Cur(s), Minus(s.cursor, 1), s.cursor), Minus(s.cursor, 1));
      Ready(e) && DeleteBefore(s) == Redraw(e)
    ensures s.cursor == 0 ==> DeleteBefore(s) == Redraw(s)
  {
    if s.cursor > 0 {
      RemovedText(CurText(s), s.cursor - 1, s.cursor);
      EditedSettled(s, Removed(Cur(s), Minus(s.cursor, 1), s.cursor), Minus(s.cursor, 1));
    } else {
      assert s.(cursor := s.cursor) == s;
    }
  }

  lemma DeleteAfterSteps(s: EditorState)
    requires Settled(s)
    ensures s.cursor < |CurText(s)| ==>
      var e := SetCur(Touched(s), Removed(Cur(s), s.cursor, Plus(s.cursor, 1)));
      Ready(e) && DeleteAfter(s) == Redraw(e)
    ensures s.cursor >= |CurText(s)| ==> Ready(Touched(s)) && DeleteAfter(s) == Redraw(Touched(s))
  {
    var b := if s.cursor < |CurText(s)| then Removed(Cur(s), s.cursor, Plus(s.cursor, 1)) else Cur(s);
    RemovedText(CurText(s), s.cursor, s.cursor + 1);
    EditedSettled(s, b, s.cursor);
    assert Edited(s, b, s.cursor) == SetCur(Touched(s), b);
    if s.cursor >= |CurText(s)| {
      assert SetCur(Touched(s), b) == Touched(s);
    }
  }

  lemma DeleteUnderSteps(s: EditorState)
    requires Settled(s) && s.cursor < |CurText(s)|
    ensures RemoveRawOk(CurText(s), s.cursor, Plus(s.cursor, 1))
    ensures var e := SetCur(Touched(s), Removed(Cur(s), s.cursor, Plus(s.cursor, 1)));
      Ready(e) && DeleteAfter(s) == Redraw(e)
  {
    DeleteAfterSteps(s);
  }

  lemma DeleteAllBeforeSteps(s: EditorState)
    requires Settled(s)
    ensures var e := Edited(s, Removed(Cur(s), 0, s.cursor), 0);
      Ready(e) && DeleteAllBefore(s) == Redraw(e)
  {
    EditedSettled(s, Removed(Cur(s), 0, s.cursor), 0);
  }

  lemma DeleteAllAfterSteps(s: EditorState)
    requires Settled(s)
    ensures var e := SetCur(Touched(s), Truncated(Cur(s), s.cursor));
      Ready(e) && DeleteAllAfter(s) == Redraw(e)
  {
    var b := Truncated(Cur(s), s.cursor);
    EditedSettled(s, b, s.cursor);
    assert Edited(s, b, s.cursor) == SetCur(Touched(s), b);
  }

  lemma DeleteUntilSteps(s: EditorState, p: nat)
    requires Settled(s)
    ensures RemoveRawOk(CurText(s), Min(s.cursor, p), Max(s.cursor, p))
    ensures var e := Edited(s, Removed(Cur(s), Min(s.cursor, p), Max(s.cursor, p)), Min(s.cursor, p));
      Ready(e) && DeleteUntil(s, p) == Redraw(e)
  {
    var b := Removed(Cur(s), Min(s.cursor, p), Max(s.cursor, p));
    RemovedLength(CurText(s), Min(s.cursor, p), Max(s.cursor, p));
    EditedSettled(s, b, Min(s.cursor, p));
  }

  lemma DeleteUntilInclusiveSteps(s: EditorState, p: nat)
    requires Settled(s) && RemoveRawOk(CurText(s), Min(s.cursor, p), Max(Plus(s.cursor, 1), Plus(p, 1)))
    ensures var e := Edited(s, Removed(Cur(s), Min(s.cursor, p), Max(Plus(s.cursor, 1), Plus(p, 1))), Min(s.cursor, p));
      Ready(e) && DeleteUntilInclusive(s, p) == Redraw(e)
  {
    var b := Removed(Cur(s), Min(s.cursor, p), Max(Plus(s.cursor, 1), Plus(p, 1)));
    RemovedLength(CurText(s), Min(s.cursor, p), Max(Plus(s.cursor, 1), Plus(p, 1)));
    EditedSettled(s, b, Min(s.cursor, p));
  }

  lemma DeleteWordSteps(s: EditorState, ignore: bool)
    requires Settled(s)
    ensures DeleteWord(s, ignore) == DeleteWordAt(s, WordBeforeCursor(CurText(s), s.cursor, ignore))
  {
  }

  lemma NoWordSteps(s: EditorState)
    requires Settled(s)
    ensures DeleteWordAt(s, None) == Redraw(s)
  {
    assert s.(cursor := s.cursor) == s;
  }

  lemma DeleteWordAtSteps(s: EditorState, w: Span)
    requires Settled(s) && w.0 < s.cursor
    ensures var e := Edited(s, Removed(Cur(s), w.0, s.cursor), w.0);
      Ready(e) && DeleteWordAt(s, Some(w)) == Redraw(e)
  {
    var b := Removed(Cur(s), w.0, s.cursor);
    RemovedText(CurText(s), w.0, s.cursor);
    assert Minus(s.cursor, Minus(|CurText(s)|, |b.data|)) == w.0;
    EditedSettled(s, b, w.0);
  }

  /** Removing `[start, end)` from a text leaves it shorter by what lies in range. */
  lemma RemovedLength(t: Text, start: nat, end: nat)
    requires start <= end
    ensures RemoveRawOk(t, start, end)
  {
  }

  // ---------------------------------------------------------------------
  // Cursor moves

  lemma MoveLeftSteps(s: EditorState, n: nat)
    requires Settled(s)
    ensures var e := s.(cursor := Minus(s.cursor, Min(n, s.cursor)));
      Ready(e) && MoveLeft(s, n) == Redraw(e)
  {
  }

  lemma MoveRightSteps(s: EditorState, n: nat)
    requires Settled(s)
    ensures var e := s.(cursor := Plus(s.cursor, Min(n, Minus(|CurText(s)|, s.cursor))));
      Ready(e) && MoveRight(s, n) == Redraw(e)
  {
  }

  lemma MoveToSteps(s: EditorState, p: nat)
    requires Settled(s)
    ensures var e := s.(cursor := Min(p, |CurText(s)|));
      Ready(e) && MoveTo(s, p) == Redraw(e)
  {
  }

  lemma MoveToStartSteps(s: EditorState)
    requires Settled(s)
    ensures var e := s.(cursor := 0);
      Ready(e) && MoveToStart(s) == Redraw(e)
  {
  }

  // ---------------------------------------------------------------------
  // Undo

  lemma UndoSteps(s: EditorState)
    requires Settled(s)
    ensures var x := SetCur(Touched(s), Undone(Cur(s)).0);
      var did := Undone(Cur(s)).1.Some?;
      Ready(x) && Undo(s).1 == did &&
      Undo(s).0 == (if did then MoveToEnd(x) else Redraw(x))
  {
  }

  lemma RedoSteps(s: EditorState)
    requires Settled(s)
    ensures var x := SetCur(Touched(s), Redone(Cur(s)).0);
      var did := Redone(Cur(s)).1.Some?;
      Ready(x) && Redo(s).1 == did &&
      Redo(s).0 == (if did then MoveToEnd(x) else Redraw(x))
  {
  }

  lemma RevertSteps(s: EditorState)
    requires Settled(s)
    ensures var x := SetCur(Touched(s), Reverted(Cur(s)).0);
      var did := Reverted(Cur(s)).1;
      Ready(x) && Revert(s).1 == did &&
      Revert(s).0 == (if did then MoveToEnd(x) else Redraw(x))
  {
  }

  // ---------------------------------------------------------------------
  // Search and history

  lemma SearchSteps(s: EditorState, forward: bool)
    requires Settled(s)
    ensures !IsSearch(s) ==> Ready(Refresh(s, forward)) && Search(s, forward) == Redraw(Refresh(s, forward))
    ensures IsSearch(s) && s.index != [] ==>
      var e := s.(subsetLoc := SearchStep(s.subsetLoc, |s.index|, forward));
      Ready(e) && Search(s, forward) == Redraw(e)
    ensures IsSearch(s) && s.index == [] ==> Search(s, forward) == Redraw(s)
  {
  }

  lemma RecallSteps(s: EditorState, p: Place)
    requires Settled(s) && !IsSearch(s)
    requires p.loc.Some? ==> p.loc.value < |s.items|
    requires p.subsetLoc.Some? ==> p.subsetLoc.value < |p.subset|
    requires forall k | 0 <= k < |p.subset| :: p.subset[k] < |s.items|
    ensures var e := s.(histBufValid := false, curHistoryLoc := p.loc, index := p.subset, subsetLoc := p.subsetLoc);
      Wf(e) && Ready(Touched(e)) && Recall(s, p) == MoveToEnd(Touched(e))
  {
  }

  lemma MoveUpSteps(s: EditorState)
    requires Settled(s)
    ensures IsSearch(s) ==> MoveUp(s) == Search(s, false)
    ensures !IsSearch(s) ==> MoveUp(s) == Recall(s, UpPlace(s))
  {
  }

  lemma MoveDownSteps(s: EditorState)
    requires Settled(s)
    ensures IsSearch(s) ==> MoveDown(s) == Search(s, true)
    ensures !IsSearch(s) ==> MoveDown(s) == Recall(s, DownPlace(s))
  {
  }

  lemma MoveToStartOfHistorySteps(s: EditorState)
    requires Settled(s)
    ensures s.items == [] ==>
      var e := s.(histBufValid := false, curHistoryLoc := None);
      Ready(e) && MoveToStartOfHistory(s) == Redraw(e)
    ensures s.items != [] ==>
      var e := s.(histBufValid := false, curHistoryLoc := Some(0));
      Wf(e) && Ready(Touched(e)) && MoveToStartOfHistory(s) == MoveToEnd(Touched(e))
  {
  }

  lemma MoveToEndOfHistorySteps(s: EditorState)
    requires Settled(s)
    ensures s.curHistoryLoc.Some? ==>
      var e := s.(histBufValid := false, curHistoryLoc := None);
      Ready(e) && MoveToEndOfHistory(s) == MoveToEnd(e)
    ensures s.curHistoryLoc.None? ==>
      var e := s.(histBufValid := false);
      Ready(e) && MoveToEndOfHistory(s) == Redraw(e)
  {
  }

  lemma ClearSteps(s: EditorState)
    requires Settled(s)
    ensures var e := ClearSearch(s.(termCursorLine := 1));
      Ready(e) && Clear(s) == Redraw(e)
  {
  }

  // ---------------------------------------------------------------------
  // Accepting a line

  lemma AcceptAutosuggestionSteps(s: EditorState)
    requires Valid(s)
    ensures var e := ClearSearch(SetCur(Touched(s), Accepted(s)));
      Ready(e) && AcceptAutosuggestion(s) == MoveToEnd(e)
  {
    AutosuggestionMeaning(s);
  }

  lemma SearchEndedSteps(s: EditorState)
    requires Valid(s)
    ensures IsSearch(s) ==> SearchEnded(s) == ClearSearch(AcceptAutosuggestion(s))
    ensures !IsSearch(s) ==> SearchEnded(s) == ClearSearch(s)
  {
  }

  lemma NextLineSteps(s: EditorState)
    requires Valid(s) && !IsSearch(s)
    ensures var e := Edited(s, Pushed(Cur(s), '\n'), Plus(|CurText(s)|, 1));
      Ready(e) && NextLine(s) == Redraw(e) && |CurText(e)| == |CurText(s)| + 1
  {
    EditedSettled(s, Pushed(Cur(s), '\n'), Plus(|CurText(s)|, 1));
  }

  lemma LineDoneSteps(s: EditorState)
    requires Valid(s) && !IsSearch(s)
    ensures var e := s.(cursor := |CurText(s)|);
      Wf(e) && Fits(e) && LineDone(s) == Measure(e)
  {
    AutosuggestionContainsText(s);
    var e := s.(cursor := |CurText(s)|);
    assert CurText(e) == CurText(s) && e.autosuggestion == s.autosuggestion;
  }

  /** `handle_newline` once the search is ended: a shown hint dropped; a continued line; or the line done. */
  function Newline(b: EditorState): (r: (EditorState, bool))
    requires Valid(b) && !IsSearch(b)
  {
    HintDropped(b);
    if b.hint.Some? then (b.(hint := None), false)
    else if Continued(CurText(b)) then (NextLine(b), false)
    else (LineDone(b), true)
  }

  lemma HandleNewlineSteps(s: EditorState)
    requires Valid(s)
    ensures var b := SearchEnded(s);
      Valid(b) && !IsSearch(b) && HandleNewline(s) == Newline(b)
  {
  }

  // ---------------------------------------------------------------------
  // Completion

  lemma ClearForNextSteps(s: EditorState, h: Hint)
    requires Settled(s) && s.hint == Some(h) && HintOk(s.hint)
    ensures var s0 := s.(hint := None);
      Settled(s0) &&
      (h.highlighted.Some? && CurText(s0) == h.completions[h.highlighted.value] ==>
         var e := Edited(s0, Truncated(Cur(s0), 0), 0);
         Ready(s0) && Settled(e) && ClearForNext(s, h) == e) &&
      (!(h.highlighted.Some? && CurText(s0) == h.completions[h.highlighted.value]) ==>
         ClearForNext(s, h) == DeleteWord(s0, false))
  {
    WithHint(s, None);
    var s0 := s.(hint := None);
    EditedSettled(s0, Truncated(Cur(s0), 0), 0);
  }

  lemma CycleCompletionSteps(s: EditorState, h: Hint)
    requires Settled(s) && s.hint == Some(h) && HintOk(s.hint)
    ensures var s2 := InsertChars(ClearForNext(s, h), h.completions[NextHighlight(h)]);
      var e := s2.(hint := Some(Hint(h.completions, Some(NextHighlight(h)))));
      Ready(e) && CycleCompletion(s, h) == Redraw(e)
  {
    var s2 := InsertChars(ClearForNext(s, h), h.completions[NextHighlight(h)]);
    WithHint(s2, Some(Hint(h.completions, Some(NextHighlight(h)))));
  }

  /** The common prefix `find_longest_common_prefix` reports is the longest one, and none is reported exactly when that is empty. */
  lemma FoundPrefix(cs: seq<Text>, r: Option<Text>)
    requires |cs| >= 2
    requires r.Some? ==> |r.value| > 0 && Util.IsCommonPrefix(r.value, cs)
    requires r.Some? ==> forall q | Util.IsCommonPrefix(q, cs) :: |q| <= |r.value|
    requires r.None? ==> forall q | Util.IsCommonPrefix(q, cs) :: q == []
    ensures r.Some? ==> r.value == LongestCommonPrefix(cs)
    ensures r.None? ==> LongestCommonPrefix(cs) == []
  {
    LongestCommonPrefixIsLongest(cs);
    if r.Some? {
      FoundIsLongest(cs, r.value);
    }
  }

  lemma FreshCompletionSteps(s: EditorState, handler: Text -> seq<Text>)
    requires Valid(s) && s.hint.None?
    ensures var t := Touched(s);
      var word := WordToComplete(CurText(s), s.cursor);
      Valid(t) && t.hint.None? && CurText(t) == CurText(s) && t.cursor == s.cursor &&
      FreshCompletion(s, handler) == Offered(t, word, SortedUnique(handler(word)))
  {
    TouchedValid(s);
  }

  lemma OfferedSteps(t: EditorState, word: Text, cs: seq<Text>)
    requires Valid(t) && t.hint.None? && |cs| >= 2
    ensures var p := LongestCommonPrefix(cs);
      |p| > |word| && word <= p ==> Offered(t, word, cs) == InsertChars(DeleteWord(t, false), p)
    ensures var p := LongestCommonPrefix(cs);
      !(|p| > |word| && word <= p) ==>
        Offered(t, word, cs) == Redraw(t.(hint := Some(Hint(cs, None))))
  {
  }
}
