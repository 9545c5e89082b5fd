/**
 * The buffer's documented usage, replayed on the model: each method builds
 * a fresh buffer, drives it through the public operations and states what
 * the text and the reported positions must then be.  The proofs use only
 * the contracts of `Buffers.Buffer`.
 */
module BufferScenarios {
  import opened Common
  import opened Buffers

  const Letters: Text := "abcdefg"

  /** A fresh buffer holding `Letters`, inserted as one recorded action (`test_insert`). */
  method NewLetters() returns (b: Buffer)
    ensures fresh(b)
    ensures b.data == Letters && b.actions == [Action.Insert(0, Letters)] && b.undone == []
    ensures b.base == [] && b.Consistent()
  {
    b := new Buffer();
    var _ := b.Insert(0, Letters);
  }

  /**
   * Truncating to `n` and undoing once gives back the text it started
   * from, for any `n`: `test_truncate_all`, `test_truncate_end` and
   * `test_truncate_part`, each with and without the undo.
   */
  method TruncateThenUndo(n: nat) returns (truncated: Text, restored: Text)
    ensures truncated == Letters[..Min(n, |Letters|)]
    ensures restored == Letters
  {
    var b := NewLetters();
    b.Truncate(n);
    truncated := b.data;
    var a1 := b.actions;
    assert a1 == [Action.Insert(0, Letters)] + [a1[1]];
    SingleActionUndoRedo([Action.Insert(0, Letters)], a1[1], []);
    var _ := b.Undo();
    assert b.actions == a1[..1];
    ReplayStep([], [], Action.Insert(0, Letters));
    restored := b.data;
  }

  /** Truncating an empty buffer, and undoing that, leave it empty (`test_truncate_empty`, `test_truncate_empty_undo`). */
  method TruncateEmptyThenUndo() returns (truncated: Text, restored: Text)
    ensures truncated == [] && restored == []
  {
    var b := new Buffer();
    b.Truncate(0);
    truncated := b.data;
    var _ := b.Undo();
    restored := b.data;
  }

  /** `t`, then a group of three removes of the first unit: the group of the buffer's unit tests. */
  method ThenGroup(t: Text) returns (b: Buffer)
    requires |t| >= 3
    ensures fresh(b)
    ensures b.data == t[3..]
    ensures b.actions == GroupActions(t)
    ensures b.undone == [] && b.base == [] && b.Consistent()
  {
    b := new Buffer();
    var _ := b.Insert(0, t);
    RemoveThreeGrouped(b, t);
  }

  /** A group opened, the first three units removed one at a time from the front, and the group closed. */
  method RemoveThreeGrouped(b: Buffer, t: Text)
    requires |t| >= 3 && b.data == t
    modifies b
    ensures b.data == t[3..] && b.undone == [] && b.base == old(b.base)
    ensures b.actions == old(b.actions) + [StartGroup, Action.Remove(0, [t[0]]), Action.Remove(0, [t[1]]), Action.Remove(0, [t[2]]), EndGroup]
    ensures old(b.Consistent()) ==> b.Consistent()
  {
    OpenAndRemoveFirst(b, t[0], t[1..]);
    RemoveFirst(b, t[1], t[2..]);
    RemoveFirstAndClose(b, t[2], t[3..]);
  }

  function GroupActions(t: Text): seq<Action>
    requires |t| >= 3
  {
    [Action.Insert(0, t), StartGroup, Action.Remove(0, [t[0]]), Action.Remove(0, [t[1]]), Action.Remove(0, [t[2]]), EndGroup]
  }

  /** `remove(0, 1)` on a text starting with `c`: `c` goes and is recorded. */
  method RemoveFirst(b: Buffer, c: char, rest: Text)
    requires b.data == [c] + rest
    modifies b
    ensures b.data == rest && b.actions == old(b.actions) + [Action.Remove(0, [c])] && b.undone == []
    ensures b.base == old(b.base)
    ensures old(b.Consistent()) ==> b.Consistent()
  {
    var _ := b.Remove(0, 1);
    assert b.data == old(b.data)[1..];
    assert old(b.data)[0..Min(1, |old(b.data)|)] == [c];
  }

  /** A group opened, then `c` removed from the front. */
  method OpenAndRemoveFirst(b: Buffer, c: char, rest: Text)
    requires b.data == [c] + rest
    modifies b
    ensures b.data == rest && b.actions == old(b.actions) + [StartGroup, Action.Remove(0, [c])] && b.undone == []
    ensures b.base == old(b.base)
    ensures old(b.Consistent()) ==> b.Consistent()
  {
    b.StartUndoGroup();
    RemoveFirst(b, c, rest);
  }

  /** `c` removed from the front, then the group closed. */
  method RemoveFirstAndClose(b: Buffer, c: char, rest: Text)
    requires b.data == [c] + rest
    modifies b
    ensures b.data == rest && b.actions == old(b.actions) + [Action.Remove(0, [c]), EndGroup] && b.undone == []
    ensures b.base == old(b.base)
    ensures old(b.Consistent()) ==> b.Consistent()
  {
    RemoveFirst(b, c, rest);
    b.EndUndoGroup();
  }

  /** One undo reverts the whole group; one redo does it again (`test_undo_group`, `test_redo_group`). */
  method UndoRedoGroup(t: Text) returns (undoPos: Option<nat>, afterUndo: Text, redoPos: Option<nat>, afterRedo: Text)
    requires |t| >= 3
    ensures undoPos.Some? && afterUndo == t
    ensures redoPos.Some? && afterRedo == t[3..]
  {
    var b := ThenGroup(t);
    var acts := b.actions;
    var body := [Action.Remove(0, [t[0]]), Action.Remove(0, [t[1]]), Action.Remove(0, [t[2]])];
    assert acts == [Action.Insert(0, t)] + [StartGroup] + body + [EndGroup];
    FlatGroupUndoRedo([Action.Insert(0, t)], body, []);
    assert [] + Reversed(acts[1..]) == Reversed(acts[1..]);
    undoPos, afterUndo := UndoToFirst(b, t);
    redoPos, afterRedo := RedoAll(b, acts);
  }

  /** One undo that stops at the first recorded action, an insert of `t` into the empty text, leaves `t`. */
  method UndoToFirst(b: Buffer, t: Text) returns (pos: Option<nat>, after: Text)
    requires b.actions != [] && b.actions[0] == Action.Insert(0, t) && UndoCut(b.actions) == 1
    requires b.undone == [] && b.base == [] && b.Consistent()
    modifies b
    ensures pos.Some? && after == t && after == b.data
    ensures b.actions == old(b.actions)[..1] && b.undone == Reversed(old(b.actions)[1..])
    ensures b.base == [] && b.Consistent()
  {
    pos := b.Undo();
    assert b.actions == [] + [Action.Insert(0, t)];
    ReplayStep([], [], Action.Insert(0, t));
    after := b.data;
  }

  /** One redo that redoes everything undone after the first action brings back the text of `acts`. */
  method RedoAll(b: Buffer, acts: seq<Action>) returns (pos: Option<nat>, after: Text)
    requires acts != [] && b.actions == acts[..1] && b.undone == Reversed(acts[1..])
    requires RedoCut(Reversed(acts[1..])) == 0 && b.base == [] && b.Consistent()
    modifies b
    ensures b.actions == acts && b.undone == [] && b.Consistent()
    ensures pos == LastDoPos(acts[1..]) && after == Replay([], acts)
  {
    assert b.undone[0..] == b.undone;
    ReversedTwice(acts[1..]);
    pos := b.Redo();
    assert b.actions == acts;
    after := b.data;
  }

  /** Revert undoes everything recorded: here back to the empty text the buffer was made with (`test_revert_undo_group`). */
  method RevertGroup(t: Text) returns (reverted: bool, after: Text)
    requires |t| >= 3
    ensures reverted && after == []
  {
    var b := ThenGroup(t);
    reverted := b.Revert();
    after := b.data;
  }

  /** After `clear_actions` there is nothing to revert or undo, and the text stays (`test_clear_undo_group`). */
  method ClearThenRevert(t: Text) returns (reverted: bool, undoPos: Option<nat>, after: Text)
    requires |t| >= 3
    ensures !reverted && undoPos == None && after == t[3..]
  {
    var b := ThenGroup(t);
    b.ClearActions();
    reverted := b.Revert();
    undoPos := b.Undo();
    after := b.data;
  }

  /** `t`, then a group that removes the first unit, a nested group removing the next, and one more remove. */
  method ThenNestedGroup(t: Text) returns (b: Buffer)
    requires |t| >= 3
    ensures fresh(b)
    ensures b.data == t[3..]
    ensures b.actions == NestedActions(t)
    ensures b.undone == [] && b.base == [] && b.Consistent()
  {
    b := new Buffer();
    var _ := b.Insert(0, t);
    OpenAndRemoveFirst(b, t[0], t[1..]);
    OpenAndRemoveFirst(b, t[1], t[2..]);
    b.EndUndoGroup();
    RemoveFirstAndClose(b, t[2], t[3..]);
  }

  function NestedActions(t: Text): seq<Action>
    requires |t| >= 3
  {
    [Action.Insert(0, t), StartGroup, Action.Remove(0, [t[0]]), StartGroup, Action.Remove(0, [t[1]]), EndGroup,
     Action.Remove(0, [t[2]]), EndGroup]
  }

  /** A nested group is undone in one call and redone in one call (`test_nested_undo_group`, `test_nested_redo_group`). */
  lemma NestedCuts(t: Text)
    requires |t| >= 3
    ensures UndoCut(NestedActions(t)) == 1
    ensures RedoCut(Reversed(NestedActions(t)[1..])) == 0
  {
    var acts := NestedActions(t);
    assert UndoStopAt(acts, 2, 1, 3) == 1;
    assert UndoStopAt(acts, 8, 0, 0) == 1;
    var u := Reversed(acts[1..]);
    ReversedIndices(acts[1..]);
    assert u == [EndGroup, Action.Remove(0, [t[2]]), EndGroup, Action.Remove(0, [t[1]]), StartGroup, Action.Remove(0, [t[0]]), StartGroup];
    assert RedoStopAt(u, 1, 1, 3) == 0;
    assert RedoStopAt(u, 7, 0, 0) == 0;
  }

  method UndoRedoNestedGroup(t: Text) returns (undoPos: Option<nat>, afterUndo: Text, redoPos: Option<nat>, afterRedo: Text)
    requires |t| >= 3
    ensures undoPos.Some? && afterUndo == t
    ensures redoPos.Some? && afterRedo == t[3..]
  {
    var b := ThenNestedGroup(t);
    var acts := b.actions;
    NestedCuts(t);
    undoPos, afterUndo := UndoToFirst(b, t);
    redoPos, afterRedo := RedoAll(b, acts);
  }

  /**
   * Text comparisons of the unit tests `test_starts_with`,
   * `test_does_not_start_with`, `test_is_not_match2`, `test_contains` and
   * `test_does_not_contain`.
   */
  lemma ComparisonExamples()
    ensures StartsWith(Letters, "abc") && !StartsWith("abc", "abc") && !StartsWith(Letters, "xyz")
    ensures Contains(Letters, "abc") && Contains(Letters, "cde") && Contains(Letters, "efg")
    ensures !Contains(Letters, []) && !Contains(Letters, "xbc") && !Contains(Letters, "abd")
  {
    assert Letters[0] != 'x';
    assert OccursAt("cde", Letters, 2);
    assert OccursAt("efg", Letters, 4);
    forall i | 0 <= i <= 4 ensures !OccursAt("xbc", Letters, i) && !OccursAt("abd", Letters, i) {
      assert Letters[i..i + 3][0] == Letters[i];
      assert Letters[i..i + 3][2] == Letters[i + 2];
    }
  }

  /**
   * Inserting past the end as written: the text is appended but the
   * action keeps the start given, so undoing it removes nothing.
   */
  method InsertPastEndThenUndoAsWritten() returns (inserted: Text, afterUndo: Text)
    ensures inserted == "xyab" && afterUndo == "xyab"
  {
    var b := new Buffer.FromText("xy");
    var _ := b.InsertStrAsWritten(5, "ab");
    inserted := b.data;
    SingleActionUndoRedo([], Action.Insert(5, "ab"), []);
    var acts := b.actions;
    assert acts == [] + [Action.Insert(5, "ab")];
    var _ := b.Undo();
    assert acts[0..] == [Action.Insert(5, "ab")];
    afterUndo := b.data;
  }

  /** With the start recorded where the text went, one undo restores the text. */
  method InsertPastEndThenUndo() returns (inserted: Text, afterUndo: Text)
    ensures inserted == "xyab" && afterUndo == "xy"
  {
    var b := new Buffer.FromText("xy");
    var _ := b.InsertStr(5, "ab");
    inserted := b.data;
    SingleActionUndoRedo([], Action.Insert(2, "ab"), []);
    assert b.actions == [] + [Action.Insert(2, "ab")];
    var _ := b.Undo();
    ReplayStep("xy", [], Action.Insert(2, "ab"));
    afterUndo := b.data;
  }

  /**
   * Inserting "é" (two bytes in UTF-8) before "ab" and undoing it as
   * written: the removal runs to unit 0 + 2, so "éa" goes and "b" is left.
   */
  lemma MultiByteInsertThenUndoAsWritten()
    ensures DoText(Action.Insert(0, "\U{E9}"), "ab") == "\U{E9}ab"
    ensures UndoTextAsWritten(Action.Insert(0, "\U{E9}"), "\U{E9}ab") == "b"
  {
    assert Utf8Len("\U{E9}") == 2 by {
      assert "\U{E9}"[1..] == [];
    }
    assert RemovedRange("\U{E9}ab", 0, 2) == Some((0, 2));
  }

  /** With the removal measured in units, one undo gives back "ab". */
  method MultiByteInsertThenUndo() returns (inserted: Text, afterUndo: Text)
    ensures inserted == "\U{E9}ab" && afterUndo == "ab"
  {
    var b := new Buffer.FromText("ab");
    var _ := b.InsertStr(0, "\U{E9}");
    inserted := b.data;
    SingleActionUndoRedo([], Action.Insert(0, "\U{E9}"), []);
    assert b.actions == [] + [Action.Insert(0, "\U{E9}")];
    var _ := b.Undo();
    ReplayStep("ab", [], Action.Insert(0, "\U{E9}"));
    afterUndo := b.data;
  }

  /**
   * Pasting the register past the end as written: "ab" is appended to "xy"
   * but recorded at 5, so undoing it removes nothing.
   */
  method PastePastEndThenUndoAsWritten() returns (pasted: Text, afterUndo: Text)
    ensures pasted == "xyab" && afterUndo == "xyab"
  {
    var b := new Buffer.FromText("xy");
    b.register := Some("ab");
    var _ := b.InsertRegisterAroundIdxAsWritten(5, 1, false);
    pasted := b.data;
    SingleActionUndoRedo([], Action.Insert(5, "ab"), []);
    var acts := b.actions;
    assert acts == [] + [Action.Insert(5, "ab")];
    var _ := b.Undo();
    assert acts[0..] == [Action.Insert(5, "ab")];
    afterUndo := b.data;
  }

  /** With the paste recorded where it went, one undo restores the text. */
  method PastePastEndThenUndo() returns (pasted: Text, afterUndo: Text)
    ensures pasted == "xyab" && afterUndo == "xy"
  {
    var b := new Buffer.FromText("xy");
    b.register := Some("ab");
    var _ := b.InsertRegisterAroundIdx(5, 1, false);
    pasted := b.data;
    SingleActionUndoRedo([], Action.Insert(2, "ab"), []);
    assert b.actions == [] + [Action.Insert(2, "ab")];
    var _ := b.Undo();
    ReplayStep("xy", [], Action.Insert(2, "ab"));
    afterUndo := b.data;
  }
}
