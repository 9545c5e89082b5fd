/**
 * The text buffer of the line editor.  The text is a sequence of grapheme
 * units; every recorded edit is kept as an `Action` on an undo stack, with
 * nested undo groups and a redo stack, and removed text goes to a yank
 * register.
 */
module Buffers {
  import opened Common

  datatype Action =
    | Insert(start: nat, text: Text)
    | Remove(start: nat, text: Text)
    | Noop(start: nat)
    | StartGroup
    | EndGroup

  predicate IsMarker(a: Action)
  {
    a.StartGroup? || a.EndGroup?
  }

  // ---------------------------------------------------------------------
  // Raw edits on a text value

  /** `insert_raw`: insert before unit `start`, or append when `start` is at or past the end. */
  function InsertRawText(s: Text, start: nat, t: Text): (r: Text)
    ensures |r| == |s| + |t|
  {
    if start >= |s| then s + t else s[..start] + t + s[start..]
  }

  /** `remove_raw` panics (a reversed `drain` range) when both ends are inside the text and `end < start`. */
  predicate RemoveRawOk(s: Text, start: nat, end: nat)
  {
    start < |s| && end < |s| ==> start <= end
  }

  /**
   * The range `remove_raw(start, end)` actually deletes: nothing for an
   * empty text, an empty request or a start past the end; otherwise
   * `[start, min(end, len))`.
   */
  function RemovedRange(s: Text, start: nat, end: nat): (r: Option<(nat, nat)>)
    requires RemoveRawOk(s, start, end)
    ensures r.Some? ==> r.value.0 == start < r.value.1 <= |s|
    ensures r.None? <==> (|s| == 0 || start == end || start >= |s|)
  {
    if |s| > 0 && start != end && start < |s| then Some((start, Min(end, |s|))) else None
  }

  function RemoveRawText(s: Text, start: nat, end: nat): (r: Text)
    requires RemoveRawOk(s, start, end)
  {
    match RemovedRange(s, start, end)
    case None => s
    case Some((lo, hi)) => s[..lo] + s[hi..]
  }

  // ---------------------------------------------------------------------
  // Actions on a text value

  /** `Action::do_on`: the text after the action. */
  function DoText(a: Action, s: Text): Text
  {
    match a
    case Insert(start, t) => InsertRawText(s, start, t)
    case Remove(start, t) => RemoveRawText(s, start, start + |t|)
    case _ => s
  }

  /** `Action::do_on`: the cursor position it reports (the removed text's length is subtracted, saturating at 0). */
  function DoPos(a: Action): Option<nat>
  {
    match a
    case Insert(start, _) => Some(start)
    case Remove(start, t) => if |t| > start then Some(0) else Some(start - |t|)
    case Noop(start) => Some(start)
    case _ => None
  }

  /** `Action::undo`: the text after undoing the action. */
  function UndoText(a: Action, s: Text): Text
  {
    match a
    case Insert(start, t) => RemoveRawText(s, start, start + |t|)
    case Remove(start, t) => InsertRawText(s, start, t)
    case _ => s
  }

  /** The number of bytes the UTF-8 encoding of `c` takes. */
  function Utf8Width(c: char): (n: nat)
    ensures 1 <= n <= 4 && (n == 1 <==> c as int < 0x80)
  {
    if c as int < 0x80 then 1
    else if c as int < 0x800 then 2
    else if c as int < 0x1_0000 then 3
    else 4
  }

  predicate IsAscii(t: Text)
  {
    forall i :: 0 <= i < |t| ==> t[i] as int < 0x80
  }

  /** `str::len`: the length in bytes of the UTF-8 encoding of `t`. */
  function Utf8Len(t: Text): nat
  {
    if t == [] then 0 else Utf8Width(t[0]) + Utf8Len(t[1..])
  }

  /** A text takes at least one byte per unit, and exactly one exactly when it is ASCII. */
  lemma {:induction false} Utf8LenBounds(t: Text)
    ensures Utf8Len(t) >= |t|
    ensures Utf8Len(t) == |t| <==> IsAscii(t)
  {
    if t != [] {
      Utf8LenBounds(t[1..]);
      if IsAscii(t) {
        assert IsAscii(t[1..]) by {
          forall i | 0 <= i < |t[1..]| ensures t[1..][i] as int < 0x80 {
            assert t[1..][i] == t[i + 1];
          }
        }
      } else if Utf8Width(t[0]) == 1 {
        var j :| 0 <= j < |t| && t[j] as int >= 0x80;
        assert j > 0 && t[1..][j - 1] == t[j];
      }
      if Utf8Len(t) == |t| {
        forall i | 0 <= i < |t| ensures t[i] as int < 0x80 {
          if i > 0 { assert t[1..][i - 1] == t[i]; }
        }
      }
    }
  }

  /**
   * `Action::undo` as written (src/buffer.rs:41): an insert is undone by
   * `remove_raw(start, start + text.len())`, where `text.len()` is the
   * inserted text's byte length but `remove_raw` reads it as a unit index.
   * The other actions are undone as `UndoText` undoes them.
   */
  function UndoTextAsWritten(a: Action, s: Text): (r: Text)
    ensures !a.Insert? ==> r == UndoText(a, s)
  {
    match a
    case Insert(start, t) => RemoveRawText(s, start, start + Utf8Len(t))
    case _ => UndoText(a, s)
  }

  /** On ASCII text, bytes and units agree, and so do the written and the corrected undo. */
  lemma UndoAsWrittenAgreesOnAscii(a: Action, s: Text)
    requires a.Insert? ==> IsAscii(a.text)
    ensures UndoTextAsWritten(a, s) == UndoText(a, s)
  {
    if a.Insert? {
      Utf8LenBounds(a.text);
    }
  }

  /**
   * Undoing, as written, an insert of non-ASCII text that has text after
   * it removes more units than were inserted, so the text it was done on
   * is not restored.
   */
  lemma UndoAsWrittenRemovesMore(a: Action, s: Text)
    requires a.Insert? && a.start < |s| && !IsAscii(a.text)
    ensures |UndoTextAsWritten(a, DoText(a, s))| < |s|
  {
    Utf8LenBounds(a.text);
    var s' := DoText(a, s);
    assert |s'| == |s| + |a.text|;
    var r := RemovedRange(s', a.start, a.start + Utf8Len(a.text));
    assert r.Some? && r.value.1 > a.start + |a.text|;
  }

  /** `Action::undo`: the cursor position it reports. */
  function UndoPos(a: Action): (r: Option<nat>)
    ensures r.None? <==> IsMarker(a)
  {
    match a
    case Insert(start, _) => Some(start)
    case Remove(start, _) => Some(start)
    case Noop(start) => Some(start)
    case _ => None
  }

  /** The action describes exactly what it did to `s`: an insert inside or at the end, or a remove of the text really there. */
  predicate Exact(a: Action, s: Text)
  {
    match a
    case Insert(start, _) => start <= |s|
    case Remove(start, t) => start + |t| <= |s| && s[start..start + |t|] == t
    case _ => true
  }

  /** Undoing an exact action restores the text it was done on. */
  lemma UndoAfterDo(a: Action, s: Text)
    requires Exact(a, s)
    ensures UndoText(a, DoText(a, s)) == s
  {
    match a
    case Insert(start, t) =>
      var s' := DoText(a, s);
      if |t| > 0 {
        assert RemovedRange(s', start, start + |t|) == Some((start, start + |t|));
        if start == |s| {
          assert s'[..start] + s'[start + |t|..] == s;
        } else {
          assert s'[..start] + s'[start + |t|..] == s;
        }
      }
    case Remove(start, t) =>
      var s' := DoText(a, s);
      if |t| > 0 {
        assert s' == s[..start] + s[start + |t|..];
        assert s == s[..start] + t + s[start + |t|..];
      }
    case _ =>
  }

  /** The text after doing `acts` in order, starting from `base`. */
  function Replay(base: Text, acts: seq<Action>): Text
    decreases |acts|
  {
    if acts == [] then base
    else DoText(acts[|acts| - 1], Replay(base, acts[..|acts| - 1]))
  }

  /** Every action of `acts` is exact on the text it was done on. */
  predicate ExactChain(base: Text, acts: seq<Action>)
    decreases |acts|
  {
    acts == [] ||
    (ExactChain(base, acts[..|acts| - 1]) && Exact(acts[|acts| - 1], Replay(base, acts[..|acts| - 1])))
  }

  /**
   * The history explains the text: redoing everything that was undone
   * would replay exactly, and replaying `actions` from `base` gives `data`.
   */
  ghost predicate Tracks(base: Text, actions: seq<Action>, undone: seq<Action>, data: Text)
  {
    ExactChain(base, actions + Reversed(undone)) && data == Replay(base, actions)
  }

  /** Recording an action exact on the text, and dropping what was undone, keeps the history explaining the text. */
  lemma PushKeepsTracks(base: Text, actions: seq<Action>, undone: seq<Action>, data: Text, a: Action)
    requires Tracks(base, actions, undone, data) && Exact(a, data)
    ensures Tracks(base, actions + [a], [], DoText(a, data))
  {
    ChainPrefix(base, actions, Reversed(undone));
    ReplayStep(base, actions, a);
    assert actions + [a] + Reversed([]) == actions + [a];
  }

  lemma ReplayStep(base: Text, xs: seq<Action>, a: Action)
    ensures Replay(base, xs + [a]) == DoText(a, Replay(base, xs))
    ensures ExactChain(base, xs + [a]) <==> ExactChain(base, xs) && Exact(a, Replay(base, xs))
  {
    assert (xs + [a])[..|xs|] == xs;
  }

  lemma {:induction false} ChainPrefix(base: Text, xs: seq<Action>, ys: seq<Action>)
    requires ExactChain(base, xs + ys)
    ensures ExactChain(base, xs)
    decreases |ys|
  {
    if ys != [] {
      var ys' := ys[..|ys| - 1];
      assert xs + ys == (xs + ys') + [ys[|ys| - 1]];
      ReplayStep(base, xs + ys', ys[|ys| - 1]);
      ChainPrefix(base, xs, ys');
    } else {
      assert xs + ys == xs;
    }
  }

  /** Undo markers change no text, so one can be added anywhere in a chain. */
  lemma {:induction false} MarkerKeepsChain(base: Text, xs: seq<Action>, m: Action, ys: seq<Action>)
    requires IsMarker(m) && ExactChain(base, xs + ys)
    ensures ExactChain(base, xs + [m] + ys)
    ensures Replay(base, xs + [m] + ys) == Replay(base, xs + ys)
    decreases |ys|
  {
    if ys == [] {
      assert xs + [m] + ys == xs + [m];
      assert xs + ys == xs;
      ReplayStep(base, xs, m);
    } else {
      var ys' := ys[..|ys| - 1];
      var y := ys[|ys| - 1];
      assert xs + ys == (xs + ys') + [y];
      assert xs + [m] + ys == (xs + [m] + ys') + [y];
      ReplayStep(base, xs + ys', y);
      ReplayStep(base, xs + [m] + ys', y);
      MarkerKeepsChain(base, xs, m, ys');
    }
  }

  /** Undo the actions of `acts`, the last one first. */
  function UndoSuffix(s: Text, acts: seq<Action>): Text
    decreases |acts|
  {
    if acts == [] then s else UndoText(acts[0], UndoSuffix(s, acts[1..]))
  }

  /** The position `undo` reports after undoing `acts` last-first: that of the earliest action that has one. */
  function FirstUndoPos(acts: seq<Action>): (r: Option<nat>)
    ensures r.None? <==> forall i | 0 <= i < |acts| :: IsMarker(acts[i])
    decreases |acts|
  {
    if acts == [] then None
    else if UndoPos(acts[0]).Some? then UndoPos(acts[0])
    else FirstUndoPos(acts[1..])
  }

  /** The position `redo` reports after doing `acts` in order: that of the last action that has one. */
  function LastDoPos(acts: seq<Action>): Option<nat>
    decreases |acts|
  {
    if acts == [] then None
    else if DoPos(acts[|acts| - 1]).Some? then DoPos(acts[|acts| - 1])
    else LastDoPos(acts[..|acts| - 1])
  }

  // ---------------------------------------------------------------------
  // Where undo and redo stop

  /** The open-group depth after `undo` pops `a`. */
  function UndoNest(a: Action, nest: int): int
  {
    if a.EndGroup? then nest + 1 else if a.StartGroup? then nest - 1 else nest
  }

  /** The open-group depth after `redo` pops `a`. */
  function RedoNest(a: Action, nest: int): int
  {
    if a.StartGroup? then nest + 1 else if a.EndGroup? then nest - 1 else nest
  }

  /** The count of real actions handled after popping `a`. */
  function Counted(a: Action, count: nat): nat
  {
    if IsMarker(a) then count else count + 1
  }

  /**
   * How many actions remain when `undo` stops, scanning `acts` down from
   * index `k` with `nest` open groups and `count` real actions undone so
   * far: it stops once it is outside every group and has undone a real
   * action, or when the stack is empty.
   */
  function UndoStopAt(acts: seq<Action>, k: nat, nest: int, count: nat): (r: nat)
    requires k <= |acts|
    ensures r <= k && (k > 0 ==> r < k)
    decreases k
  {
    if k == 0 then 0
    else
      var a := acts[k - 1];
      if UndoNest(a, nest) == 0 && Counted(a, count) > 0 then k - 1
      else UndoStopAt(acts, k - 1, UndoNest(a, nest), Counted(a, count))
  }

  /** How many actions one `undo` leaves on the undo stack. */
  function UndoCut(acts: seq<Action>): (r: nat)
    ensures r <= |acts| && (acts != [] ==> r < |acts|)
  {
    UndoStopAt(acts, |acts|, 0, 0)
  }

  /** The mirror image of `UndoStopAt`, scanning the redo stack. */
  function RedoStopAt(undone: seq<Action>, k: nat, nest: int, count: nat): (r: nat)
    requires k <= |undone|
    ensures r <= k && (k > 0 ==> r < k)
    decreases k
  {
    if k == 0 then 0
    else
      var a := undone[k - 1];
      if RedoNest(a, nest) == 0 && Counted(a, count) > 0 then k - 1
      else RedoStopAt(undone, k - 1, RedoNest(a, nest), Counted(a, count))
  }

  /** How many actions one `redo` leaves on the redo stack. */
  function RedoCut(undone: seq<Action>): (r: nat)
    ensures r <= |undone| && (undone != [] ==> r < |undone|)
  {
    RedoStopAt(undone, |undone|, 0, 0)
  }

  /** With nothing real undone yet, a scan that pops only markers runs to the bottom of the stack. */
  lemma {:induction false} UndoStopAtOnlyMarkers(acts: seq<Action>, k: nat, nest: int)
    requires k <= |acts|
    requires forall i | UndoStopAt(acts, k, nest, 0) <= i < k :: IsMarker(acts[i])
    ensures UndoStopAt(acts, k, nest, 0) == 0
    decreases k
  {
    if k > 0 {
      var a := acts[k - 1];
      assert IsMarker(a);
      UndoStopAtOnlyMarkers(acts, k - 1, UndoNest(a, nest));
    }
  }

  /** As written, `undo` resets its count of undone actions at every EndGroup. */
  function UndoStopAtAsWritten(acts: seq<Action>, k: nat, nest: int, count: nat): (r: nat)
    requires k <= |acts|
    ensures r <= k
    decreases k
  {
    if k == 0 then 0
    else
      var a := acts[k - 1];
      var count' := if a.EndGroup? then 0 else Counted(a, count);
      if UndoNest(a, nest) == 0 && count' > 0 then k - 1
      else UndoStopAtAsWritten(acts, k - 1, UndoNest(a, nest), count')
  }

  function UndoCutAsWritten(acts: seq<Action>): nat
  {
    UndoStopAtAsWritten(acts, |acts|, 0, 0)
  }

  /** As written, `redo` resets its count of redone actions at every StartGroup. */
  function RedoStopAtAsWritten(undone: seq<Action>, k: nat, nest: int, count: nat): (r: nat)
    requires k <= |undone|
    ensures r <= k
    decreases k
  {
    if k == 0 then 0
    else
      var a := undone[k - 1];
      var count' := if a.StartGroup? then 0 else Counted(a, count);
      if RedoNest(a, nest) == 0 && count' > 0 then k - 1
      else RedoStopAtAsWritten(undone, k - 1, RedoNest(a, nest), count')
  }

  function RedoCutAsWritten(undone: seq<Action>): nat
  {
    RedoStopAtAsWritten(undone, |undone|, 0, 0)
  }

  predicate NoMarkers(body: seq<Action>)
  {
    forall i | 0 <= i < |body| :: !IsMarker(body[i])
  }

  /** Inside one open group of real actions, `undo` runs down to the group's StartGroup at `p`. */
  lemma {:induction false} UndoScanGroup(acts: seq<Action>, p: nat, k: nat, count: nat)
    requires p < k <= |acts| && acts[p] == StartGroup
    requires forall j | p < j < k :: !IsMarker(acts[j])
    requires count + (k - p - 1) > 0
    ensures UndoStopAt(acts, k, 1, count) == p
    decreases k
  {
    if k - 1 != p {
      UndoScanGroup(acts, p, k - 1, count + 1);
    }
  }

  /** Inside one open group of real actions, `redo` runs down to the group's EndGroup at `p`. */
  lemma {:induction false} RedoScanGroup(undone: seq<Action>, p: nat, k: nat, count: nat)
    requires p < k <= |undone| && undone[p] == EndGroup
    requires forall j | p < j < k :: !IsMarker(undone[j])
    requires count + (k - p - 1) > 0
    ensures RedoStopAt(undone, k, 1, count) == p
    decreases k
  {
    if k - 1 != p {
      RedoScanGroup(undone, p, k - 1, count + 1);
    }
  }

  /**
   * A group of real actions is undone in one call, and the redo stack that
   * leaves is redone in one call, exactly back to where it was.
   */
  lemma FlatGroupUndoRedo(prefix: seq<Action>, body: seq<Action>, undone: seq<Action>)
    requires NoMarkers(body) && |body| > 0
    ensures var acts := prefix + [StartGroup] + body + [EndGroup];
      UndoCut(acts) == |prefix| &&
      RedoCut(undone + Reversed(acts[|prefix|..])) == |undone|
  {
    var acts := prefix + [StartGroup] + body + [EndGroup];
    var p := |prefix|;
    assert acts[|acts| - 1] == EndGroup;
    forall j | p < j < |acts| - 1 ensures !IsMarker(acts[j]) {
      assert acts[j] == body[j - p - 1];
    }
    UndoScanGroup(acts, p, |acts| - 1, 0);
    var group := acts[p..];
    assert group == [StartGroup] + body + [EndGroup];
    var u := undone + Reversed(group);
    var m := |undone|;
    ReversedIndices(group);
    assert u[|u| - 1] == StartGroup by {
      assert u[|u| - 1] == Reversed(group)[|group| - 1] == group[0];
    }
    assert u[m] == EndGroup by {
      assert u[m] == Reversed(group)[0] == group[|group| - 1];
    }
    forall j | m < j < |u| - 1 ensures !IsMarker(u[j]) {
      assert u[j] == Reversed(group)[j - m] == group[|group| - 1 - (j - m)];
      assert group[|group| - 1 - (j - m)] == body[|body| - (j - m)];
    }
    RedoScanGroup(u, m, |u| - 1, 0);
  }

  /** A single real action outside any group is undone alone and redone alone. */
  lemma SingleActionUndoRedo(prefix: seq<Action>, a: Action, undone: seq<Action>)
    requires !IsMarker(a)
    ensures UndoCut(prefix + [a]) == |prefix|
    ensures RedoCut(undone + [a]) == |undone|
  {
    assert (prefix + [a])[|prefix|] == a;
    assert (undone + [a])[|undone|] == a;
  }

  /** "a" inserted, then a group holding an empty group and the insertion of "b". */
  const EmptyGroupFirst: seq<Action> :=
    [Action.Insert(0, "a"), StartGroup, StartGroup, EndGroup, Action.Insert(1, "b"), EndGroup]

  lemma EmptyGroupFirstReplays()
    ensures Replay([], EmptyGroupFirst) == "ab"
  {
    var ia, ib := Action.Insert(0, "a"), Action.Insert(1, "b");
    var r1 := [ia];
    var r2 := r1 + [StartGroup];
    var r3 := r2 + [StartGroup];
    var r4 := r3 + [EndGroup];
    var r5 := r4 + [ib];
    assert EmptyGroupFirst == r5 + [EndGroup];
    assert r1 == [] + [ia];
    ReplayStep([], [], ia);
    ReplayStep([], r1, StartGroup);
    ReplayStep([], r2, StartGroup);
    ReplayStep([], r3, EndGroup);
    ReplayStep([], r4, ib);
    ReplayStep([], r5, EndGroup);
    assert Replay([], r4) == "a";
    assert InsertRawText("a", 1, "b") == "ab";
  }

  lemma EmptyGroupFirstUndoTexts()
    ensures UndoSuffix("ab", EmptyGroupFirst[1..]) == "a"
    ensures UndoSuffix("ab", EmptyGroupFirst[0..]) == []
  {
    var ia, ib := Action.Insert(0, "a"), Action.Insert(1, "b");
    var tail := [StartGroup, StartGroup, EndGroup, ib, EndGroup];
    assert EmptyGroupFirst[1..] == tail;
    assert tail[1..] == [StartGroup, EndGroup, ib, EndGroup];
    assert tail[1..][1..] == [EndGroup, ib, EndGroup];
    assert tail[1..][1..][1..] == [ib, EndGroup];
    assert [ib, EndGroup][1..] == [EndGroup];
    assert UndoSuffix("ab", [EndGroup]) == "ab";
    assert RemovedRange("ab", 1, 2) == Some((1, 2));
    assert UndoSuffix("ab", [ib, EndGroup]) == "a";
    assert UndoSuffix("ab", [EndGroup, ib, EndGroup]) == "a";
    assert UndoSuffix("ab", [StartGroup, EndGroup, ib, EndGroup]) == "a";
    assert UndoSuffix("ab", tail) == "a";
    assert RemovedRange("a", 0, 1) == Some((0, 1));
    assert EmptyGroupFirst[0..] == [ia] + tail;
  }

  /**
   * As written, an empty group nested at the start of a group makes `undo`
   * also undo the action before the group: after "a" is inserted and then
   * a group holding an empty group and the insertion of "b", one undo
   * removes both, where it should remove only "b".
   */
  lemma UndoOvershootsAsWritten()
    ensures Replay([], EmptyGroupFirst) == "ab"
    ensures UndoCutAsWritten(EmptyGroupFirst) == 0 && UndoSuffix("ab", EmptyGroupFirst[0..]) == []
    ensures UndoCut(EmptyGroupFirst) == 1 && UndoSuffix("ab", EmptyGroupFirst[1..]) == "a"
  {
    var acts := EmptyGroupFirst;
    assert UndoStopAtAsWritten(acts, 2, 0, 0) == 0;
    assert UndoStopAtAsWritten(acts, 4, 2, 0) == 0;
    assert UndoStopAtAsWritten(acts, 6, 0, 0) == 0;
    assert UndoStopAt(acts, 3, 2, 1) == 1;
    assert UndoStopAt(acts, 6, 0, 0) == 1;
    EmptyGroupFirstReplays();
    EmptyGroupFirstUndoTexts();
  }

  /**
   * As written, an empty group nested at the end of a group makes `redo`
   * run on past the group: after a group holding the insertion of "a" and
   * an empty group, and then the insertion of "b", are both undone, one
   * redo redoes both.
   */
  lemma RedoOvershootsAsWritten()
    ensures var undone := [Action.Insert(1, "b"), EndGroup, EndGroup, StartGroup, Action.Insert(0, "a"), StartGroup];
      UndoCut([StartGroup, Action.Insert(0, "a"), StartGroup, EndGroup, EndGroup, Action.Insert(1, "b")]) == 5 &&
      UndoCut([StartGroup, Action.Insert(0, "a"), StartGroup, EndGroup, EndGroup]) == 0 &&
      RedoCutAsWritten(undone) == 0 && RedoCut(undone) == 1
  {
    var ia, ib := Action.Insert(0, "a"), Action.Insert(1, "b");
    var acts := [StartGroup, ia, StartGroup, EndGroup, EndGroup, ib];
    assert UndoStopAt(acts, 6, 0, 0) == 5;
    var group := [StartGroup, ia, StartGroup, EndGroup, EndGroup];
    assert UndoStopAt(group, 2, 1, 0) == 0;
    assert UndoStopAt(group, 5, 0, 0) == 0;
    var undone := [ib, EndGroup, EndGroup, StartGroup, ia, StartGroup];
    assert RedoStopAtAsWritten(undone, 3, 1, 0) == 0;
    assert RedoStopAtAsWritten(undone, 6, 0, 0) == 0;
    assert RedoStopAt(undone, 3, 2, 1) == 1;
    assert RedoStopAt(undone, 6, 0, 0) == 1;
  }


  // ---------------------------------------------------------------------
  // Export, comparison and search on text values

  /** `From<Buffer> for String`: each backslash directly followed by a newline is dropped with it. */
  function Exported(s: Text): Text
    decreases |s|
  {
    if s == [] then []
    else if |s| >= 2 && s[0] == '\\' && s[1] == '\n' then Exported(s[2..])
    else [s[0]] + Exported(s[1..])
  }

  lemma {:induction false} ExportedKeepsOrder(s: Text)
    ensures IsSubsequence(Exported(s), s)
    ensures '\n' !in s ==> Exported(s) == s
    decreases |s|
  {
    if s != [] {
      if |s| >= 2 && s[0] == '\\' && s[1] == '\n' {
        ExportedKeepsOrder(s[2..]);
        SubsequenceOfTail(Exported(s), s[1..]);
        assert s[1..][1..] == s[2..];
        SubsequenceOfTail(Exported(s), s);
      } else {
        ExportedKeepsOrder(s[1..]);
        assert ([s[0]] + Exported(s[1..]))[1..] == Exported(s[1..]);
        if '\n' !in s {
          assert forall c | c in s[1..] :: c in s;
        }
      }
    }
  }

  /** "he\\\nllo" exports as "hello". */
  lemma ExportDropsLineContinuation()
    ensures Exported(['h', 'e', '\\', '\n', 'l', 'l', 'o']) == "hello"
  {
    var s := ['h', 'e', '\\', '\n', 'l', 'l', 'o'];
    assert s[1..] == ['e', '\\', '\n', 'l', 'l', 'o'];
    assert s[1..][1..] == ['\\', '\n', 'l', 'l', 'o'];
    assert s[1..][1..][2..] == "llo";
    assert Exported("llo") == "llo" by { ExportedKeepsOrder("llo"); }
  }

  /** The text split at each '\n' (`str::split('\n')`). */
  function Lines(s: Text): (r: seq<Text>)
    ensures |r| >= 1
    ensures forall i | 0 <= i < |r| :: '\n' !in r[i]
    decreases |s|
  {
    if s == [] then [[]]
    else
      var rest := Lines(s[1..]);
      if s[0] == '\n' then [[]] + rest
      else [[s[0]] + rest[0]] + rest[1..]
  }

  /** Joining the lines with '\n' gives back the text. */
  function JoinLines(lines: seq<Text>): Text
    requires |lines| >= 1
    decreases |lines|
  {
    if |lines| == 1 then lines[0] else lines[0] + ['\n'] + JoinLines(lines[1..])
  }

  lemma {:induction false} LinesRoundTrip(s: Text)
    ensures JoinLines(Lines(s)) == s
    decreases |s|
  {
    if s != [] {
      LinesRoundTrip(s[1..]);
      var rest := Lines(s[1..]);
      if s[0] == '\n' {
        assert Lines(s)[1..] == rest;
      } else {
        if |rest| == 1 {
        } else {
          assert Lines(s)[1..] == rest[1..];
          assert JoinLines(rest) == rest[0] + ['\n'] + JoinLines(rest[1..]);
        }
      }
    }
  }

  // ---------------------------------------------------------------------
  // The buffer

  /** `s` repeated `n` times. */
  function Repeat(s: Text, n: nat): (r: Text)
    ensures |r| == |s| * n
  {
    if n == 0 then [] else Repeat(s, n - 1) + s
  }

  class Buffer {
    var data: Text
    var actions: seq<Action>
    var undone: seq<Action>
    var register: Option<Text>
    /** The text before the first recorded action. */
    ghost var base: Text

    /**
     * The undo history explains the text: redoing everything that was
     * undone would replay exactly, and replaying the undo stack from `base`
     * gives the current text.
     */
    ghost predicate Consistent()
      reads this
    {
      Tracks(base, actions, undone, data)
    }

    /** `Buffer::new`. */
    constructor ()
      ensures data == [] && actions == [] && undone == [] && register == None
      ensures Consistent()
    {
      data := [];
      actions := [];
      undone := [];
      register := None;
      base := [];
    }

    /** `From<String> for Buffer`: the text with no history. */
    constructor FromText(s: Text)
      ensures data == s && actions == [] && undone == [] && register == None
      ensures Consistent()
    {
      data := s;
      actions := [];
      undone := [];
      register := None;
      base := s;
    }

    /** Everything the buffer holds, as a value. */
    function Value(): BufferValue
      reads this
    {
      BufferValue(data, actions, undone, register)
    }

    /** `num_graphemes`. */
    function NumGraphemes(): nat
      reads this
    {
      |data|
    }

    /** `get_grapheme`: the unit at `i`, if there is one. */
    function GraphemeAt(i: int): (r: Option<char>)
      reads this
      ensures r.Some? <==> 0 <= i < |data|
      ensures r.Some? ==> r.value == data[i]
    {
      if 0 <= i < |data| then Some(data[i]) else None
    }

    /**
     * `grapheme_before`: the unit left of `cursor`.  At cursor 0 the
     * unsigned `cursor - 1` leaves the range, read here as no unit.
     */
    function GraphemeBefore(cursor: nat): (r: Option<char>)
      reads this
      ensures r.Some? <==> 0 < cursor <= |data|
      ensures r.Some? ==> r.value == data[cursor - 1]
    {
      if cursor == 0 then None else GraphemeAt(cursor - 1)
    }

    /** `grapheme_after`: the unit at `cursor`, right of it on screen. */
    function GraphemeAfter(cursor: nat): (r: Option<char>)
      reads this
      ensures r.Some? <==> cursor < |data|
      ensures r.Some? ==> r.value == data[cursor]
    {
      GraphemeAt(cursor)
    }

    /** `is_empty`. */
    function IsEmpty(): (r: bool)
      reads this
      ensures r <==> NumGraphemes() == 0
    {
      data == []
    }

    /** `first`: the first unit, none for an empty buffer. */
    function First(): (r: Option<char>)
      reads this
      ensures r.Some? <==> !IsEmpty()
      ensures r.Some? ==> r.value == data[0]
    {
      if data == [] then None else Some(data[0])
    }

    /** `last`: the last unit, none for an empty buffer. */
    function Last(): (r: Option<char>)
      reads this
      ensures r.Some? <==> !IsEmpty()
      ensures r.Some? ==> r.value == data[|data| - 1]
    {
      if data == [] then None else Some(data[|data| - 1])
    }

    /** `clear_actions`: forget the history; the current text becomes the new base. */
    method ClearActions()
      modifies this
      ensures actions == [] && undone == [] && data == old(data) && register == old(register)
      ensures Consistent()
    {
      actions := [];
      undone := [];
      base := data;
    }

    /** `start_undo_group`: pushed directly, so the redo stack is kept. */
    method StartUndoGroup()
      modifies this`actions
      ensures actions == old(actions) + [StartGroup]
      ensures old(Consistent()) ==> Consistent()
      ensures Value() == GroupStarted(old(Value()))
    {
      if Consistent() {
        MarkerKeepsChain(base, actions, StartGroup, Reversed(undone));
        ReplayStep(base, actions, StartGroup);
      }
      actions := actions + [StartGroup];
    }

    /** `end_undo_group`. */
    method EndUndoGroup()
      modifies this`actions
      ensures actions == old(actions) + [EndGroup]
      ensures old(Consistent()) ==> Consistent()
      ensures Value() == GroupEnded(old(Value()))
    {
      if Consistent() {
        MarkerKeepsChain(base, actions, EndGroup, Reversed(undone));
        ReplayStep(base, actions, EndGroup);
      }
      actions := actions + [EndGroup];
    }

    /** `insert_raw`. */
    method InsertRaw(start: nat, t: Text)
      modifies this`data
      ensures data == InsertRawText(old(data), start, t)
    {
      if start >= |data| {
        data := data + t;
      } else {
        data := data[..start] + t + data[start..];
      }
    }

    /** `remove_raw`: delete a range and, when `save` is set, record it (or a Noop when nothing went). */
    method RemoveRaw(start: nat, end: nat, save: bool)
      requires RemoveRawOk(data, start, end)
      modifies this`data, this`register, this`actions, this`undone
      ensures data == RemoveRawText(old(data), start, end)
      ensures !save ==> register == old(register) && actions == old(actions) && undone == old(undone)
      ensures save ==> undone == []
      ensures save && RemovedRange(old(data), start, end).None? ==>
        register == old(register) && actions == old(actions) + [Noop(start)]
      ensures save && RemovedRange(old(data), start, end).Some? ==>
        var (lo, hi) := RemovedRange(old(data), start, end).value;
        register == Some(old(data)[lo..hi]) && actions == old(actions) + [Action.Remove(start, old(data)[lo..hi])]
    {
      var logged := false;
      if |data| > 0 && start != end {
        if start == 0 && end == |data| {
          var str := data;
          assert str[start..Min(end, |str|)] == str;
          data := [];
          if save {
            register := Some(str);
            actions := actions + [Action.Remove(start, str)];
            undone := [];
            logged := true;
          }
        } else if start < |data| {
          var endIdx := if end >= |data| then |data| else end;
          var drained := data[start..endIdx];
          data := data[..start] + data[endIdx..];
          if save {
            register := Some(drained);
            actions := actions + [Action.Remove(start, drained)];
            undone := [];
            logged := true;
          }
        }
      }
      if !logged && save {
        actions := actions + [Noop(start)];
        undone := [];
      }
    }

    /** `Action::do_on`. */
    method DoAction(a: Action) returns (pos: Option<nat>)
      modifies this`data
      ensures data == DoText(a, old(data)) && pos == DoPos(a)
    {
      match a
      case Insert(start, t) =>
        InsertRaw(start, t);
        pos := Some(start);
      case Remove(start, t) =>
        var len := |t|;
        RemoveRawUnrecorded(start, start + len);
        if len > start { pos := Some(0); } else { pos := Some(start - len); }
      case Noop(start) =>
        pos := Some(start);
      case _ =>
        pos := None;
    }

    /** `Action::undo`. */
    method UndoAction(a: Action) returns (pos: Option<nat>)
      modifies this`data
      ensures data == UndoText(a, old(data)) && pos == UndoPos(a)
    {
      match a
      case Insert(start, t) =>
        RemoveRawUnrecorded(start, start + |t|);
        pos := Some(start);
      case Remove(start, t) =>
        InsertRaw(start, t);
        pos := Some(start);
      case Noop(start) =>
        pos := Some(start);
      case _ =>
        pos := None;
    }

    /** `remove_raw(start, end, false)`: only the text changes. */
    method RemoveRawUnrecorded(start: nat, end: nat)
      requires RemoveRawOk(data, start, end)
      modifies this`data
      ensures data == RemoveRawText(old(data), start, end)
    {
      if |data| > 0 && start != end {
        if start == 0 && end == |data| {
          data := [];
        } else if start < |data| {
          var endIdx := if end >= |data| then |data| else end;
          data := data[..start] + data[endIdx..];
        }
      }
    }

    lemma UndoStep(a: Action)
      requires actions != [] && a == actions[|actions| - 1]
      requires Consistent()
      ensures Tracks(base, actions[..|actions| - 1], undone + [a], UndoText(a, data))
    {
      var rest := actions[..|actions| - 1];
      assert actions == rest + [a];
      ReversedAppend(undone, [a]);
      ReversedSingleton(a);
      assert rest + Reversed(undone + [a]) == actions + Reversed(undone);
      assert actions + Reversed(undone) == actions + Reversed(undone);
      ChainPrefix(base, actions, Reversed(undone));
      ReplayStep(base, rest, a);
      UndoAfterDo(a, Replay(base, rest));
    }

    /** One step of `undo`: pop the newest action, keep it for redo, and undo it. */
    method PopUndo() returns (act: Action, pos: Option<nat>)
      requires actions != []
      modifies this`data, this`actions, this`undone
      ensures act == old(actions)[|old(actions)| - 1] && actions == old(actions)[..|old(actions)| - 1]
      ensures undone == old(undone) + [act]
      ensures data == UndoText(act, old(data)) && pos == UndoPos(act)
      ensures old(Consistent()) ==> Consistent()
    {
      act := actions[|actions| - 1];
      if Consistent() {
        UndoStep(act);
      }
      actions := actions[..|actions| - 1];
      undone := undone + [act];
      pos := UndoAction(act);
    }

    /** One step of `redo`: pop the newest undone action, redo it, and record it again. */
    method PopRedo() returns (act: Action, pos: Option<nat>)
      requires undone != []
      modifies this`data, this`actions, this`undone
      ensures act == old(undone)[|old(undone)| - 1] && undone == old(undone)[..|old(undone)| - 1]
      ensures actions == old(actions) + [act]
      ensures data == DoText(act, old(data)) && pos == DoPos(act)
      ensures old(Consistent()) ==> Consistent()
    {
      act := undone[|undone| - 1];
      if Consistent() {
        RedoStep(act);
      }
      undone := undone[..|undone| - 1];
      pos := DoAction(act);
      actions := actions + [act];
    }

    /** One pass of `undo`'s loop: pop and undo the newest action, and tell whether the loop stops there. */
    method UndoIter(ghost acts0: seq<Action>, ghost data0: Text, ghost undone0: seq<Action>, nest: int, count: nat, pos: Option<nat>)
      returns (nest': int, count': nat, pos': Option<nat>, stop: bool)
      requires actions != []
      requires UndoProgress(acts0, data0, undone0, actions, undone, data, pos)
      requires UndoCut(acts0) == UndoStopAt(acts0, |actions|, nest, count)
      modifies this`data, this`actions, this`undone
      ensures |actions| < |old(actions)|
      ensures UndoProgress(acts0, data0, undone0, actions, undone, data, pos')
      ensures stop ==> UndoCut(acts0) == |actions|
      ensures !stop ==> UndoCut(acts0) == UndoStopAt(acts0, |actions|, nest', count')
      ensures old(Consistent()) ==> Consistent()
    {
      ghost var before := actions;
      UndoProgressStep(acts0, data0, undone0, actions, undone, data, pos);
      var act, p := PopUndo();
      pos' := if p.Some? then p else pos;
      assert act == acts0[|before| - 1];
      nest' := UndoNest(act, nest);
      count' := Counted(act, count);
      stop := nest' == 0 && count' > 0;
    }

    /** One pass of `redo`'s loop: pop and redo the newest undone action, and tell whether the loop stops there. */
    method RedoIter(ghost undone0: seq<Action>, ghost data0: Text, ghost acts0: seq<Action>, nest: int, count: nat, pos: Option<nat>)
      returns (nest': int, count': nat, pos': Option<nat>, stop: bool)
      requires undone != []
      requires RedoProgress(undone0, data0, acts0, undone, actions, data, pos)
      requires RedoCut(undone0) == RedoStopAt(undone0, |undone|, nest, count)
      modifies this`data, this`actions, this`undone
      ensures |undone| < |old(undone)|
      ensures RedoProgress(undone0, data0, acts0, undone, actions, data, pos')
      ensures stop ==> RedoCut(undone0) == |undone|
      ensures !stop ==> RedoCut(undone0) == RedoStopAt(undone0, |undone|, nest', count')
      ensures old(Consistent()) ==> Consistent()
    {
      ghost var before := undone;
      RedoProgressStep(undone0, data0, acts0, undone, actions, data, pos);
      var act, p := PopRedo();
      pos' := if p.Some? then p else pos;
      assert act == undone0[|before| - 1];
      nest' := RedoNest(act, nest);
      count' := Counted(act, count);
      stop := nest' == 0 && count' > 0;
    }

    /**
     * `undo`: pop and undo actions until outside every group with at least
     * one real action undone; report the position of the earliest one.
     */
    method Undo() returns (pos: Option<nat>)
      modifies this`data, this`actions, this`undone
      ensures var cut := UndoCut(old(actions));
        actions == old(actions)[..cut] &&
        undone == old(undone) + Reversed(old(actions)[cut..]) &&
        data == UndoSuffix(old(data), old(actions)[cut..]) &&
        pos == FirstUndoPos(old(actions)[cut..])
      ensures old(actions) != [] ==> |actions| < |old(actions)|
      ensures pos.None? ==> actions == []
      ensures old(Consistent()) ==> Consistent()
      ensures (Value(), pos) == Undone(old(Value()))
    {
      ghost var acts0, data0, undone0 := actions, data, undone;
      ghost var wasConsistent := Consistent();
      pos := None;
      var nest: int := 0;
      var count: nat := 0;
      while actions != []
        invariant UndoProgress(acts0, data0, undone0, actions, undone, data, pos)
        invariant UndoCut(acts0) == UndoStopAt(acts0, |actions|, nest, count)
        invariant base == old(base)
        invariant wasConsistent ==> Consistent()
        decreases |actions|
      {
        var stop;
        nest, count, pos, stop := UndoIter(acts0, data0, undone0, nest, count, pos);
        if stop {
          break;
        }
      }
      UndoDone(acts0, data0, undone0, actions, undone, data, pos);
      UndoneValue(BufferValue(data0, acts0, undone0, register), Value(), pos);
    }

    /** `redo`: the mirror image of `undo`, reporting the position of the last action redone. */
    method Redo() returns (pos: Option<nat>)
      modifies this`data, this`actions, this`undone
      ensures var k := RedoCut(old(undone));
        undone == old(undone)[..k] &&
        actions == old(actions) + Reversed(old(undone)[k..]) &&
        data == Replay(old(data), Reversed(old(undone)[k..])) &&
        pos == LastDoPos(Reversed(old(undone)[k..]))
      ensures old(undone) != [] ==> |undone| < |old(undone)|
      ensures old(Consistent()) ==> Consistent()
      ensures (Value(), pos) == Redone(old(Value()))
    {
      ghost var undone0, data0, acts0 := undone, data, actions;
      ghost var wasConsistent := Consistent();
      pos := None;
      var nest: int := 0;
      var count: nat := 0;
      while undone != []
        invariant RedoProgress(undone0, data0, acts0, undone, actions, data, pos)
        invariant RedoCut(undone0) == RedoStopAt(undone0, |undone|, nest, count)
        invariant base == old(base)
        invariant wasConsistent ==> Consistent()
        decreases |undone|
      {
        var stop;
        nest, count, pos, stop := RedoIter(undone0, data0, acts0, nest, count, pos);
        if stop {
          break;
        }
      }
      RedoDone(undone0, data0, acts0, undone, actions, data, pos);
      RedoneValue(BufferValue(data0, acts0, undone0, register), Value(), pos);
    }

    lemma RedoStep(a: Action)
      requires undone != [] && a == undone[|undone| - 1]
      requires Consistent()
      ensures Tracks(base, actions + [a], undone[..|undone| - 1], DoText(a, data))
    {
      var rest := undone[..|undone| - 1];
      assert undone == rest + [a];
      ReversedAppend(rest, [a]);
      ReversedSingleton(a);
      assert (actions + [a]) + Reversed(rest) == actions + Reversed(undone);
      ReplayStep(base, actions, a);
    }

    /** `revert`: undo everything; false (and no change) when there is nothing to undo. */
    method Revert() returns (r: bool)
      modifies this`data, this`actions, this`undone
      ensures r == (old(actions) != [])
      ensures !r ==> data == old(data) && undone == old(undone) && actions == old(actions)
      ensures r ==> actions == []
      ensures old(Consistent()) ==> Consistent()
      ensures r && old(Consistent()) ==> data == base
      ensures (Value(), r) == Reverted(old(Value()))
    {
      if actions == [] {
        return false;
      }
      while true
        invariant base == old(base)
        invariant old(Consistent()) ==> Consistent()
        invariant |actions| <= |old(actions)| && actions == old(actions)[..|actions|]
        invariant undone == old(undone) + Reversed(old(actions)[|actions|..])
        invariant data == UndoSuffix(old(data), old(actions)[|actions|..])
        decreases |actions|
      {
        UndoComposes(old(actions), old(data), old(undone), actions, undone, data);
        var p := Undo();
        if p.None? {
          break;
        }
      }
      assert old(actions)[0..] == old(actions);
      return true;
    }

    /** `push_action`: record an action; anything undone can no longer be redone. */
    method PushAction(a: Action)
      modifies this`actions, this`undone
      ensures actions == old(actions) + [a] && undone == []
    {
      actions := actions + [a];
      undone := [];
    }

    /** `remove`: delete `[start, end)` (end clamped to the length) and return how many units went. */
    method Remove(start: nat, end: nat) returns (removed: nat)
      requires RemoveRawOk(data, start, end)
      modifies this`data, this`register, this`actions, this`undone
      ensures data == RemoveRawText(old(data), start, end)
      ensures removed == |old(data)| - |data|
      ensures start < |old(data)| && start < end ==>
        data == old(data)[..start] + old(data)[Min(end, |old(data)|)..] &&
        removed == Min(end, |old(data)|) - start &&
        register == Some(old(data)[start..Min(end, |old(data)|)]) &&
        actions == old(actions) + [Action.Remove(start, old(data)[start..Min(end, |old(data)|)])]
      ensures start == end || start >= |old(data)| ==>
        data == old(data) && removed == 0 && register == old(register) &&
        actions == old(actions) + [Noop(start)]
      ensures undone == []
      ensures old(Consistent()) ==> Consistent()
      ensures Value() == Removed(old(Value()), start, end)
    {
      ghost var wasConsistent := Consistent();
      ghost var before, acts0, undone0 := data, actions, undone;
      var origLen := |data|;
      RemoveRaw(start, end, true);
      removed := origLen - |data|;
      if wasConsistent {
        RecordedRemoveIsExact(before, start, end);
        PushKeepsTracks(base, acts0, undone0, before, actions[|actions| - 1]);
      }
    }

    /** `remove_unrecorded`: delete without touching the history or the register. */
    method RemoveUnrecorded(start: nat, end: nat)
      requires RemoveRawOk(data, start, end)
      modifies this`data
      ensures data == RemoveRawText(old(data), start, end)
    {
      RemoveRawUnrecorded(start, end);
    }

    /** `insert_action`: do the action, then record it. */
    method InsertAction(a: Action)
      modifies this`data, this`actions, this`undone
      ensures data == DoText(a, old(data))
      ensures actions == old(actions) + [a] && undone == []
      ensures old(Consistent()) && Exact(a, old(data)) ==> Consistent()
    {
      ghost var before := actions;
      if Consistent() {
        ChainPrefix(base, actions, Reversed(undone));
        ReplayStep(base, actions, a);
      }
      var _ := DoAction(a);
      PushAction(a);
      assert actions + Reversed(undone) == before + [a];
    }

    /**
     * `insert_str`, recording the position the text really went to: a
     * start past the end appends, and is recorded as the old length.
     */
    method InsertStr(start: nat, t: Text) returns (added: nat)
      modifies this`data, this`actions, this`undone
      ensures start <= |old(data)| ==> data == old(data)[..start] + t + old(data)[start..]
      ensures start > |old(data)| ==> data == old(data) + t
      ensures added == |t| && |data| == |old(data)| + added
      ensures actions == old(actions) + [Action.Insert(Min(start, |old(data)|), t)] && undone == []
      ensures old(Consistent()) ==> Consistent()
    {
      var origLen := |data|;
      InsertAction(Action.Insert(Min(start, |data|), t));
      added := |data| - origLen;
    }

    /** `insert_str` as written: the start is recorded as given, even past the end. */
    method InsertStrAsWritten(start: nat, t: Text) returns (added: nat)
      modifies this`data, this`actions, this`undone
      ensures data == InsertRawText(old(data), start, t)
      ensures added == |t|
      ensures actions == old(actions) + [Action.Insert(start, t)] && undone == []
      ensures old(Consistent()) && start <= |old(data)| ==> Consistent()
    {
      var origLen := |data|;
      InsertAction(Action.Insert(start, t));
      added := |data| - origLen;
    }

    /** `insert`: the same as `insert_str` with the characters collected. */
    method Insert(start: nat, t: Text) returns (added: nat)
      modifies this`data, this`actions, this`undone
      ensures data == InsertRawText(old(data), start, t) && added == |t|
      ensures actions == old(actions) + [Action.Insert(Min(start, |old(data)|), t)] && undone == []
      ensures old(Consistent()) ==> Consistent()
      ensures Value() == Inserted(old(Value()), start, t)
    {
      added := InsertStr(start, t);
    }

    /** The `for _ in 0..count` loop that builds the repeated register text. */
    static method RepeatText(t: Text, count: nat) returns (full: Text)
      ensures full == Repeat(t, count)
    {
      full := [];
      for i := 0 to count
        invariant full == Repeat(t, i)
      {
        full := full + t;
      }
    }

    /**
     * `insert_register_around_idx`: paste the register `count` times (once
     * for a count of 0 or 1) before `idx`, or after the unit at `idx` when
     * `right` is set and that unit exists; return the units added.
     */
    method InsertRegisterAroundIdx(idx: nat, count: nat, right: bool) returns (inserted: nat)
      modifies this`data, this`actions, this`undone
      ensures register.None? || register.value == [] ==>
        inserted == 0 && data == old(data) && actions == old(actions) && undone == old(undone)
      ensures register.Some? && register.value != [] ==>
        var at := if |old(data)| > idx && right then idx + 1 else idx;
        var text := if count > 1 then Repeat(register.value, count) else register.value;
        data == InsertRawText(old(data), at, text) && inserted == |text| &&
        actions == old(actions) + [Action.Insert(Min(at, |old(data)|), text)] && undone == []
      ensures old(Consistent()) ==> Consistent()
    {
      inserted := 0;
      if register.Some? && register.value != [] {
        var origLen := |data|;
        var at := idx;
        if origLen > at && right {
          at := at + 1;
        }
        var text := register.value;
        if count > 1 {
          text := RepeatText(register.value, count);
        }
        InsertAction(Action.Insert(Min(at, |data|), text));
        inserted := |data| - origLen;
      }
    }

    /**
     * `insert_register_around_idx` as written: the insert is recorded at
     * `idx` (one further when pasting to the right of a unit), even when
     * that is past the end and the text was appended.
     */
    method InsertRegisterAroundIdxAsWritten(idx: nat, count: nat, right: bool) returns (inserted: nat)
      modifies this`data, this`actions, this`undone
      ensures register.None? || register.value == [] ==>
        inserted == 0 && data == old(data) && actions == old(actions) && undone == old(undone)
      ensures register.Some? && register.value != [] ==>
        var at := if |old(data)| > idx && right then idx + 1 else idx;
        var text := if count > 1 then Repeat(register.value, count) else register.value;
        data == InsertRawText(old(data), at, text) && inserted == |text| &&
        actions == old(actions) + [Action.Insert(at, text)] && undone == []
      ensures old(Consistent()) && idx <= |old(data)| ==> Consistent()
    {
      inserted := 0;
      if register.Some? && register.value != [] {
        var origLen := |data|;
        var at := idx;
        if origLen > at && right {
          at := at + 1;
        }
        var text := register.value;
        if count > 1 {
          text := RepeatText(register.value, count);
        }
        InsertAction(Action.Insert(at, text));
        inserted := |data| - origLen;
      }
    }

    /** `append_buffer`: insert the other buffer's text at the end. */
    method AppendBuffer(other: Buffer) returns (added: nat)
      requires other != this
      modifies this`data, this`actions, this`undone
      ensures data == old(data) + other.data && added == |other.data|
      ensures actions == old(actions) + [Action.Insert(|old(data)|, other.data)] && undone == []
      ensures old(Consistent()) ==> Consistent()
    {
      added := InsertStr(|data|, other.data);
    }

    /**
     * `copy_buffer`: clear the text without recording it, then insert the
     * other buffer's text as one recorded insert at 0.
     */
    method CopyBuffer(other: Buffer) returns (added: nat)
      requires other != this
      modifies this`data, this`actions, this`undone
      ensures data == other.data && added == |other.data|
      ensures actions == old(actions) + [Action.Insert(0, other.data)] && undone == []
      ensures Value() == Copied(old(Value()), other.data)
    {
      RemoveUnrecorded(0, |data|);
      added := InsertStr(0, other.data);
    }

    /** `truncate`: keep the first `num` units, recorded as one remove. */
    method Truncate(num: nat)
      modifies this`data, this`register, this`actions, this`undone
      ensures data == old(data)[..Min(num, |old(data)|)]
      ensures num < |old(data)| ==> actions == old(actions) + [Action.Remove(num, old(data)[num..])]
      ensures num >= |old(data)| ==> actions == old(actions) + [Noop(num)]
      ensures undone == []
      ensures old(Consistent()) ==> Consistent()
      ensures Value() == Truncated(old(Value()), num)
    {
      var _ := Remove(num, |data|);
      assert num < |old(data)| ==> old(data)[num..Min(|old(data)|, |old(data)|)] == old(data)[num..];
    }

    /** `yank`: copy `[start, end)` (end clamped to the length) into the register. */
    method Yank(start: nat, end: nat)
      requires end >= |data| ==> start <= |data|
      requires end < |data| ==> start <= end
      modifies this`register
      ensures register == Some(data[start..Min(end, |data|)])
    {
      if end >= |data| {
        assert data[start..] == data[start..Min(end, |data|)];
        register := Some(data[start..]);
      } else {
        register := Some(data[start..end]);
      }
    }

    /** `push`: append one character without recording it. */
    method Push(ch: char)
      modifies this`data
      ensures data == old(data) + [ch]
      ensures Value() == Pushed(old(Value()), ch)
    {
      data := data + [ch];
    }

    /** `From<Buffer> for String`: the loop over the characters with one character of look-ahead. */
    method IntoString() returns (to: Text)
      ensures to == Exported(data)
    {
      to := [];
      var i := 0;
      while i < |data|
        invariant 0 <= i <= |data|
        invariant to + Exported(data[i..]) == Exported(data)
        decreases |data| - i
      {
        var ch := data[i];
        assert data[i..][1..] == data[i + 1..];
        if ch == '\\' && i + 1 < |data| && data[i + 1] == '\n' {
          assert data[i..][2..] == data[i + 2..];
          i := i + 2;
          continue;
        }
        to := to + [ch];
        i := i + 1;
      }
      assert data[i..] == [];
    }

    /** `line_widths`: the unit count of each '\n'-separated line. */
    function LineWidths(): (r: seq<nat>)
      reads this
      ensures |r| == |Lines(data)|
      ensures forall i | 0 <= i < |r| :: r[i] == |Lines(data)[i]|
    {
      var lines := Lines(data);
      seq(|lines|, i requires 0 <= i < |lines| => |lines[i]|)
    }
  }

  /** Where `undo` ends: the state its contract describes; it reports no position only when it has emptied the undo stack. */
  lemma UndoDone(acts0: seq<Action>, data0: Text, undone0: seq<Action>,
                 acts: seq<Action>, undone: seq<Action>, data: Text, pos: Option<nat>)
    requires UndoProgress(acts0, data0, undone0, acts, undone, data, pos)
    requires |acts| == UndoCut(acts0)
    ensures var cut := UndoCut(acts0);
      acts == acts0[..cut] &&
      undone == undone0 + Reversed(acts0[cut..]) &&
      data == UndoSuffix(data0, acts0[cut..]) &&
      pos == FirstUndoPos(acts0[cut..])
    ensures acts0 != [] ==> |acts| < |acts0|
    ensures pos.None? ==> acts == []
  {
    var cut := UndoCut(acts0);
    if pos.None? {
      var tail := acts0[cut..];
      forall i | cut <= i < |acts0| ensures IsMarker(acts0[i]) {
        assert acts0[i] == tail[i - cut];
      }
      UndoStopAtOnlyMarkers(acts0, |acts0|, 0);
    }
  }

  lemma RedoDone(undone0: seq<Action>, data0: Text, acts0: seq<Action>,
                 undone: seq<Action>, acts: seq<Action>, data: Text, pos: Option<nat>)
    requires RedoProgress(undone0, data0, acts0, undone, acts, data, pos)
    requires |undone| == RedoCut(undone0)
    ensures var k := RedoCut(undone0);
      undone == undone0[..k] &&
      acts == acts0 + Reversed(undone0[k..]) &&
      data == Replay(data0, Reversed(undone0[k..])) &&
      pos == LastDoPos(Reversed(undone0[k..]))
    ensures undone0 != [] ==> |undone| < |undone0|
  {
  }

  /**
   * Where `undo` has got to: the actions above `acts` have been popped, kept
   * for redo in pop order and undone, and `pos` is what it would report.
   */
  predicate UndoProgress(acts0: seq<Action>, data0: Text, undone0: seq<Action>,
                         acts: seq<Action>, undone: seq<Action>, data: Text, pos: Option<nat>)
  {
    |acts| <= |acts0| && acts == acts0[..|acts|] &&
    undone == undone0 + Reversed(acts0[|acts|..]) &&
    data == UndoSuffix(data0, acts0[|acts|..]) &&
    pos == FirstUndoPos(acts0[|acts|..])
  }

  lemma UndoProgressStep(acts0: seq<Action>, data0: Text, undone0: seq<Action>,
                         acts: seq<Action>, undone: seq<Action>, data: Text, pos: Option<nat>)
    requires UndoProgress(acts0, data0, undone0, acts, undone, data, pos) && acts != []
    ensures var a := acts[|acts| - 1];
      UndoProgress(acts0, data0, undone0, acts[..|acts| - 1], undone + [a], UndoText(a, data),
                   if UndoPos(a).Some? then UndoPos(a) else pos)
  {
    var k := |acts|;
    var a := acts0[k - 1];
    assert acts[..k - 1] == acts0[..k - 1];
    assert acts0[k - 1..] == [a] + acts0[k..];
    ReversedAppend([a], acts0[k..]);
    ReversedSingleton(a);
    assert acts0[k - 1..][1..] == acts0[k..];
  }

  /** Where `redo` has got to: the mirror image of `UndoProgress`, with the popped actions redone in pop order. */
  predicate RedoProgress(undone0: seq<Action>, data0: Text, acts0: seq<Action>,
                         undone: seq<Action>, acts: seq<Action>, data: Text, pos: Option<nat>)
  {
    |undone| <= |undone0| && undone == undone0[..|undone|] &&
    acts == acts0 + Reversed(undone0[|undone|..]) &&
    data == Replay(data0, Reversed(undone0[|undone|..])) &&
    pos == LastDoPos(Reversed(undone0[|undone|..]))
  }

  lemma RedoProgressStep(undone0: seq<Action>, data0: Text, acts0: seq<Action>,
                         undone: seq<Action>, acts: seq<Action>, data: Text, pos: Option<nat>)
    requires RedoProgress(undone0, data0, acts0, undone, acts, data, pos) && undone != []
    ensures var a := undone[|undone| - 1];
      RedoProgress(undone0, data0, acts0, undone[..|undone| - 1], acts + [a], DoText(a, data),
                   if DoPos(a).Some? then DoPos(a) else pos)
  {
    var k := |undone|;
    var a := undone0[k - 1];
    var before := Reversed(undone0[k..]);
    assert undone[..k - 1] == undone0[..k - 1];
    assert undone0[k - 1..] == [a] + undone0[k..];
    ReversedAppend([a], undone0[k..]);
    ReversedSingleton(a);
    ReplayStep(data0, before, a);
    assert (before + [a])[..|before|] == before;
  }

  /** Recording what `remove_raw` deleted gives an action that replays it exactly. */
  lemma RecordedRemoveIsExact(s: Text, start: nat, end: nat)
    requires RemoveRawOk(s, start, end)
    ensures RemovedRange(s, start, end).Some? ==>
      var (lo, hi) := RemovedRange(s, start, end).value;
      Exact(Remove(start, s[lo..hi]), s) && DoText(Remove(start, s[lo..hi]), s) == RemoveRawText(s, start, end)
  {
    if RemovedRange(s, start, end).Some? {
      var (lo, hi) := RemovedRange(s, start, end).value;
      assert RemovedRange(s, start, start + (hi - lo)) == Some((lo, hi));
    }
  }

  // ---------------------------------------------------------------------
  // A buffer as a value

  /** Everything a `Buffer` holds: its text, its undo and redo stacks and its yank register. */
  datatype BufferValue = BufferValue(data: Text, actions: seq<Action>, undone: seq<Action>, register: Option<Text>)

  /** `Buffer::new` and `From<String> for Buffer`: the text, with no history and an empty register. */
  function Fresh(s: Text): BufferValue
  {
    BufferValue(s, [], [], None)
  }

  /** `insert`: the text with `t` placed before unit `start`, recorded as one insert at the place it really went. */
  function Inserted(b: BufferValue, start: nat, t: Text): BufferValue
  {
    b.(data := InsertRawText(b.data, start, t), actions := b.actions + [Action.Insert(Min(start, |b.data|), t)], undone := [])
  }

  /** `remove`: `[start, end)` (end clamped) cut out into the register and recorded, or a recorded no-op. */
  function Removed(b: BufferValue, start: nat, end: nat): BufferValue
    requires RemoveRawOk(b.data, start, end)
  {
    if start < |b.data| && start < end then
      var hi := Min(end, |b.data|);
      b.(data := b.data[..start] + b.data[hi..], register := Some(b.data[start..hi]),
         actions := b.actions + [Action.Remove(start, b.data[start..hi])], undone := [])
    else
      b.(actions := b.actions + [Noop(start)], undone := [])
  }

  /** `truncate`: everything from `num` on removed. */
  function Truncated(b: BufferValue, num: nat): BufferValue
  {
    Removed(b, num, |b.data|)
  }

  /** `copy_buffer`: the text replaced by `t`, recorded as one insert at 0. */
  function Copied(b: BufferValue, t: Text): BufferValue
  {
    b.(data := t, actions := b.actions + [Action.Insert(0, t)], undone := [])
  }

  /**
   * `insert_from_buffer`, which the editor calls on its buffer: the part of
   * `other` past this text's length inserted at the end.
   */
  function InsertedFrom(b: BufferValue, other: Text): (r: BufferValue)
    requires |b.data| <= |other|
    ensures b.data <= other ==> r.data == other
    ensures r.actions == b.actions + [Action.Insert(|b.data|, other[|b.data|..])]
  {
    Inserted(b, |b.data|, other[|b.data|..])
  }

  /** `push`: one character appended, not recorded. */
  function Pushed(b: BufferValue, ch: char): BufferValue
  {
    b.(data := b.data + [ch])
  }

  /** `start_undo_group`. */
  function GroupStarted(b: BufferValue): BufferValue
  {
    b.(actions := b.actions + [StartGroup])
  }

  /** `end_undo_group`. */
  function GroupEnded(b: BufferValue): BufferValue
  {
    b.(actions := b.actions + [EndGroup])
  }

  /** `undo`: the actions above `UndoCut` undone, last first, and moved to the redo stack; with the position reported. */
  function Undone(b: BufferValue): (BufferValue, Option<nat>)
  {
    var cut := UndoCut(b.actions);
    (b.(data := UndoSuffix(b.data, b.actions[cut..]), actions := b.actions[..cut],
        undone := b.undone + Reversed(b.actions[cut..])),
     FirstUndoPos(b.actions[cut..]))
  }

  /** `redo`: the actions above `RedoCut` on the redo stack done again, in pop order; with the position reported. */
  function Redone(b: BufferValue): (BufferValue, Option<nat>)
  {
    var k := RedoCut(b.undone);
    (b.(data := Replay(b.data, Reversed(b.undone[k..])), actions := b.actions + Reversed(b.undone[k..]),
        undone := b.undone[..k]),
     LastDoPos(Reversed(b.undone[k..])))
  }

  /** `revert`: every action undone and moved to the redo stack; false, and no change, when there is none. */
  function Reverted(b: BufferValue): (BufferValue, bool)
  {
    if b.actions == [] then (b, false)
    else (b.(data := UndoSuffix(b.data, b.actions), actions := [], undone := b.undone + Reversed(b.actions)), true)
  }

  /** Undoing `x + y` is undoing `y`, then `x`. */
  lemma {:induction false} UndoSuffixAppend(s: Text, x: seq<Action>, y: seq<Action>)
    ensures UndoSuffix(s, x + y) == UndoSuffix(UndoSuffix(s, y), x)
    decreases |x|
  {
    if x != [] {
      assert (x + y)[0] == x[0] && (x + y)[1..] == x[1..] + y;
      UndoSuffixAppend(s, x[1..], y);
    } else {
      assert x + y == y;
    }
  }

  /** The state `undo`'s loop ends in, as a value. */
  lemma UndoneValue(b0: BufferValue, b: BufferValue, pos: Option<nat>)
    requires b.register == b0.register
    requires var cut := UndoCut(b0.actions);
      b.actions == b0.actions[..cut] &&
      b.undone == b0.undone + Reversed(b0.actions[cut..]) &&
      b.data == UndoSuffix(b0.data, b0.actions[cut..]) &&
      pos == FirstUndoPos(b0.actions[cut..])
    ensures (b, pos) == Undone(b0)
  {
  }

  /** The state `redo`'s loop ends in, as a value. */
  lemma RedoneValue(b0: BufferValue, b: BufferValue, pos: Option<nat>)
    requires b.register == b0.register
    requires var k := RedoCut(b0.undone);
      b.undone == b0.undone[..k] &&
      b.actions == b0.actions + Reversed(b0.undone[k..]) &&
      b.data == Replay(b0.data, Reversed(b0.undone[k..])) &&
      pos == LastDoPos(Reversed(b0.undone[k..]))
    ensures (b, pos) == Redone(b0)
  {
  }

  /** One more `undo` after undoing the top of `a0` has undone a longer top of `a0`. */
  lemma UndoComposes(a0: seq<Action>, d0: Text, u0: seq<Action>, acts: seq<Action>, und: seq<Action>, dat: Text)
    requires |acts| <= |a0| && acts == a0[..|acts|]
    requires und == u0 + Reversed(a0[|acts|..]) && dat == UndoSuffix(d0, a0[|acts|..])
    ensures var cut := UndoCut(acts);
      acts[..cut] == a0[..cut] &&
      und + Reversed(acts[cut..]) == u0 + Reversed(a0[cut..]) &&
      UndoSuffix(dat, acts[cut..]) == UndoSuffix(d0, a0[cut..])
  {
    var cut := UndoCut(acts);
    assert a0[cut..] == acts[cut..] + a0[|acts|..];
    UndoSuffixAppend(d0, acts[cut..], a0[|acts|..]);
    ReversedAppend(acts[cut..], a0[|acts|..]);
  }

  /** The insert recorded for `insert` describes exactly the text it produced. */
  lemma InsertedIsExact(s: Text, start: nat, t: Text)
    ensures Exact(Action.Insert(Min(start, |s|), t), s)
    ensures DoText(Action.Insert(Min(start, |s|), t), s) == InsertRawText(s, start, t)
  {
    if start >= |s| {
      assert s[..|s|] == s && s[|s|..] == [];
    }
  }

  /** One `undo` after `insert` restores the text and the undo stack, and reports where the insert went. */
  lemma InsertThenUndo(b: BufferValue, start: nat, t: Text)
    ensures var (u, pos) := Undone(Inserted(b, start, t));
      u.data == b.data && u.actions == b.actions && pos == Some(Min(start, |b.data|))
  {
    var a := Action.Insert(Min(start, |b.data|), t);
    SingleActionUndoRedo(b.actions, a, []);
    InsertedIsExact(b.data, start, t);
    UndoAfterDo(a, b.data);
    assert (b.actions + [a])[|b.actions|..] == [a];
    UndoSingle(Inserted(b, start, t).data, a);
  }

  lemma UndoSingle(s: Text, a: Action)
    ensures UndoSuffix(s, [a]) == UndoText(a, s)
  {
    assert [a][1..] == [];
  }

  /** One `undo` after `remove` restores the text and the undo stack. */
  lemma RemoveThenUndo(b: BufferValue, start: nat, end: nat)
    requires RemoveRawOk(b.data, start, end)
    ensures var (u, pos) := Undone(Removed(b, start, end));
      u.data == b.data && u.actions == b.actions && pos == Some(start)
  {
    var r := Removed(b, start, end);
    var a := r.actions[|r.actions| - 1];
    assert r.actions == b.actions + [a];
    SingleActionUndoRedo(b.actions, a, []);
    assert r.actions[|b.actions|..] == [a];
    UndoSingle(r.data, a);
    if start < |b.data| && start < end {
      var hi := Min(end, |b.data|);
      assert Exact(a, b.data);
      UndoAfterDo(a, b.data);
      assert DoText(a, b.data) == r.data;
    }
  }

  /** One `redo` after one `undo` of an `insert` puts the insert back. */
  lemma InsertUndoRedo(b: BufferValue, start: nat, t: Text)
    requires b.undone == []
    ensures var i := Inserted(b, start, t);
      var (r, _) := Redone(Undone(i).0);
      r.data == i.data && r.actions == i.actions && r.undone == []
  {
    var a := Action.Insert(Min(start, |b.data|), t);
    var i := Inserted(b, start, t);
    InsertThenUndo(b, start, t);
    var u := Undone(i).0;
    assert i.actions[|b.actions|..] == [a];
    ReversedSingleton(a);
    assert u.undone == [a];
    SingleActionUndoRedo([], a, []);
    assert [a][0..] == [a];
    InsertedIsExact(b.data, start, t);
    assert Replay(u.data, [a]) == DoText(a, Replay(u.data, []));
  }

  /** `PartialEq`: two buffers are equal exactly when their texts are; history and register are ignored. */
  function Equal(a: Buffer, b: Buffer): (r: bool)
    reads a, b
    ensures r <==> a.data == b.data
  {
    a.data == b.data
  }

  /** `starts_with`: `other` is a non-empty proper prefix. */
  function StartsWith(text: Text, other: Text): (r: bool)
    ensures r <==> other != [] && other < text
  {
    |other| > 0 && |text| != |other| && other <= text
  }

  /** `contains`: `other` is non-empty and occurs somewhere in the text. */
  function Contains(text: Text, other: Text): (r: bool)
    ensures r ==> 0 < |other| <= |text|
    ensures other != [] && other <= text ==> r
    ensures r <==> other != [] && exists i, j | 0 <= i <= j <= |text| :: text[i..j] == other
  {
    assert other != [] && other <= text ==> OccursAt(other, text, 0);
    assert (exists i, j | 0 <= i <= j <= |text| :: text[i..j] == other) ==> Occurs(other, text) by {
      if i, j :| 0 <= i <= j <= |text| && text[i..j] == other {
        assert OccursAt(other, text, i);
      }
    }
    assert Occurs(other, text) ==> exists i, j | 0 <= i <= j <= |text| :: text[i..j] == other by {
      if i :| 0 <= i <= |text| - |other| && OccursAt(other, text, i) {
        assert text[i..i + |other|] == other;
      }
    }
    other != [] && Occurs(other, text)
  }

  // ---------------------------------------------------------------------
  // The last argument

  /** A character that joins its neighbours into one word segment. */
  predicate IsWordChar(c: char)
  {
    IsAlphanumeric(c) || c == '_'
  }

  /**
   * What `last_arg` can return: one run of word characters, or one
   * character that is neither a word character nor whitespace.
   */
  predicate IsArg(a: Text)
  {
    (a != [] && forall i | 0 <= i < |a| :: IsWordChar(a[i])) ||
    (|a| == 1 && !IsWordChar(a[0]) && !IsWhitespace(a[0]))
  }

  /** The length of the text without its trailing whitespace. */
  function TrimmedLength(t: Text): (n: nat)
    ensures n <= |t| && (forall i | n <= i < |t| :: IsWhitespace(t[i]))
    ensures n > 0 ==> !IsWhitespace(t[n - 1])
  {
    if t == [] || !IsWhitespace(t[|t| - 1]) then |t| else TrimmedLength(t[..|t| - 1])
  }

  /** Where the run of word characters that ends at `e` starts. */
  function WordRunStart(t: Text, e: nat): (k: nat)
    requires e <= |t|
    ensures k <= e && (forall i | k <= i < e :: IsWordChar(t[i]))
    ensures k > 0 ==> !IsWordChar(t[k - 1])
  {
    if e == 0 || !IsWordChar(t[e - 1]) then e else WordRunStart(t, e - 1)
  }

  /**
   * `last_arg`: the last word segment that is not whitespace, none when
   * the text is all whitespace.  A segment is a run of word characters
   * or a single other character.
   */
  function LastArg(t: Text): (r: Option<Text>)
    ensures r.None? <==> forall i | 0 <= i < |t| :: IsWhitespace(t[i])
    ensures r.Some? ==> IsArg(r.value) && |r.value| <= |t|
    ensures r.Some? ==> exists k :: EndsWith(t, r.value, k)
    ensures r.Some? ==> EndsTrimmed(t, r.value)
  {
    var n := TrimmedLength(t);
    if n == 0 then None
    else if IsWordChar(t[n - 1]) then
      var k := WordRunStart(t, n);
      WordRunEnds(t, n, k);
      Some(t[k..n])
    else
      OtherCharEnds(t, n);
      Some([t[n - 1]])
  }

  /**
   * `a` ends the text exactly where its trailing whitespace begins, and
   * when `a` is a run of word characters no word character precedes it.
   */
  predicate EndsTrimmed(t: Text, a: Text)
  {
    a != [] && |a| <= TrimmedLength(t) &&
    EndsWith(t, a, TrimmedLength(t) - |a|) &&
    (IsWordChar(a[0]) ==> TrimmedLength(t) == |a| || !IsWordChar(t[TrimmedLength(t) - |a| - 1]))
  }

  /** The run of word characters that ends the trimmed text is an argument ending the text. */
  lemma WordRunEnds(t: Text, n: nat, k: nat)
    requires n == TrimmedLength(t) && n > 0 && IsWordChar(t[n - 1]) && k == WordRunStart(t, n)
    ensures k < n && IsArg(t[k..n]) && EndsWith(t, t[k..n], k) && EndsTrimmed(t, t[k..n])
  {
    var a := t[k..n];
    assert |a| == n - k && a[n - k - 1] == t[n - 1] && a[0] == t[k];
    assert forall i | 0 <= i < |a| :: a[i] == t[k + i];
  }

  /** A last non-whitespace character that is not a word character is an argument by itself. */
  lemma OtherCharEnds(t: Text, n: nat)
    requires n == TrimmedLength(t) && n > 0 && !IsWordChar(t[n - 1])
    ensures IsArg([t[n - 1]]) && EndsWith(t, [t[n - 1]], n - 1) && EndsTrimmed(t, [t[n - 1]])
  {
    var a := [t[n - 1]];
    assert t[n - 1..n] == a;
  }

  /** `a` occurs at `k` in `t`, and only whitespace follows it. */
  predicate EndsWith(t: Text, a: Text, k: nat)
  {
    k + |a| <= |t| && t[k..k + |a|] == a && forall i | k + |a| <= i < |t| :: IsWhitespace(t[i])
  }

  /**
   * After an empty text, whitespace or a character that ends a word, an
   * argument is the text's last argument: what a last-argument fetch
   * inserts at the end of such a line is what the next fetch takes back.
   */
  lemma {:induction false} LastArgAppended(t: Text, a: Text)
    requires IsArg(a)
    requires t == [] || !IsWordChar(t[|t| - 1]) || !IsWordChar(a[0])
    ensures LastArg(t + a) == Some(a)
  {
    var u := t + a;
    assert u[..|u| - 1] == t + a[..|a| - 1];
    assert TrimmedLength(u) == |u|;
    if IsWordChar(a[0]) {
      assert IsWordChar(u[|u| - 1]);
      WordRunOf(t, a);
      assert u[|t|..|u|] == a;
    } else {
      assert |a| == 1 && u[|u| - 1] == a[0];
      assert [u[|u| - 1]] == a;
    }
  }

  /** The run of word characters ending a text that ends in the word `a` after a break is `a`. */
  lemma {:induction false} WordRunOf(t: Text, a: Text)
    requires a != [] && forall i | 0 <= i < |a| :: IsWordChar(a[i])
    requires t == [] || !IsWordChar(t[|t| - 1])
    ensures WordRunStart(t + a, |t + a|) == |t|
  {
    var u := t + a;
    var e := |u|;
    while e > |t|
      invariant |t| <= e <= |u|
      invariant WordRunStart(u, e) == WordRunStart(u, |u|)
    {
      assert u[e - 1] == a[e - 1 - |t|];
      e := e - 1;
    }
  }
}
