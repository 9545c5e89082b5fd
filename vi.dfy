/**
 * The vi keymap as an object: `Vi` holds the mode stack, the counts and
 * the commands being recorded, and each `handle_key_*` handler updates
 * them and the editor in place.  Every handler is proved to leave the
 * keymap and the editor exactly as the matching function of `ViModel`
 * says, so what is proved about those functions holds for the object.
 */
module ViKeymap {
  import opened Common
  import opened EditorModel
  import opened Keymaps
  import opened ViModel
  import ViMotions
  import Editors

  // ---------------------------------------------------------------------
  // The editor operations the keymap adds

  /** `ed.current_buffer_mut().start_undo_group()`. */
  method GroupStartOn(ed: Editors.Editor)
    requires ed.Valid()
    modifies ed, ed.newBuf, ed.histBuf
    ensures ed.Valid() && ed.State() == GroupStart(old(ed.State()))
  {
    ghost var s := ed.State();
    NoCopyPending(s);
    ghost var r := GroupStart(s);
    ed.EditStartGroup();
    assert ed.State() == r;
  }

  /** `ed.current_buffer_mut().end_undo_group()`. */
  method GroupEndOn(ed: Editors.Editor)
    requires ed.Valid()
    modifies ed, ed.newBuf, ed.histBuf
    ensures ed.Valid() && ed.State() == GroupEnd(old(ed.State()))
  {
    ghost var s := ed.State();
    NoCopyPending(s);
    ghost var r := GroupEnd(s);
    ed.EditEndGroup();
    assert ed.State() == r;
  }

  /** `handle_key_common`. */
  method CommonKeyOn(ed: Editors.Editor, key: Key)
    requires ed.Valid()
    modifies ed, ed.newBuf, ed.histBuf
    ensures ed.Valid() && ed.State() == CommonKey(old(ed.State()), key)
  {
    if key == Ctrl('l') {
      ed.Clear();
    } else if key.Left? {
      ed.MoveCursorLeft(1);
    } else if key.Right? {
      ed.MoveCursorRight(1);
    } else if key.Up? {
      ed.MoveUp();
    } else if key.Down? {
      ed.MoveDown();
    } else if key.Home? {
      ed.MoveCursorToStartOfLine();
    } else if key.End? {
      ed.MoveCursorToEndOfLine();
    } else if key.Backspace? {
      ed.DeleteBeforeCursor();
    } else if key.Delete? {
      ed.DeleteAfterCursor();
    }
  }

  /** `ed.no_eol` set, nothing else changed. */
  method SetNoEolOn(ed: Editors.Editor, normal: bool)
    requires ed.Valid()
    modifies ed
    ensures ed.Valid() && ed.State() == old(ed.State()).(noEol := normal)
  {
    ghost var e := ed.State().(noEol := normal);
    NoEolValid(ed.State(), normal);
    ed.noEol := normal;
    assert ed.State() == e;
  }

  /** `ed.display()` between keys. */
  method RedisplayOn(ed: Editors.Editor)
    requires ed.Valid()
    modifies ed
    ensures ed.Valid() && ed.State() == Redisplay(old(ed.State()))
  {
    ghost var s := ed.State();
    RedrawValid(s);
    ed.Display();
    assert ed.State() == Redisplay(s);
  }

  /** The editor's side of `pop_mode`. */
  method PopEdOn(ed: Editors.Editor, last: Mode, normal: bool)
    requires ed.Valid()
    modifies ed, ed.newBuf, ed.histBuf
    ensures ed.Valid() && ed.State() == PopEd(old(ed.State()), last, normal)
  {
    SetNoEolOn(ed, normal);
    ghost var e := ed.State();
    if last == Mode.Insert || last == Mode.Tilde {
      GroupEndOn(ed);
    }
    ghost var closed := ed.State();
    assert closed == if last == Mode.Insert || last == Mode.Tilde then GroupEnd(e) else e;
    if last == Mode.Tilde {
      RedisplayOn(ed);
    }
  }

  /** The moves of `h`, `l`, `k`, `j`, `0` and `$` and their synonyms. */
  method MotionOn(ed: Editors.Editor, key: Key, count: U32)
    requires ed.Valid() && IsMotion(key, count) && !IsWordMotion(key)
    modifies ed, ed.newBuf, ed.histBuf
    ensures ed.Valid() && ed.State() == Motion(old(ed.State()), key, count)
  {
    if key == Char('h') || key == Left || key == Backspace {
      ed.MoveCursorLeft(Min(ed.cursor, MoveCount(count)));
    } else if key == Char('l') || key == Right || key == Char(' ') {
      ed.MoveCursorRight(CountRight(ed.State(), count));
    } else if key == Char('k') || key == Up {
      ed.MoveUp();
    } else if key == Char('j') || key == Down {
      ed.MoveDown();
    } else if key == Char('0') {
      ed.MoveCursorToStartOfLine();
    } else {
      ed.MoveCursorToEndOfLine();
    }
  }

  /** The move of `handle_key_move_to_char`: to the place the search finds, if it finds one. */
  method CharMoveOn(ed: Editors.Editor, cm: CharMove, n: nat)
    requires ed.Valid() && n > 0 && LastOk(Some(cm))
    modifies ed, ed.newBuf, ed.histBuf
    ensures ed.Valid()
    ensures var p := CharPlace(CurText(old(ed.State())), old(ed.cursor), cm, n);
      ed.State() == if p.Some? then MoveTo(old(ed.State()), p.value) else old(ed.State())
  {
    var p := CharPlace(ed.Line(), ed.cursor, cm, n);
    if p.Some? {
      ed.MoveCursorTo(p.value);
    }
  }

  /** `move_word` and its five companions: the scan over the text, then `move_cursor_to`. */
  method WordMotionOn(ed: Editors.Editor, key: Key, n: nat)
    requires ed.Valid() && IsWordMotion(key)
    modifies ed, ed.newBuf, ed.histBuf
    ensures ed.Valid()
    ensures ed.State() == MoveTo(old(ed.State()), WordTarget(CurText(old(ed.State())), old(ed.cursor), key, n))
  {
    var t := ed.Line();
    var p;
    if key == Char('w') {
      p := ViMotions.ViMoveWord(t, ViMotions.Keyword, ViMotions.Right, ed.cursor, n);
    } else if key == Char('W') {
      p := ViMotions.ViMoveWord(t, ViMotions.Whitespace, ViMotions.Right, ed.cursor, n);
    } else if key == Char('e') {
      p := ViMotions.ViMoveWordEnd(t, ViMotions.Keyword, ViMotions.Right, ed.cursor, n);
    } else if key == Char('E') {
      p := ViMotions.ViMoveWordEnd(t, ViMotions.Whitespace, ViMotions.Right, ed.cursor, n);
    } else if key == Char('b') {
      p := ViMotions.ViMoveWordEnd(t, ViMotions.Keyword, ViMotions.Left, ed.cursor, n);
    } else {
      p := ViMotions.ViMoveWordEnd(t, ViMotions.Whitespace, ViMotions.Left, ed.cursor, n);
    }
    ed.MoveCursorTo(p);
  }

  /** One turn of `r`'s loop: `delete_after_cursor`, then `insert_after_cursor(c)`. */
  method ReplaceStepOn(ed: Editors.Editor, c: char)
    requires ed.Valid() && !ed.noEol && ed.cursor < |ed.Line()|
    modifies ed, ed.newBuf, ed.histBuf
    ensures ed.Valid() && ed.State() == ReplaceStep(old(ed.State()), c)
  {
    ed.DeleteAfterCursor();
    ed.InsertCharsAfterCursor([c]);
  }

  /** One turn of `~`'s loop: a letter deleted and typed in its other case, anything else stepped over. */
  method TildeStepOn(ed: Editors.Editor)
    requires ed.Valid() && !ed.noEol && ed.cursor < |ed.Line()|
    modifies ed, ed.newBuf, ed.histBuf
    ensures ed.Valid() && ed.State() == TildeStep(old(ed.State()))
  {
    var c := ed.Line()[ed.cursor];
    if 'a' <= c <= 'z' || 'A' <= c <= 'Z' {
      ed.DeleteAfterCursor();
      ed.InsertCharsAfterCursor([ToggleCase(c)]);
    } else {
      ed.MoveCursorRight(1);
    }
  }

  /** `r`'s loop: each of `n` characters deleted and `c` typed in its place. */
  method ReplaceLoopOn(ed: Editors.Editor, c: char, n: nat)
    requires ed.Valid() && !ed.noEol && ed.cursor + n <= |ed.Line()|
    modifies ed, ed.newBuf, ed.histBuf
    ensures ed.Valid() && ed.State() == ReplaceLoop(old(ed.State()), c, n)
  {
    ghost var s0 := ed.State();
    var k := n;
    while k > 0
      invariant ed.Valid() && !ed.noEol && ed.cursor + k <= |ed.Line()|
      invariant ReplaceLoop(ed.State(), c, k) == ReplaceLoop(s0, c, n)
    {
      ghost var s, k0 := ed.State(), k;
      ReplaceStepOn(ed, c);
      k := k - 1;
      ReplaceLoopStep(s, c, k0, k);
    }
  }

  /** The editor's side of `handle_key_replace`: the replacements in one undo group, then a step back. */
  method ReplacedByOn(ed: Editors.Editor, c: char, n: nat)
    requires ed.Valid() && !ed.noEol && ed.cursor + n <= |ed.Line()|
    modifies ed, ed.newBuf, ed.histBuf
    ensures ed.Valid() && ed.State() == ReplacedBy(old(ed.State()), c, n)
  {
    GroupStartOn(ed);
    ReplaceLoopOn(ed, c, n);
    GroupEndOn(ed);
    ed.MoveCursorLeft(1);
  }

  /** `~`'s loop over `n` characters from the cursor. */
  method TildeLoopOn(ed: Editors.Editor, n: nat)
    requires ed.Valid() && !ed.noEol && ed.cursor + n <= |ed.Line()|
    modifies ed, ed.newBuf, ed.histBuf
    ensures ed.Valid() && ed.State() == TildeLoop(old(ed.State()), n)
  {
    ghost var s0 := ed.State();
    var k := n;
    while k > 0
      invariant ed.Valid() && !ed.noEol && ed.cursor + k <= |ed.Line()|
      invariant TildeLoop(ed.State(), k) == TildeLoop(s0, n)
    {
      ghost var s, k0 := ed.State(), k;
      TildeStepOn(ed);
      k := k - 1;
      TildeLoopStep(s, k0, k);
    }
  }

  /** One more turn of `r`'s loop, with the count left before and after it as two variables. */
  lemma {:induction false} ReplaceLoopStep(s: EditorState, c: char, k: nat, j: nat)
    requires Valid(s) && !s.noEol && s.cursor + k <= |CurText(s)| && k == j + 1
    ensures var r := ReplaceStep(s, c); !r.noEol && r.cursor + j <= |CurText(r)|
    ensures ReplaceLoop(s, c, k) == ReplaceLoop(ReplaceStep(s, c), c, j)
  {
    assert ReplaceLoop(s, c, j + 1) == ReplaceLoop(ReplaceStep(s, c), c, j);
  }

  /** One more turn of `~`'s loop, likewise. */
  lemma {:induction false} TildeLoopStep(s: EditorState, k: nat, j: nat)
    requires Valid(s) && !s.noEol && s.cursor + k <= |CurText(s)| && k == j + 1
    ensures var r := TildeStep(s); !r.noEol && r.cursor + j <= |CurText(r)|
    ensures TildeLoop(s, k) == TildeLoop(TildeStep(s), j)
  {
    assert TildeLoop(s, j + 1) == TildeLoop(TildeStep(s), j);
  }

  /** One more successful undo of `u`'s loop, likewise. */
  lemma {:induction false} UndoTimesStep(s: EditorState, k: nat, j: nat)
    requires Valid(s) && Undo(s).1 && k == j + 1
    ensures UndoTimes(s, k) == UndoTimes(Undo(s).0, j)
  {
    assert UndoTimes(s, j + 1) == UndoTimes(Undo(s).0, j);
  }

  /** One more successful redo of Ctrl-r's loop, likewise. */
  lemma {:induction false} RedoTimesStep(s: EditorState, k: nat, j: nat)
    requires Valid(s) && Redo(s).1 && k == j + 1
    ensures RedoTimes(s, k) == RedoTimes(Redo(s).0, j)
  {
    assert RedoTimes(s, j + 1) == RedoTimes(Redo(s).0, j);
  }

  /** `u`: up to `n` undos, stopping at the first that finds nothing to undo. */
  method UndoTimesOn(ed: Editors.Editor, n: nat)
    requires ed.Valid()
    modifies ed, ed.newBuf, ed.histBuf
    ensures ed.Valid() && ed.State() == UndoTimes(old(ed.State()), n)
  {
    ghost var s0 := ed.State();
    var k := n;
    while k > 0
      invariant ed.Valid() && UndoTimes(ed.State(), k) == UndoTimes(s0, n)
    {
      ghost var s, k0 := ed.State(), k;
      var did := ed.Undo();
      if !did {
        return;
      }
      k := k - 1;
      UndoTimesStep(s, k0, k);
    }
  }

  /** Ctrl-r: up to `n` redos, stopping at the first that finds nothing to redo. */
  method RedoTimesOn(ed: Editors.Editor, n: nat)
    requires ed.Valid()
    modifies ed, ed.newBuf, ed.histBuf
    ensures ed.Valid() && ed.State() == RedoTimes(old(ed.State()), n)
  {
    ghost var s0 := ed.State();
    var k := n;
    while k > 0
      invariant ed.Valid() && RedoTimes(ed.State(), k) == RedoTimes(s0, n)
    {
      ghost var s, k0 := ed.State(), k;
      var did := ed.Redo();
      if !did {
        return;
      }
      k := k - 1;
      RedoTimesStep(s, k0, k);
    }
  }

  /** `ge` and `gE`: `vi_move_word` to the left, then the cursor moved there. */
  method WordEndBackOn(ed: Editors.Editor, mode: ViMotions.ViMoveMode, n: nat)
    requires ed.Valid()
    modifies ed, ed.newBuf, ed.histBuf
    ensures ed.Valid()
    ensures ed.State() == MoveTo(old(ed.State()), ViMotions.MoveWord(CurText(old(ed.State())), mode, ViMotions.Left, old(ed.cursor), n))
  {
    var p := ViMotions.ViMoveWord(ed.Line(), mode, ViMotions.Left, ed.cursor, n);
    ed.MoveCursorTo(p);
  }

  /** The cursor move with which `i`, `a`, `A` and `I` enter insert mode. */
  method EntryMoveOn(ed: Editors.Editor, key: Key)
    requires ed.Valid()
    modifies ed, ed.newBuf, ed.histBuf
    ensures ed.Valid()
    ensures ed.State() ==
      if key == Char('a') then MoveRight(old(ed.State()), 1)
      else if key == Char('A') then MoveToEnd(old(ed.State()))
      else if key == Char('I') then MoveToStart(old(ed.State()))
      else old(ed.State())
  {
    if key == Char('a') {
      ed.MoveCursorRight(1);
    } else if key == Char('A') {
      ed.MoveCursorToEndOfLine();
    } else if key == Char('I') {
      ed.MoveCursorToStartOfLine();
    }
  }

  method RegroupOn(ed: Editors.Editor)
    requires ed.Valid()
    modifies ed, ed.newBuf, ed.histBuf
    ensures ed.Valid() && ed.State() == GroupStart(GroupEnd(old(ed.State())))
  {
    GroupEndOn(ed);
    GroupStartOn(ed);
  }

  /** Up and Down in insert mode: the move made between two undo groups. */
  method RecallOn(ed: Editors.Editor, key: Key)
    requires ed.Valid() && (key == Up || key == Down)
    modifies ed, ed.newBuf, ed.histBuf
    ensures ed.Valid()
    ensures var e := GroupEnd(old(ed.State())); ed.State() == GroupStart(if key == Up then MoveUp(e) else MoveDown(e))
  {
    GroupEndOn(ed);
    if key == Up {
      ed.MoveUp();
    } else {
      ed.MoveDown();
    }
    GroupStartOn(ed);
  }

  /** `dd` and `cc`: the whole line deleted. */
  method LineDeletedOn(ed: Editors.Editor)
    requires ed.Valid()
    modifies ed, ed.newBuf, ed.histBuf
    ensures ed.Valid() && ed.State() == DeleteAllAfter(MoveToStart(old(ed.State())))
  {
    ed.MoveCursorToStartOfLine();
    ed.DeleteAllAfterCursor();
  }

  /**
   * The editor's side of `pop_mode_after_movement`, given the stack `st`
   * it started from: `last` is the mode popped that decides whether to
   * delete, and `normal` whether the stack left is normal mode.
   */
  method MovementEdOn(ed: Editors.Editor, ghost st: ModeStack, last: Mode, normal: bool, mt: MoveType)
    requires ed.Valid() && last == MovementPops(st).1 && normal == (Current(MovementPops(st).0) == Mode.Normal)
    modifies ed, ed.newBuf, ed.histBuf
    ensures ed.Valid() && ed.State() == AfterMovementEd(old(ed.State()), st, mt)
  {
    SetNoEolOn(ed, normal);
    if last.Delete? {
      if mt == Exclusive {
        ed.DeleteUntil(last.start);
      } else {
        ed.DeleteUntilInclusive(last.start);
      }
    }
  }

  // ---------------------------------------------------------------------
  // The keymap

  /** `Vi`: the mode stack, the counts, and the commands recorded for `.`. */
  class Vi {
    var modeStack: ModeStack
    var currentCommand: seq<Key>
    var lastCommand: seq<Key>
    var currentInsert: Option<Key>
    var lastInsert: Option<Key>
    var count: U32
    var secondaryCount: U32
    var lastCount: U32
    var movementReset: bool
    var lastCharMovement: Option<CharMove>

    /** The keymap's fields as a value. */
    function Value(): ViState
      reads this
    {
      ViState(modeStack, currentCommand, lastCommand, currentInsert, lastInsert, count, secondaryCount,
              lastCount, movementReset, lastCharMovement)
    }

    /** The keymap and the editor it drives, as a value. */
    function Now(ed: Editors.Editor): Session
      reads this, ed, ed.newBuf, ed.histBuf, ed.history
    {
      Session(Value(), ed.State())
    }

    /** What holds between keys. */
    ghost predicate Consistent(ed: Editors.Editor)
      reads this, ed, ed.newBuf, ed.histBuf, ed.history
    {
      ed.Valid() && Inv(Now(ed))
    }

    /** `Vi::new`. */
    constructor ()
      ensures Value() == NewVi()
    {
      modeStack := WithInsert();
      currentCommand := [];
      lastCommand := [];
      currentInsert := None;
      lastInsert := Some(Char('i'));
      count := 0;
      secondaryCount := 0;
      lastCount := 0;
      movementReset := false;
      lastCharMovement := None;
    }

    /** `init`: the keymap starts in insert mode, so an undo group is opened. */
    method Init(ed: Editors.Editor)
      requires ed.Valid()
      modifies ed, ed.newBuf, ed.histBuf
      ensures ed.Valid() && ed.State() == GroupStart(old(ed.State()))
    {
      GroupStartOn(ed);
    }

    /** `set_mode_preserve_last`. */
    method SetModePreserveLast(m: Mode, ed: Editors.Editor)
      requires ed.Valid() && m != Mode.Normal
      modifies this, ed, ed.newBuf, ed.histBuf
      ensures ed.Valid() && Now(ed) == PushMode(old(Now(ed)), m)
    {
      SetNoEolOn(ed, m == Mode.Normal);
      movementReset := m != Mode.Insert;
      modeStack := Pushed(modeStack, m);
      if m == Mode.Insert || m == Mode.Tilde {
        GroupStartOn(ed);
      }
    }

    /** `set_mode`. */
    method SetMode(m: Mode, ed: Editors.Editor)
      requires Consistent(ed) && m != Mode.Normal && m != Mode.Tilde
      modifies this, ed, ed.newBuf, ed.histBuf
      ensures Consistent(ed) && Now(ed) == ViModel.SetMode(old(Now(ed)), m)
    {
      SetModePreserveLast(m, ed);
      if m == Mode.Insert {
        lastCount := 0;
        lastCommand := [];
      }
    }

    /** `pop_mode`. */
    method PopMode(ed: Editors.Editor)
      requires ed.Valid() && NoNormal(modeStack.modes)
      modifies this, ed, ed.newBuf, ed.histBuf
      ensures ed.Valid() && Now(ed) == ViModel.PopMode(old(Now(ed)))
    {
      var last := Current(modeStack);
      modeStack := Popped(modeStack);
      movementReset := Current(modeStack) != Mode.Insert;
      PopEdOn(ed, last, Current(modeStack) == Mode.Normal);
    }

    /** `normal_mode_abort`. */
    method NormalModeAbort(ed: Editors.Editor)
      requires Consistent(ed)
      modifies this, ed, ed.newBuf, ed.histBuf
      ensures Consistent(ed) && Now(ed) == ViModel.NormalModeAbort(old(Now(ed)))
    {
      modeStack := ModeStack([]);
      SetNoEolOn(ed, true);
      count := 0;
    }

    /**
     * The keymap's side of `pop_mode_after_movement`: the stack popped
     * once, and once more over a pending delete, which is recorded for
     * `.`.  Returns the mode that decides whether to delete and whether
     * the stack left is normal mode.
     */
    method PopAfterMovement() returns (last: Mode, normal: bool)
      modifies this
      ensures Value() == AfterMovementVi(old(Value()))
      ensures last == MovementPops(old(modeStack)).1 && normal == (Current(MovementPops(old(modeStack)).0) == Mode.Normal)
    {
      ghost var v := Value();
      var original := Current(modeStack);
      modeStack := Popped(modeStack);
      last := original;
      if Current(modeStack).Delete? {
        last := Current(modeStack);
        modeStack := Popped(modeStack);
      }
      assert (modeStack, last) == MovementPops(v.stack);
      normal := Current(modeStack) == Mode.Normal;
      movementReset := Current(modeStack) != Mode.Insert;
      ghost var v1 := Value();
      if last.Delete? {
        lastCommand, currentCommand := currentCommand, lastCommand;
        lastInsert := currentInsert;
        lastCount := count;
        count := 0;
        secondaryCount := 0;
      }
      ghost var v2 := Value();
      assert v2 == if last.Delete? then
        v1.(lastCommand := v.currentCommand, currentCommand := v.lastCommand, lastInsert := v.currentInsert,
            lastCount := v.count, count := 0, secondaryCount := 0)
        else v1;
      if original == Mode.Normal {
        count := 0;
      }
    }

    /**
     * `pop_mode_after_movement`.  The keymap's fields are updated before
     * the editor is told, which the source interleaves; neither reads the
     * other, so the order makes no difference.
     */
    method PopModeAfterMovement(mt: MoveType, ed: Editors.Editor)
      requires Consistent(ed)
      modifies this, ed, ed.newBuf, ed.histBuf
      ensures Consistent(ed) && Now(ed) == ViModel.PopModeAfterMovement(old(Now(ed)), mt)
    {
      ghost var w := Now(ed);
      var last, normal := PopAfterMovement();
      MovementEdOn(ed, w.vi.stack, last, normal, mt);
    }

    // -------------------------------------------------------------------
    // Movements and searches

    /** A movement key of `handle_key_normal`: the move, then `pop_mode_after_movement`. */
    method MotionKey(key: Key, ed: Editors.Editor)
      requires Consistent(ed) && IsMotion(key, count)
      modifies this, ed, ed.newBuf, ed.histBuf
      ensures Consistent(ed) && Now(ed) == ViModel.MotionKey(old(Now(ed)), key)
    {
      if IsWordMotion(key) {
        WordMotionOn(ed, key, MoveCount(count));
      } else {
        MotionOn(ed, key, count);
      }
      PopModeAfterMovement(Exclusive, ed);
    }

    /**
     * The keymap's side of the start of `handle_key_move_to_char`: the
     * count taken, and a new search recorded for `;` and `,`.
     */
    method TakeSearch(key: Key, movement: CharMovement) returns (n: nat, target: Option<CharMove>)
      requires LastOk(lastCharMovement)
      modifies this
      ensures n == MoveCount(old(count)) && target == CharTarget(key, movement, old(lastCharMovement))
      ensures Value() ==
        if target.None? || movement == Repeat || movement == ReverseRepeat then old(Value()).(count := 0)
        else old(Value()).(count := 0, lastCharMovement := target, currentCommand := old(currentCommand) + [key])
    {
      n := MoveCount(count);
      count := 0;
      target := CharTarget(key, movement, lastCharMovement);
      if target.Some? && movement != Repeat && movement != ReverseRepeat {
        lastCharMovement := target;
        currentCommand := currentCommand + [key];
      }
    }

    /** `handle_key_move_to_char`. */
    method MoveToCharKey(key: Key, movement: CharMovement, ed: Editors.Editor)
      requires Consistent(ed)
      modifies this, ed, ed.newBuf, ed.histBuf
      ensures Consistent(ed) && Now(ed) == ViModel.MoveToCharKey(old(Now(ed)), key, movement)
    {
      ghost var w := Now(ed);
      var n, target := TakeSearch(key, movement);
      assert ed.State() == w.ed;
      MoveToCharKeyIs(w, key, movement, Value(), n, target);
      if target.None? {
        NormalModeAbort(ed);
      } else {
        SearchMove(target.value, n, ed);
      }
    }

    /** The rest of `handle_key_move_to_char`: the move, then `pop_mode_after_movement`. */
    method SearchMove(cm: CharMove, n: nat, ed: Editors.Editor)
      requires Consistent(ed) && n > 0 && LastOk(Some(cm))
      modifies this, ed, ed.newBuf, ed.histBuf
      ensures Consistent(ed)
      ensures var w := old(Now(ed)); var p := CharPlace(CurText(w.ed), w.ed.cursor, cm, n);
        Now(ed) == ViModel.PopModeAfterMovement(Session(w.vi, if p.Some? then MoveTo(w.ed, p.value) else w.ed), CharMoveType(cm.movement))
    {
      CharMoveOn(ed, cm, n);
      PopModeAfterMovement(CharMoveType(cm.movement), ed);
    }

    /** `handle_key_g`. */
    method GKey(key: Key, ed: Editors.Editor)
      requires Consistent(ed)
      modifies this, ed, ed.newBuf, ed.histBuf
      ensures Consistent(ed) && Now(ed) == ViModel.GKey(old(Now(ed)), key)
    {
      ghost var w := Now(ed);
      var n := MoveCount(count);
      AppendCommand(key);
      assert ed.State() == w.ed;
      GKeyIs(w, key);
      if key == Char('e') || key == Char('E') {
        WordEndBack(if key == Char('e') then ViMotions.Keyword else ViMotions.Whitespace, n, ed);
      } else {
        NormalModeAbort(ed);
      }
      ghost var p := Now(ed);
      ClearCount();
      assert ed.State() == p.ed;
    }

    /** `key` added to the command being recorded for `.`. */
    method AppendCommand(key: Key)
      modifies this
      ensures Value() == old(Value()).(currentCommand := old(currentCommand) + [key])
    {
      currentCommand := currentCommand + [key];
    }

    /** The count used up. */
    method ClearCount()
      modifies this
      ensures Value() == old(Value()).(count := 0)
    {
      count := 0;
    }

    /** `ge` and `gE`: the move, then `pop_mode_after_movement` for an inclusive movement. */
    method WordEndBack(mode: ViMotions.ViMoveMode, n: nat, ed: Editors.Editor)
      requires Consistent(ed)
      modifies this, ed, ed.newBuf, ed.histBuf
      ensures Consistent(ed)
      ensures var w := old(Now(ed));
        var p := ViMotions.MoveWord(CurText(w.ed), mode, ViMotions.Left, w.ed.cursor, n);
        Now(ed) == ViModel.PopModeAfterMovement(Session(w.vi, MoveTo(w.ed, p)), Inclusive)
    {
      WordEndBackOn(ed, mode, n);
      PopModeAfterMovement(Inclusive, ed);
    }

    // -------------------------------------------------------------------
    // Replace and ~

    /** The last command state updated for `.`: no insert, `cmd`, and the count. */
    method Record(cmd: seq<Key>)
      modifies this
      ensures Value() == old(Value()).(lastInsert := None, lastCommand := cmd, lastCount := old(count))
    {
      lastInsert := None;
      lastCommand := cmd;
      lastCount := count;
    }

    /** `handle_key_replace`. */
    method ReplaceKey(key: Key, ed: Editors.Editor)
      requires Consistent(ed) && Current(modeStack) == Mode.Replace
      modifies this, ed, ed.newBuf, ed.histBuf
      ensures Consistent(ed) && Now(ed) == ViModel.ReplaceKey(old(Now(ed)), key)
    {
      if key.Char? {
        ReplaceChars(key, ed);
        PopMode(ed);
      } else {
        NormalModeAbort(ed);
      }
      ghost var p := Now(ed);
      ClearCount();
      assert ed.State() == p.ed;
    }

    /** `handle_key_replace` on a character: with enough characters, recorded for `.` and replaced. */
    method ReplaceChars(key: Key, ed: Editors.Editor)
      requires Consistent(ed) && Current(modeStack) == Mode.Replace && key.Char?
      modifies this, ed, ed.newBuf, ed.histBuf
      ensures ed.Valid() && StackOk(modeStack.modes) && LastOk(lastCharMovement)
      ensures Now(ed) == ViModel.Replaced(old(Now(ed)), key.c)
    {
      var n := MoveCount(count);
      if CountRight(ed.State(), count) == n {
        Record([Char('r'), key]);
        ReplacedByOn(ed, key.c, n);
      }
    }

    /** `~` in `handle_key_normal`: `set_mode(Tilde)` is `set_mode_preserve_last(Tilde)`. */
    method TildeKey(ed: Editors.Editor)
      requires Consistent(ed)
      modifies this, ed, ed.newBuf, ed.histBuf
      ensures Consistent(ed) && Now(ed) == ViModel.TildeKey(old(Now(ed)))
    {
      Record([Char('~')]);
      TildeRun(ed);
      PopMode(ed);
    }

    /** `~` in its own mode: the case of up to `count` characters from the cursor changed. */
    method TildeRun(ed: Editors.Editor)
      requires Consistent(ed)
      modifies this, ed, ed.newBuf, ed.histBuf
      ensures ed.Valid() && NoNormal(modeStack.modes) && StackOk(Popped(modeStack).modes) && LastOk(lastCharMovement)
      ensures var p := PushMode(old(Now(ed)), Mode.Tilde);
        Now(ed) == Session(p.vi, TildeLoop(p.ed, CountRight(p.ed, p.vi.count)))
    {
      StackLaws(modeStack, Mode.Tilde);
      SetModePreserveLast(Mode.Tilde, ed);
      TildeLoopOn(ed, CountRight(ed.State(), count));
    }

    // -------------------------------------------------------------------
    // Normal mode

    /** `i`, `a`, `A`, `I` and `s`. */
    method InsertCommand(key: Key, ed: Editors.Editor)
      requires Consistent(ed) && IsInsertKey(key)
      modifies this, ed, ed.newBuf, ed.histBuf
      ensures Consistent(ed) && Now(ed) == ViModel.InsertCommand(old(Now(ed)), key)
    {
      ghost var w := Now(ed);
      SetLastInsert(key);
      assert ed.State() == w.ed;
      SetMode(Mode.Insert, ed);
      InsertEntry(key, ed);
    }

    /** The key that began the insert remembered for `.`. */
    method SetLastInsert(key: Key)
      modifies this
      ensures Value() == old(Value()).(lastInsert := Some(key))
    {
      lastInsert := Some(key);
    }

    /** What `a`, `A`, `I` and `s` do once in insert mode. */
    method InsertEntry(key: Key, ed: Editors.Editor)
      requires Consistent(ed) && IsInsertKey(key)
      modifies this, ed, ed.newBuf, ed.histBuf
      ensures Consistent(ed)
      ensures var p := old(Now(ed));
        Now(ed) ==
          if key == Char('i') then p
          else if key == Char('a') then Session(p.vi, MoveRight(p.ed, 1))
          else if key == Char('A') then Session(p.vi, MoveToEnd(p.ed))
          else if key == Char('I') then Session(p.vi, MoveToStart(p.ed))
          else Session(p.vi.(lastCount := p.vi.count, count := 0), DeleteUntil(p.ed, CountEnd(p.ed, p.vi.count)))
    {
      ghost var p := Now(ed);
      if key == Char('s') {
        SubstituteEntry(ed);
      } else {
        EntryMoveOn(ed, key);
        assert Value() == p.vi;
      }
    }

    /** `s`: the characters under the count are deleted, the count consumed. */
    method SubstituteEntry(ed: Editors.Editor)
      requires Consistent(ed)
      modifies this, ed, ed.newBuf, ed.histBuf
      ensures Consistent(ed)
      ensures Value() == old(Value()).(lastCount := old(count), count := 0)
      ensures ed.State() == DeleteUntil(old(ed.State()), old(CountEnd(ed.State(), count)))
    {
      ghost var e := ed.State();
      var pos := CountEnd(ed.State(), count);
      ConsumeCount();
      assert ed.State() == e;
      ed.DeleteUntil(pos);
    }

    /** The count is used up, and remembered for `.`. */
    method ConsumeCount()
      modifies this
      ensures Value() == old(Value()).(lastCount := old(count), count := 0)
    {
      lastCount, count := count, 0;
    }

    /** `d` and `c`. */
    method DeleteCommand(key: Key, ed: Editors.Editor)
      requires Consistent(ed) && (key == Char('d') || key == Char('c'))
      modifies this, ed, ed.newBuf, ed.histBuf
      ensures Consistent(ed) && Now(ed) == ViModel.DeleteCommand(old(Now(ed)), key)
    {
      DeleteStart(key, ed);
      var start := ed.cursor;
      SetMode(Mode.Delete(start), ed);
      ghost var q := Now(ed);
      CountToSecondary();
      assert ed.State() == q.ed;
    }

    /** The count set aside for the movement that completes `d` or `c`. */
    method CountToSecondary()
      modifies this
      ensures Value() == old(Value()).(secondaryCount := old(count), count := 0)
    {
      secondaryCount, count := count, 0;
    }

    /** The start of `d` and `c`: the command begun, and `c` in insert mode. */
    method DeleteStart(key: Key, ed: Editors.Editor)
      requires Consistent(ed) && (key == Char('d') || key == Char('c'))
      modifies this, ed, ed.newBuf, ed.histBuf
      ensures Consistent(ed)
      ensures var w := old(Now(ed));
        Now(ed) ==
          if key == Char('d') then Session(w.vi.(currentCommand := [key], currentInsert := None), w.ed)
          else ViModel.SetMode(Session(w.vi.(currentCommand := [], currentInsert := Some(key)), w.ed), Mode.Insert)
    {
      ghost var w := Now(ed);
      if key == Char('d') {
        BeginCommand([key], None);
        assert ed.State() == w.ed;
      } else {
        BeginCommand([], Some(key));
        assert ed.State() == w.ed;
        SetMode(Mode.Insert, ed);
      }
    }

    /** The command being recorded for `.` restarted with `cmd`, and the insert that began it. */
    method BeginCommand(cmd: seq<Key>, ins: Option<Key>)
      modifies this
      ensures Value() == old(Value()).(currentCommand := cmd, currentInsert := ins)
    {
      currentCommand, currentInsert := cmd, ins;
    }

    /** `D` and `C`. */
    method DeleteAllCommand(key: Key, ed: Editors.Editor)
      requires Consistent(ed) && (key == Char('D') || key == Char('C'))
      modifies this, ed, ed.newBuf, ed.histBuf
      ensures Consistent(ed) && Now(ed) == ViModel.DeleteAllCommand(old(Now(ed)), key)
    {
      ghost var w := Now(ed);
      RecordUncounted([key]);
      assert ed.State() == w.ed;
      if key == Char('C') {
        EnterPreservingLast(Mode.Insert, ed);
      }
      ghost var p := Now(ed);
      ed.DeleteAllAfterCursor();
      assert Value() == p.vi;
    }

    /** The last command state updated for `.` with no count: no insert, `cmd`, and the count cleared. */
    method RecordUncounted(cmd: seq<Key>)
      modifies this
      ensures Value() == old(Value()).(lastInsert := None, lastCommand := cmd, count := 0, lastCount := 0)
    {
      lastInsert, lastCommand, count, lastCount := None, cmd, 0, 0;
    }

    /** `set_mode_preserve_last` between keys. */
    method EnterPreservingLast(m: Mode, ed: Editors.Editor)
      requires Consistent(ed) && m != Mode.Normal && m != Mode.Tilde
      modifies this, ed, ed.newBuf, ed.histBuf
      ensures Consistent(ed) && Now(ed) == ViModel.SetModePreserveLast(old(Now(ed)), m)
    {
      StackLaws(modeStack, m);
      SetModePreserveLast(m, ed);
    }

    /** `x` and Delete. */
    method CutCommand(key: Key, ed: Editors.Editor)
      requires Consistent(ed)
      modifies this, ed, ed.newBuf, ed.histBuf
      ensures Consistent(ed) && Now(ed) == ViModel.CutCommand(old(Now(ed)), key)
    {
      ghost var w := Now(ed);
      Record([key]);
      assert ed.State() == w.ed;
      var pos := CountEnd(ed.State(), count);
      ed.DeleteUntil(pos);
      count := 0;
      CutCommandIs(w, key);
    }

    /** `handle_key_normal` for every key but `.`, in the order of its arms. */
    method NormalOther(key: Key, ed: Editors.Editor)
      requires Consistent(ed) && key != Char('.')
      modifies this, ed, ed.newBuf, ed.histBuf
      ensures Consistent(ed) && Now(ed) == ViModel.NormalOther(old(Now(ed)), key)
    {
      if key == Esc {
        count := 0;
      } else if IsInsertKey(key) {
        InsertCommand(key, ed);
      } else {
        NormalEdit(key, ed);
      }
    }

    /** `handle_key_normal` on `r`, `d`, `c` and the arms after them. */
    method NormalEdit(key: Key, ed: Editors.Editor)
      requires Consistent(ed)
      modifies this, ed, ed.newBuf, ed.histBuf
      ensures Consistent(ed) && Now(ed) == ViModel.NormalEdit(old(Now(ed)), key)
    {
      if key == Char('r') {
        SetMode(Mode.Replace, ed);
      } else if key == Char('d') || key == Char('c') {
        DeleteCommand(key, ed);
      } else {
        NormalChange(key, ed);
      }
    }

    /** `handle_key_normal` on `D`, `C`, the movements and the arms after them. */
    method NormalChange(key: Key, ed: Editors.Editor)
      requires Consistent(ed)
      modifies this, ed, ed.newBuf, ed.histBuf
      ensures Consistent(ed) && Now(ed) == ViModel.NormalChange(old(Now(ed)), key)
    {
      if key == Char('D') || key == Char('C') {
        DeleteAllCommand(key, ed);
      } else if IsMotion(key, count) {
        MotionKey(key, ed);
      } else {
        NormalRest(key, ed);
      }
    }

    /** `handle_key_normal` on the searches and the arms after them. */
    method NormalRest(key: Key, ed: Editors.Editor)
      requires Consistent(ed)
      modifies this, ed, ed.newBuf, ed.histBuf
      ensures Consistent(ed) && Now(ed) == ViModel.NormalRest(old(Now(ed)), key)
    {
      if key == Char('t') || key == Char('T') || key == Char('f') || key == Char('F') {
        SetMode(Mode.MoveToChar(SearchMode(key)), ed);
      } else if key == Char(';') {
        MoveToCharKey(key, Repeat, ed);
      } else if key == Char(',') {
        MoveToCharKey(key, ReverseRepeat, ed);
      } else {
        NormalCount(key, ed);
      }
    }

    /** `handle_key_normal` on `g`, the digits and the arms after them. */
    method NormalCount(key: Key, ed: Editors.Editor)
      requires Consistent(ed)
      modifies this, ed, ed.newBuf, ed.histBuf
      ensures Consistent(ed) && Now(ed) == ViModel.NormalCount(old(Now(ed)), key)
    {
      if key == Char('g') {
        SetMode(Mode.G, ed);
      } else if key.Char? && '0' <= key.c <= '9' {
        count := SatAdd(SatMul(count, 10), DigitValue(key.c));
      } else {
        NormalEditing(key, ed);
      }
    }

    /** `u` and Ctrl-r: undo or redo, as many times as the count says. */
    method UndoRedoKey(key: Key, ed: Editors.Editor)
      requires Consistent(ed) && (key == Char('u') || key == Ctrl('r'))
      modifies this, ed, ed.newBuf, ed.histBuf
      ensures Consistent(ed)
      ensures var w := old(Now(ed));
        Now(ed) == Session(w.vi.(count := 0),
          if key == Char('u') then UndoTimes(w.ed, MoveCount(w.vi.count)) else RedoTimes(w.ed, MoveCount(w.vi.count)))
    {
      ghost var w := Now(ed);
      var n := MoveCount(count);
      ClearCount();
      assert ed.State() == w.ed;
      if key == Char('u') {
        UndoTimesOn(ed, n);
      } else {
        RedoTimesOn(ed, n);
      }
    }

    /** `handle_key_normal` on `x`, `~`, `u`, Ctrl-r and the keys every mode shares. */
    method NormalEditing(key: Key, ed: Editors.Editor)
      requires Consistent(ed)
      modifies this, ed, ed.newBuf, ed.histBuf
      ensures Consistent(ed) && Now(ed) == ViModel.NormalEditing(old(Now(ed)), key)
    {
      if key == Char('x') || key == Key.Delete {
        CutCommand(key, ed);
      } else if key == Char('~') {
        TildeKey(ed);
      } else if key == Char('u') || key == Ctrl('r') {
        UndoRedoKey(key, ed);
      } else {
        CommonKeyOn(ed, key);
      }
    }

    /** `handle_key_delete_or_change`. */
    method DeleteOrChange(key: Key, ed: Editors.Editor)
      requires Consistent(ed)
      modifies this, ed, ed.newBuf, ed.histBuf
      ensures Consistent(ed) && Now(ed) == ViModel.DeleteOrChange(old(Now(ed)), key)
    {
      var v := Value();
      if IsMovementKey(key) || (key == Char('0') && v.count == 0) {
        DeleteMovement(key, ed);
      } else if key.Char? && '0' <= key.c <= '9' {
        NormalOther(key, ed);
      } else if (key == Char('c') && v.currentInsert == Some(Char('c'))) || (key == Char('d') && v.currentInsert.None?) {
        DeleteLine(key, ed);
      } else {
        NormalModeAbort(ed);
      }
    }

    /** `dd` and `cc`: the whole line deleted, then back to the mode before. */
    method DeleteLine(key: Key, ed: Editors.Editor)
      requires Consistent(ed)
      modifies this, ed, ed.newBuf, ed.histBuf
      ensures Consistent(ed)
      ensures Now(ed) == ViModel.DeleteLine(old(Now(ed)), key)
    {
      ghost var w := Now(ed);
      EndCommand(key);
      assert ed.State() == w.ed;
      ghost var p := Now(ed);
      LineDeletedOn(ed);
      assert Value() == p.vi;
      PopMode(ed);
    }

    /** The movement that completes `d` or `c`, under the product of the two counts. */
    method DeleteMovement(key: Key, ed: Editors.Editor)
      requires Consistent(ed) && key != Char('.')
      modifies this, ed, ed.newBuf, ed.histBuf
      ensures Consistent(ed)
      ensures Now(ed) == ViModel.DeleteMovement(old(Now(ed)), key)
    {
      ghost var w := Now(ed);
      AddMovement(key);
      assert ed.State() == w.ed;
      NormalOther(key, ed);
    }

    /** The movement of `d` or `c` recorded, under the product of the two counts. */
    method AddMovement(key: Key)
      modifies this
      ensures Value() == old(Value()).(count := Combined(old(count), old(secondaryCount)), currentCommand := old(currentCommand) + [key])
    {
      count, currentCommand := Combined(count, secondaryCount), currentCommand + [key];
    }

    /** The second key of `dd` or `cc` recorded, and both counts used up. */
    method EndCommand(key: Key)
      modifies this
      ensures Value() == old(Value()).(currentCommand := old(currentCommand) + [key], count := 0, secondaryCount := 0)
    {
      currentCommand, count, secondaryCount := currentCommand + [key], 0, 0;
    }

    // -------------------------------------------------------------------
    // Insert mode

    /** A typed key after a movement: a new undo group and a new command, as if `i` had been typed. */
    method InsertReset(ed: Editors.Editor)
      requires Consistent(ed)
      modifies this, ed, ed.newBuf, ed.histBuf
      ensures Consistent(ed) && Now(ed) == ViModel.InsertReset(old(Now(ed)))
    {
      if movementReset {
        RegroupOn(ed);
        lastCommand, movementReset, lastInsert := [], false, Some(Char('i'));
      }
    }

    /** A character, Backspace or Delete in insert mode. */
    method InsertTyped(key: Key, ed: Editors.Editor)
      requires Consistent(ed) && (key.Char? || key == Backspace || key == Key.Delete)
      modifies this, ed, ed.newBuf, ed.histBuf
      ensures Consistent(ed) && Now(ed) == ViModel.InsertTyped(old(Now(ed)), key)
    {
      InsertReset(ed);
      ghost var p := Now(ed);
      lastCommand := lastCommand + [key];
      assert ed.State() == p.ed;
      ghost var q := Now(ed);
      if key.Char? {
        ed.InsertCharsAfterCursor([key.c]);
      } else {
        CommonKeyOn(ed, key);
      }
      assert Value() == q.vi;
    }

    /** Up and Down in insert mode. */
    method InsertRecall(key: Key, ed: Editors.Editor)
      requires Consistent(ed) && (key == Up || key == Down)
      modifies this, ed, ed.newBuf, ed.histBuf
      ensures Consistent(ed) && Now(ed) == ViModel.InsertRecall(old(Now(ed)), key)
    {
      ghost var w := Now(ed);
      ResetMovement();
      assert ed.State() == w.ed;
      ghost var p := Now(ed);
      RecallOn(ed, key);
      assert Value() == p.vi;
    }

    /** A movement in insert mode: the count cleared and a later insert starts afresh. */
    method ResetMovement()
      modifies this
      ensures Value() == old(Value()).(count := 0, movementReset := true)
    {
      count, movementReset := 0, true;
    }

    /** The arrow keys, Home and End in insert mode: the count cleared and a later insert starts afresh. */
    method InsertMove(key: Key, ed: Editors.Editor)
      requires Consistent(ed)
      modifies this, ed, ed.newBuf, ed.histBuf
      ensures Consistent(ed)
      ensures Now(ed) == ViModel.InsertMoved(old(Now(ed)), key)
    {
      ghost var w := Now(ed);
      ResetMovement();
      assert ed.State() == w.ed;
      ghost var p := Now(ed);
      CommonKeyOn(ed, key);
      assert Value() == p.vi;
    }

    /** `handle_key_insert` for every key but Esc. */
    method InsertOther(key: Key, ed: Editors.Editor)
      requires Consistent(ed)
      modifies this, ed, ed.newBuf, ed.histBuf
      ensures Consistent(ed) && Now(ed) == ViModel.InsertOther(old(Now(ed)), key)
    {
      if key.Char? || key == Backspace || key == Key.Delete {
        InsertTyped(key, ed);
      } else {
        InsertUntyped(key, ed);
      }
    }

    /** `handle_key_insert` for the keys that neither type nor delete. */
    method InsertUntyped(key: Key, ed: Editors.Editor)
      requires Consistent(ed)
      modifies this, ed, ed.newBuf, ed.histBuf
      ensures Consistent(ed) && Now(ed) == ViModel.InsertUntyped(old(Now(ed)), key)
    {
      if key == Left || key == Right || key == Home || key == End {
        InsertMove(key, ed);
      } else if key == Up || key == Down {
        InsertRecall(key, ed);
      } else {
        ghost var w := Now(ed);
        CommonKeyOn(ed, key);
        assert Value() == w.vi;
      }
    }

    // -------------------------------------------------------------------
    // The handlers that replay keys

    /** `handle_key_core`. */
    method HandleKeyCore(key: Key, ed: Editors.Editor, fuel: nat)
      requires Consistent(ed)
      modifies this, ed, ed.newBuf, ed.histBuf
      ensures Consistent(ed) && Now(ed) == ViModel.HandleKeyCore(old(Now(ed)), key, fuel)
      decreases fuel, 3
    {
      var m := Current(modeStack);
      if m.Normal? {
        NormalKey(key, ed, fuel);
      } else if m.Insert? {
        InsertKey(key, ed, fuel);
      } else {
        PendingKey(key, ed);
      }
    }

    /** `handle_key_core` in the modes that wait for one more key. */
    method PendingKey(key: Key, ed: Editors.Editor)
      requires Consistent(ed) && !Current(modeStack).Normal? && !Current(modeStack).Insert?
      modifies this, ed, ed.newBuf, ed.histBuf
      ensures Consistent(ed) && Now(ed) == ViModel.PendingKey(old(Now(ed)), key)
    {
      var m := Current(modeStack);
      if m.Replace? {
        ReplaceKey(key, ed);
      } else if m.Delete? {
        DeleteOrChange(key, ed);
      } else if m.MoveToChar? {
        MoveToCharKey(key, m.movement, ed);
      } else if m.G? {
        GKey(key, ed);
      } else {
        assert false;
      }
    }

    /** `handle_key_normal`. */
    method NormalKey(key: Key, ed: Editors.Editor, fuel: nat)
      requires Consistent(ed)
      modifies this, ed, ed.newBuf, ed.histBuf
      ensures Consistent(ed) && Now(ed) == ViModel.NormalKey(old(Now(ed)), key, fuel)
      decreases fuel, 2
    {
      if key == Char('.') {
        count := if count == 0 && lastCount == 0 then 1 else if count == 0 then lastCount else count;
        RepeatLast(ed, fuel);
      } else {
        NormalOther(key, ed);
      }
    }

    /** `repeat`. */
    method RepeatLast(ed: Editors.Editor, fuel: nat)
      requires Consistent(ed)
      modifies this, ed, ed.newBuf, ed.histBuf
      ensures Consistent(ed) && Now(ed) == ViModel.RepeatLast(old(Now(ed)), fuel)
      decreases fuel, 1
    {
      ghost var w := Now(ed);
      var keys := lastCommand;
      BeginRepeat();
      assert ed.State() == w.ed;
      RepeatRun(keys, ed, fuel);
      ghost var p := Now(ed);
      SetLastCommand(keys);
      assert ed.State() == p.ed;
    }

    /** The count remembered for `.`, and the recorded command set aside while it replays. */
    method BeginRepeat()
      modifies this
      ensures Value() == old(Value()).(lastCount := old(count), lastCommand := [])
    {
      lastCount, lastCommand := count, [];
    }

    /** The recorded command put back after its replay. */
    method SetLastCommand(keys: seq<Key>)
      modifies this
      ensures Value() == old(Value()).(lastCommand := keys)
    {
      lastCommand := keys;
    }

    /** The replay of `repeat` while the replay depth lasts. */
    method RepeatRun(keys: seq<Key>, ed: Editors.Editor, fuel: nat)
      requires Consistent(ed)
      modifies this, ed, ed.newBuf, ed.histBuf
      ensures Consistent(ed) && Now(ed) == ViModel.RepeatRun(old(Now(ed)), keys, fuel)
      decreases fuel, 0, 2
    {
      if fuel > 0 {
        ghost var w := Now(ed);
        var f := fuel - 1;
        assert ViModel.RepeatRun(w, keys, fuel) == ViModel.ReplayRecorded(w, keys, f);
        Replay(keys, ed, f);
      }
    }

    /** The replay of `repeat`: the recorded insert key, the keys, and an Esc to leave insert mode. */
    method Replay(keys: seq<Key>, ed: Editors.Editor, fuel: nat)
      requires Consistent(ed)
      modifies this, ed, ed.newBuf, ed.histBuf
      ensures Consistent(ed)
      ensures Now(ed) == ViModel.ReplayRecorded(old(Now(ed)), keys, fuel)
      decreases fuel + 1, 0, 1
    {
      if lastInsert.Some? {
        HandleKeyCore(lastInsert.value, ed, fuel);
      }
      ReplayEsc(keys, ed, fuel);
    }

    /** The keys replayed, then an Esc if an insert is recorded. */
    method ReplayEsc(keys: seq<Key>, ed: Editors.Editor, fuel: nat)
      requires Consistent(ed)
      modifies this, ed, ed.newBuf, ed.histBuf
      ensures Consistent(ed) && Now(ed) == ReplayThenEsc(old(Now(ed)), keys, fuel)
      decreases fuel + 1, 0, 0
    {
      ReplayKeys(keys, ed, fuel);
      if lastInsert.Some? {
        HandleKeyCore(Esc, ed, fuel);
      }
    }

    /** `handle_key_core` on each key in turn. */
    method ReplayKeys(keys: seq<Key>, ed: Editors.Editor, fuel: nat)
      requires Consistent(ed)
      modifies this, ed, ed.newBuf, ed.histBuf
      ensures Consistent(ed) && Now(ed) == ViModel.ReplayKeys(old(Now(ed)), keys, fuel)
      decreases fuel, 4, |keys|
    {
      ghost var w0 := Now(ed);
      var i := 0;
      while i < |keys|
        invariant i <= |keys| && Consistent(ed)
        invariant ViModel.ReplayKeys(Now(ed), keys[i..], fuel) == ViModel.ReplayKeys(w0, keys, fuel)
      {
        ghost var w := Now(ed);
        HandleKeyCore(keys[i], ed, fuel);
        ReplayStep(w, keys[i..], keys[i + 1..], fuel);
        i := i + 1;
      }
    }

    /** `handle_key_insert`. */
    method InsertKey(key: Key, ed: Editors.Editor, fuel: nat)
      requires Consistent(ed)
      modifies this, ed, ed.newBuf, ed.histBuf
      ensures Consistent(ed) && Now(ed) == ViModel.InsertKey(old(Now(ed)), key, fuel)
      decreases fuel, 2
    {
      if key == Esc || key == Ctrl('[') {
        InsertEsc(ed, fuel);
      } else {
        InsertOther(key, ed);
      }
    }

    /** Esc in insert mode. */
    method InsertEsc(ed: Editors.Editor, fuel: nat)
      requires Consistent(ed)
      modifies this, ed, ed.newBuf, ed.histBuf
      ensures Consistent(ed) && Now(ed) == ViModel.InsertEsc(old(Now(ed)), fuel)
      decreases fuel, 1
    {
      if count > 0 {
        EscRepeats(ed, fuel);
      }
      LeaveInsert(ed);
    }

    /** A counted insert replayed `count - 1` more times, then the count cleared. */
    method EscRepeats(ed: Editors.Editor, fuel: nat)
      requires Consistent(ed) && count > 0
      modifies this, ed, ed.newBuf, ed.histBuf
      ensures Consistent(ed)
      ensures var w := old(Now(ed)); var e := ViModel.EscLoop(Session(w.vi.(lastCount := w.vi.count), w.ed), Replays(w.vi), fuel);
        Now(ed) == Session(e.vi.(count := 0), e.ed)
      decreases fuel, 0, 3
    {
      var n := Replays(Value());
      lastCount := count;
      EscLoop(n, ed, fuel);
      count := 0;
    }

    /** The cursor steps back and the mode is left. */
    method LeaveInsert(ed: Editors.Editor)
      requires Consistent(ed)
      modifies this, ed, ed.newBuf, ed.histBuf
      ensures Consistent(ed) && var w := old(Now(ed)); Now(ed) == ViModel.PopMode(Session(w.vi, MoveLeft(w.ed, 1)))
    {
      ed.MoveCursorLeft(1);
      PopMode(ed);
    }

    /** The replays of a counted insert: `for _ in 1..count`. */
    method EscLoop(n: nat, ed: Editors.Editor, fuel: nat)
      requires Consistent(ed)
      modifies this, ed, ed.newBuf, ed.histBuf
      ensures Consistent(ed) && Now(ed) == ViModel.EscLoop(old(Now(ed)), n, fuel)
      decreases fuel, 0, 2
    {
      ghost var goal := ViModel.EscLoop(Now(ed), n, fuel);
      var k: nat := n;
      while k != 0 && fuel != 0
        invariant Consistent(ed)
        invariant ViModel.EscLoop(Now(ed), k, fuel) == goal
      {
        ghost var k0 := k;
        k := k - 1;
        EscTurn(k0, k, ed, fuel);
      }
    }

    /** One turn of the loop of a counted insert, with the turns left before and after it. */
    method EscTurn(ghost k: nat, ghost j: nat, ed: Editors.Editor, fuel: nat)
      requires Consistent(ed) && k == j + 1 && fuel > 0
      modifies this, ed, ed.newBuf, ed.histBuf
      ensures Consistent(ed) && ViModel.EscLoop(Now(ed), j, fuel) == ViModel.EscLoop(old(Now(ed)), k, fuel)
      decreases fuel, 0, 1
    {
      ghost var w := Now(ed);
      EscOnce(ed, fuel - 1);
      EscStep(w, Now(ed), k, j, fuel);
    }

    /** One replay of a counted insert: the recorded keys taken and handled again. */
    method EscOnce(ed: Editors.Editor, fuel: nat)
      requires Consistent(ed)
      modifies this, ed, ed.newBuf, ed.histBuf
      ensures Consistent(ed)
      ensures Now(ed) == ViModel.ReplayOnce(old(Now(ed)), fuel)
      decreases fuel + 1, 0, 0
    {
      var keys := lastCommand;
      lastCommand := [];
      ReplayKeys(keys, ed, fuel);
    }

    /** `handle_key` with the vi keymap. */
    method HandleKey(key: Key, ed: Editors.Editor, handler: Text -> seq<Text>) returns (out: Outcome)
      requires Consistent(ed)
      modifies this, ed, ed.newBuf, ed.histBuf
      ensures Consistent(ed) && (Now(ed), out) == OnKey(old(Now(ed)), key, handler)
    {
      var r := RouteOn(ed, key);
      if r.ToKeymap? {
        KeymapRoute(key, ed, handler, r);
        out := Done(false);
      } else {
        out := SharedRoute(key, ed, handler, r);
      }
    }

    /** `handle_key` on a key the keymap handles. */
    method KeymapRoute(key: Key, ed: Editors.Editor, handler: Text -> seq<Text>, r: Route)
      requires Consistent(ed) && r.ToKeymap?
      requires r == RouteKey(key, CurText(ed.State()) == [], ed.State().autosuggestion.Some?, AtEndOfLine(ed.State()))
      modifies this, ed, ed.newBuf, ed.histBuf
      ensures Consistent(ed) && (Now(ed), Done(false)) == OnKey(old(Now(ed)), key, handler)
    {
      OnKeyRoutes(Now(ed), key, handler, r);
      CoreKey(r.key, ed);
    }

    /** `handle_key` on a key the shared dispatch handles. */
    method SharedRoute(key: Key, ed: Editors.Editor, handler: Text -> seq<Text>, r: Route) returns (out: Outcome)
      requires Consistent(ed) && !r.ToKeymap?
      requires r == RouteKey(key, CurText(ed.State()) == [], ed.State().autosuggestion.Some?, AtEndOfLine(ed.State()))
      modifies ed, ed.newBuf, ed.histBuf
      ensures Consistent(ed) && (Now(ed), out) == OnKey(old(Now(ed)), key, handler)
    {
      OnKeyRoutes(Now(ed), key, handler, r);
      ghost var p := Now(ed);
      out := Perform(ed, r, handler);
      assert Value() == p.vi;
    }

    /** `handle_key_core` with the full replay depth, then the completion hint dismissed. */
    method CoreKey(key: Key, ed: Editors.Editor)
      requires Consistent(ed)
      modifies this, ed, ed.newBuf, ed.histBuf
      ensures Consistent(ed)
      ensures var k := ViModel.HandleKeyCore(old(Now(ed)), key, ReplayDepth); Now(ed) == Session(k.vi, k.ed.(hint := None))
    {
      HandleKeyCore(key, ed, ReplayDepth);
      HintDropped(ed.State());
      ed.SkipCompletionsHint();
    }
  }

  /** `move_to_char`, as its two cases: no character to search for, or a search. */
  lemma MoveToCharKeyIs(w: Session, key: Key, movement: CharMovement, v: ViState, n: nat, target: Option<CharMove>)
    requires Inv(w) && n == MoveCount(w.vi.count) && target == CharTarget(key, movement, w.vi.lastCharMovement)
    requires v == if target.None? || movement == Repeat || movement == ReverseRepeat then w.vi.(count := 0)
      else w.vi.(count := 0, lastCharMovement := target, currentCommand := w.vi.currentCommand + [key])
    ensures target.None? ==> ViModel.MoveToCharKey(w, key, movement) == ViModel.NormalModeAbort(Session(v, w.ed))
    ensures target.Some? ==> var p := CharPlace(CurText(w.ed), w.ed.cursor, target.value, n);
      ViModel.MoveToCharKey(w, key, movement) ==
        ViModel.PopModeAfterMovement(Session(v, if p.Some? then MoveTo(w.ed, p.value) else w.ed), CharMoveType(target.value.movement))
  {
  }

  /** `handle_key_g`, as its two cases: `ge`/`gE`, or any other key. */
  lemma GKeyIs(w: Session, key: Key)
    requires Inv(w)
    ensures var v := w.vi.(currentCommand := w.vi.currentCommand + [key]);
      var r := if key == Char('e') || key == Char('E') then
          var mode := if key == Char('e') then ViMotions.Keyword else ViMotions.Whitespace;
          var p := ViMotions.MoveWord(CurText(w.ed), mode, ViMotions.Left, w.ed.cursor, MoveCount(w.vi.count));
          ViModel.PopModeAfterMovement(Session(v, MoveTo(w.ed, p)), Inclusive)
        else ViModel.NormalModeAbort(Session(v, w.ed));
      ViModel.GKey(w, key) == Session(r.vi.(count := 0), r.ed)
  {
  }

  /** `handle_key` with the vi keymap, as its two routes. */
  lemma OnKeyRoutes(w: Session, key: Key, handler: Text -> seq<Text>, r: Route)
    requires Inv(w)
    requires r == RouteKey(key, CurText(w.ed) == [], w.ed.autosuggestion.Some?, AtEndOfLine(w.ed))
    ensures r.ToKeymap? ==> var k := ViModel.HandleKeyCore(w, r.key, ReplayDepth);
      OnKey(w, key, handler) == (Session(k.vi, k.ed.(hint := None)), Done(false))
    ensures !r.ToKeymap? ==> OnKey(w, key, handler) == (Session(w.vi, Handled(w.ed, r, handler).0), Handled(w.ed, r, handler).1)
  {
  }

  /** The keys of `repeat` replayed, then an Esc if an insert is recorded. */
  ghost function ReplayThenEsc(w: Session, keys: seq<Key>, fuel: nat): (r: Session)
    requires Inv(w)
    ensures Inv(r)
  {
    var w2 := ViModel.ReplayKeys(w, keys, fuel);
    if w2.vi.lastInsert.Some? then ViModel.HandleKeyCore(w2, Esc, fuel) else w2
  }

  /** `x` in normal mode, step by step: recorded for `.`, then the characters under the count cut. */
  lemma CutCommandIs(w: Session, key: Key)
    requires Inv(w)
    ensures var v := w.vi.(lastInsert := None, lastCommand := [key], lastCount := w.vi.count);
      ViModel.CutCommand(w, key) == Session(v.(count := 0), DeleteUntil(w.ed, CountEnd(w.ed, w.vi.count)))
  {
  }

  /** One more key of a replay, with the keys left before and after it as two variables. */
  lemma ReplayStep(w: Session, keys: seq<Key>, rest: seq<Key>, fuel: nat)
    requires Inv(w) && keys != [] && rest == keys[1..]
    ensures ViModel.ReplayKeys(w, keys, fuel) == ViModel.ReplayKeys(ViModel.HandleKeyCore(w, keys[0], fuel), rest, fuel)
  {
  }

  /** One more replay of a counted insert, likewise. */
  lemma {:induction false} EscStep(w: Session, w': Session, k: nat, j: nat, fuel: nat)
    requires Inv(w) && k == j + 1 && fuel > 0 && w' == ViModel.ReplayOnce(w, fuel - 1)
    ensures Inv(w') && ViModel.EscLoop(w', j, fuel) == ViModel.EscLoop(w, k, fuel)
  {
    assert ViModel.EscLoop(w, j + 1, fuel) == ViModel.EscLoop(ViModel.ReplayOnce(w, fuel - 1), j, fuel);
  }
}
