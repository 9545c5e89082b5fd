/**
 * What the vi keymap's keys do, key by key and for a few of the
 * two-key commands: leaving insert mode, counts, word motions, `dw`,
 * `f`, `;`, `r` and typing in insert mode.
 */
module ViProperties {
  import opened Common
  import opened EditorModel
  import opened Keymaps
  import opened ViModel
  import ViMotions
  import Terms

  /** Keys handled from a session, each with the full replay depth. */
  function Run(w: Session, keys: seq<Key>): (r: Session)
    requires Inv(w)
    ensures Inv(r) && Settings(w.ed, r.ed)
  {
    ReplayKeys(w, keys, ReplayDepth)
  }

  /**
   * Whatever keys are typed from a new keymap, the mode stack never
   * holds normal mode (normal mode is the empty stack), and the editor is
   * in no-eol mode exactly in normal mode.
   */
  lemma {:induction false} ModesStayWellFormed(s: EditorState, keys: seq<Key>)
    requires Valid(s) && !s.noEol
    ensures Inv(Session(NewVi(), GroupStart(s)))
    ensures var r := Run(Session(NewVi(), GroupStart(s)), keys);
      NoNormal(r.vi.stack.modes) && (r.ed.noEol <==> Current(r.vi.stack) == Mode.Normal)
  {
    NewViInv(s);
    var r := Run(Session(NewVi(), GroupStart(s)), keys);
    assert NoNormal(r.vi.stack.modes);
  }

  /** Esc in insert mode with no count: back to normal mode, the text kept and the cursor one step back. */
  lemma {:induction false} EscLeavesInsert(w: Session, fuel: nat)
    requires Inv(w) && w.vi.stack.modes == [Mode.Insert] && w.vi.count == 0
    ensures var r := HandleKeyCore(w, Esc, fuel);
      r.vi.stack.modes == [] && r.ed.noEol && CurText(r.ed) == CurText(w.ed) &&
      r.ed.cursor == w.ed.cursor - Min(1, w.ed.cursor)
  {
    assert Current(w.vi.stack) == Mode.Insert;
    assert HandleKeyCore(w, Esc, fuel) == InsertEsc(w, fuel);
    var m := MoveLeft(w.ed, 1);
    assert m.cursor == w.ed.cursor - Min(1, w.ed.cursor);
    assert InsertEsc(w, fuel) == PopMode(Session(w.vi, m));
    assert Popped(w.vi.stack).modes == [];
  }

  /** A digit in normal mode extends the count, saturating at the largest 32-bit value; nothing else changes. */
  lemma {:induction false} DigitExtendsCount(w: Session, c: char, fuel: nat)
    requires Inv(w) && w.vi.stack.modes == []
    requires '1' <= c <= '9' || (c == '0' && w.vi.count > 0)
    ensures var r := HandleKeyCore(w, Char(c), fuel);
      r.vi.count == Min(w.vi.count * 10 + DigitValue(c), U32Max) && r.ed == w.ed && r.vi.stack == w.vi.stack
  {
    NormalDispatch(w, Char(c), fuel);
    DigitDispatch(w, c);
  }

  /** A digit that extends the count reaches the count arm of `handle_key_normal`. */
  lemma DigitDispatch(w: Session, c: char)
    requires Inv(w) && ('1' <= c <= '9' || (c == '0' && w.vi.count > 0))
    ensures NormalOther(w, Char(c)) == Session(w.vi.(count := PushDigit(w.vi.count, DigitValue(c))), w.ed)
  {
    NormalOtherRest(w, Char(c));
    assert c !in {'t', 'T', 'f', 'F', ';', ',', 'g'};
    assert NormalRest(w, Char(c)) == NormalCount(w, Char(c));
  }

  /** The word motions reach `MotionKey` past the arms before them in `handle_key_normal`. */
  lemma NormalOtherMotion(w: Session, key: Key)
    requires Inv(w) && IsWordMotion(key)
    ensures NormalOther(w, key) == MotionKey(w, key)
  {
    assert key != Esc && !IsInsertKey(key);
    assert NormalOther(w, key) == NormalEdit(w, key);
    assert key != Char('r') && key != Char('d') && key != Char('c');
    assert NormalEdit(w, key) == NormalChange(w, key);
    assert key != Char('D') && key != Char('C') && IsMotion(key, w.vi.count);
  }

  /** The keys past the movements reach `NormalRest`. */
  lemma NormalOtherRest(w: Session, key: Key)
    requires Inv(w) && key.Char? && !IsMotion(key, w.vi.count)
    requires key != Char('.') && !IsInsertKey(key) && key.c !in {'r', 'd', 'c', 'D', 'C'}
    ensures NormalOther(w, key) == NormalRest(w, key)
  {
    assert NormalOther(w, key) == NormalEdit(w, key);
    assert NormalEdit(w, key) == NormalChange(w, key);
  }

  /**
   * `w`, `W`, `e`, `E`, `b` and `B` in normal mode: the cursor goes
   * where the word motion says (onto the last character at the end of
   * the text), the text is kept, the count is used up and the keymap
   * stays in normal mode.
   */
  lemma {:induction false} WordMotionMoves(w: Session, key: Key, fuel: nat)
    requires Inv(w) && w.vi.stack.modes == [] && IsWordMotion(key)
    ensures var r := HandleKeyCore(w, key, fuel); var t := CurText(w.ed);
      r.vi.stack.modes == [] && r.vi.count == 0 && CurText(r.ed) == t &&
      r.ed.cursor == Terms.DisplayCursor(WordTarget(t, w.ed.cursor, key, MoveCount(w.vi.count)), |t|, true)
  {
    NormalDispatch(w, key, fuel);
    NormalOtherMotion(w, key);
    var p := WordTarget(CurText(w.ed), w.ed.cursor, key, MoveCount(w.vi.count));
    var m := MoveTo(w.ed, p);
    assert MotionKey(w, key) == PopModeAfterMovement(Session(w.vi, m), Exclusive);
    assert MovementPops(w.vi.stack) == (w.vi.stack, Mode.Normal);
  }

  /** `w` in normal mode lands on the start of a later word, or on the last character past the last word. */
  lemma {:induction false} WordForwardLandsOnWordStart(w: Session, fuel: nat)
    requires Inv(w) && w.vi.stack.modes == []
    ensures OnWordStart(CurText(w.ed), w.ed.cursor, MoveCount(w.vi.count), HandleKeyCore(w, Char('w'), fuel).ed.cursor)
  {
    WordMotionMoves(w, Char('w'), fuel);
    WordStartShown(CurText(w.ed), w.ed.cursor, MoveCount(w.vi.count));
  }

  /**
   * The cursor `q` is where `n` repeats of `w` from `c` should show it:
   * on the start of a later word, a character that is not whitespace and
   * whose class differs from the one before it, or on the last character
   * when there is no later word.
   */
  predicate OnWordStart(t: Text, c: nat, n: nat, q: nat)
    requires c <= |t|
  {
    var p := ViMotions.MoveWord(t, ViMotions.Keyword, ViMotions.Right, c, n);
    c <= p &&
    (p < |t| ==> q == p && ViMotions.Divides(t, ViMotions.Keyword, p, p - 1)) &&
    (p == |t| ==> q == |t| - Min(1, |t|))
  }

  /** Where `w` is shown in normal mode: on the word start it finds, or on the last character. */
  lemma WordStartShown(t: Text, c: nat, n: nat)
    requires c <= |t| && n > 0
    ensures OnWordStart(t, c, n, Terms.DisplayCursor(WordTarget(t, c, Char('w'), n), |t|, true))
  {
    ViMotions.MoveWordLands(t, ViMotions.Keyword, ViMotions.Right, c, n);
  }

  /**
   * The end of a movement in a pending delete: the text between where
   * the delete started and the cursor is removed, the command and insert
   * being recorded become the ones `.` repeats, and the keymap is back in
   * normal mode.
   */
  lemma {:induction false} MovementDeletes(u: Session, c: nat)
    requires Inv(u) && u.vi.stack.modes == [Mode.Delete(c)] && c <= |CurText(u.ed)|
    ensures var r := PopModeAfterMovement(u, Exclusive); var t := CurText(u.ed); var p := u.ed.cursor;
      r.vi.stack.modes == [] && r.vi.count == 0 && CurText(r.ed) == t[..Min(c, p)] + t[Max(c, p)..] &&
      r.vi.lastCommand == u.vi.currentCommand && r.vi.lastInsert == u.vi.currentInsert
  {
    assert MovementPops(u.vi.stack) == (ModeStack([]), Mode.Delete(c));
    UntilRemoved(CurText(u.ed), u.ed.cursor, c);
  }

  /** The end of a search after `f`, `t`, `F` or `T`: back to normal mode with the text and the cursor kept. */
  lemma {:induction false} MovementEnds(u: Session, mt: MoveType)
    requires Inv(u) && |u.vi.stack.modes| == 1 && u.vi.stack.modes[0].MoveToChar? && u.vi.count == 0
    ensures var r := PopModeAfterMovement(u, mt);
      r.vi.stack.modes == [] && r.vi.count == 0 && CurText(r.ed) == CurText(u.ed) && r.ed.cursor == u.ed.cursor &&
      r.vi.lastCharMovement == u.vi.lastCharMovement
  {
    assert MovementPops(u.vi.stack) == (ModeStack([]), u.vi.stack.modes[0]);
  }

  /** In normal mode every key but `.` goes to `NormalOther`. */
  lemma NormalDispatch(w: Session, key: Key, fuel: nat)
    requires Inv(w) && w.vi.stack.modes == [] && key != Char('.')
    ensures HandleKeyCore(w, key, fuel) == NormalOther(w, key)
  {
    assert HandleKeyCore(w, key, fuel) == NormalKey(w, key, fuel);
  }

  /** `d` in normal mode with no count: a pending delete from the cursor, recorded as the start of a command. */
  lemma {:induction false} DeleteStarts(w: Session, fuel: nat)
    requires Inv(w) && w.vi.stack.modes == [] && w.vi.count == 0
    ensures var d := HandleKeyCore(w, Char('d'), fuel);
      d.vi.stack.modes == [Mode.Delete(w.ed.cursor)] && d.vi.count == 0 && d.vi.secondaryCount == 0 &&
      d.vi.currentCommand == [Char('d')] && d.vi.currentInsert.None? &&
      CurText(d.ed) == CurText(w.ed) && d.ed.cursor == w.ed.cursor
  {
    NormalDispatch(w, Char('d'), fuel);
    assert NormalOther(w, Char('d')) == NormalEdit(w, Char('d'));
    assert NormalEdit(w, Char('d')) == DeleteCommand(w, Char('d'));
    var p := Session(w.vi.(currentCommand := [Char('d')], currentInsert := None), w.ed);
    var q := SetMode(p, Mode.Delete(w.ed.cursor));
    assert DeleteCommand(w, Char('d')) == Session(q.vi.(secondaryCount := q.vi.count, count := 0), q.ed);
  }

  /** A word motion in a pending delete goes to `MotionKey` with the counts combined and the key recorded. */
  lemma DeleteDispatch(d: Session, key: Key, fuel: nat)
    requires Inv(d) && Current(d.vi.stack).Delete? && IsWordMotion(key)
    ensures var v := d.vi.(count := Combined(d.vi.count, d.vi.secondaryCount), currentCommand := d.vi.currentCommand + [key]);
      HandleKeyCore(d, key, fuel) == MotionKey(Session(v, d.ed), key)
  {
    var v := d.vi.(count := Combined(d.vi.count, d.vi.secondaryCount), currentCommand := d.vi.currentCommand + [key]);
    assert HandleKeyCore(d, key, fuel) == DeleteOrChange(d, key);
    assert IsMovementKey(key);
    assert DeleteOrChange(d, key) == DeleteMovement(d, key) == NormalOther(Session(v, d.ed), key);
    NormalOtherMotion(Session(v, d.ed), key);
  }

  /** Where `w` with a count of 1 goes. */
  lemma WordTargetOfW(t: Text, c: nat)
    requires c <= |t|
    ensures WordTarget(t, c, Char('w'), 1) == ViMotions.MoveWord(t, ViMotions.Keyword, ViMotions.Right, c, 1)
  {
  }

  /**
   * `w` in a pending delete from the cursor: the text up to where `w`
   * goes is deleted and the keymap is back in normal mode, with `dw`
   * recorded for `.`.
   */
  lemma {:induction false} DeleteThroughWord(d: Session, fuel: nat)
    requires Inv(d) && d.vi.stack.modes == [Mode.Delete(d.ed.cursor)] && d.vi.count == 0 && d.vi.secondaryCount == 0
    requires d.vi.currentCommand == [Char('d')] && d.vi.currentInsert.None?
    ensures DeletedWord(CurText(d.ed), d.ed.cursor, HandleKeyCore(d, Char('w'), fuel))
  {
    WordInDelete(d, fuel);
    DeleteWordEnds(d);
  }

  /**
   * After `dw` from `c` in the text `t`: the text from `c` up to where
   * `w` goes is gone, the keymap is in normal mode and `dw` is the
   * command `.` repeats, with no insert.
   */
  predicate DeletedWord(t: Text, c: nat, r: Session)
    requires c <= |t|
  {
    var p := ViMotions.MoveWord(t, ViMotions.Keyword, ViMotions.Right, c, 1);
    c <= p && CurText(r.ed) == t[..c] + t[p..] && r.vi.stack.modes == [] &&
    r.vi.lastCommand == [Char('d'), Char('w')] && r.vi.lastInsert.None?
  }

  /** `w` in a pending delete: the cursor moved to where `w` goes, then the movement ended. */
  lemma WordInDelete(d: Session, fuel: nat)
    requires Inv(d) && Current(d.vi.stack).Delete? && d.vi.count == 0 && d.vi.secondaryCount == 0
    ensures var v := d.vi.(count := Combined(d.vi.count, d.vi.secondaryCount), currentCommand := d.vi.currentCommand + [Char('w')]);
      var p := ViMotions.MoveWord(CurText(d.ed), ViMotions.Keyword, ViMotions.Right, d.ed.cursor, 1);
      HandleKeyCore(d, Char('w'), fuel) == PopModeAfterMovement(Session(v, MoveTo(d.ed, p)), Exclusive)
  {
    DeleteDispatch(d, Char('w'), fuel);
    WordTargetOfW(CurText(d.ed), d.ed.cursor);
  }

  /** The end of the movement in `dw`: the deletion and the record of the command. */
  lemma {:induction false} DeleteWordEnds(d: Session)
    requires Inv(d) && d.vi.stack.modes == [Mode.Delete(d.ed.cursor)] && d.vi.count == 0 && d.vi.secondaryCount == 0
    requires d.vi.currentCommand == [Char('d')] && d.vi.currentInsert.None?
    ensures var v := d.vi.(count := Combined(d.vi.count, d.vi.secondaryCount), currentCommand := d.vi.currentCommand + [Char('w')]);
      var p := ViMotions.MoveWord(CurText(d.ed), ViMotions.Keyword, ViMotions.Right, d.ed.cursor, 1);
      DeletedWord(CurText(d.ed), d.ed.cursor, PopModeAfterMovement(Session(v, MoveTo(d.ed, p)), Exclusive))
  {
    var t := CurText(d.ed);
    var c := d.ed.cursor;
    ViMotions.MoveWordLands(t, ViMotions.Keyword, ViMotions.Right, c, 1);
    var p := ViMotions.MoveWord(t, ViMotions.Keyword, ViMotions.Right, c, 1);
    var v := d.vi.(count := Combined(d.vi.count, d.vi.secondaryCount), currentCommand := d.vi.currentCommand + [Char('w')]);
    var m := MoveTo(d.ed, p);
    assert v.count == 0 && v.currentCommand == [Char('d'), Char('w')];
    assert m.cursor == p && CurText(m) == t;
    MovementDeletes(Session(v, m), c);
  }

  /**
   * `dw` from normal mode with no count: the text from the cursor to
   * where `w` would go is deleted, and the keymap is back in normal mode
   * with the command recorded for `.`.
   */
  lemma {:induction false} DeleteWord(w: Session, fuel: nat)
    requires Inv(w) && w.vi.stack.modes == [] && w.vi.count == 0
    ensures DeletedWord(CurText(w.ed), w.ed.cursor, HandleKeyCore(HandleKeyCore(w, Char('d'), fuel), Char('w'), fuel))
  {
    DeleteStarts(w, fuel);
    DeleteThroughWord(HandleKeyCore(w, Char('d'), fuel), fuel);
  }

  /** `f` in normal mode: waiting for the character, with the count kept. */
  lemma FindStarts(w: Session, fuel: nat)
    requires Inv(w) && w.vi.stack.modes == []
    ensures var f := HandleKeyCore(w, Char('f'), fuel);
      f.vi.stack.modes == [Mode.MoveToChar(RightAt)] && f.vi.count == w.vi.count &&
      CurText(f.ed) == CurText(w.ed) && f.ed.cursor == w.ed.cursor
  {
    NormalDispatch(w, Char('f'), fuel);
    NormalOtherRest(w, Char('f'));
  }

  /** A key waiting for a search's character goes to `MoveToCharKey`. */
  lemma SearchDispatch(f: Session, key: Key, fuel: nat)
    requires Inv(f) && Current(f.vi.stack).MoveToChar?
    ensures HandleKeyCore(f, key, fuel) == MoveToCharKey(f, key, Current(f.vi.stack).movement)
  {
    assert HandleKeyCore(f, key, fuel) == PendingKey(f, key);
  }

  /** A character after `f`, `t`, `F` or `T`: the search recorded, the cursor moved to what it finds, and the movement ended. */
  lemma CharKeyMoves(f: Session, x: char, movement: CharMovement)
    requires Inv(f) && movement != Repeat && movement != ReverseRepeat
    ensures var cm := CharMove(x, movement);
      var i := CharPlace(CurText(f.ed), f.ed.cursor, cm, MoveCount(f.vi.count));
      var m := if i.Some? then MoveTo(f.ed, i.value) else f.ed;
      var v := f.vi.(count := 0, lastCharMovement := Some(cm), currentCommand := f.vi.currentCommand + [Char(x)]);
      MoveToCharKey(f, Char(x), movement) == PopModeAfterMovement(Session(v, m), CharMoveType(movement))
  {
    assert CharTarget(Char(x), movement, f.vi.lastCharMovement) == Some(CharMove(x, movement));
  }

  /** The place `f` searches for is the next occurrence of the character, counted from after the cursor. */
  lemma FindPlace(t: Text, c: nat, x: char, n: nat)
    requires c <= |t| && n > 0
    ensures var i := ViMotions.FindChar(t, c + 1, x, n);
      CharPlace(t, c, CharMove(x, RightAt), n) == i && (i.Some? ==> c < i.value < |t| && t[i.value] == x)
  {
  }

  /**
   * A character after `f`: the cursor goes to the `count`-th occurrence
   * of it after the cursor, or stays when there is none, and the search
   * is recorded for `;` and `,`.
   */
  lemma {:induction false} FindLands(f: Session, x: char, fuel: nat)
    requires Inv(f) && f.vi.stack.modes == [Mode.MoveToChar(RightAt)]
    ensures Found(CurText(f.ed), f.ed.cursor, x, MoveCount(f.vi.count), HandleKeyCore(f, Char(x), fuel))
  {
    SearchDispatch(f, Char(x), fuel);
    FindEnds(f, x);
  }

  /**
   * After `f` and `x` with the count `n` from `c` in the text `t`: the
   * cursor is on the `n`-th `x` after `c`, or still at `c` when there is
   * none; the text is kept, the keymap is in normal mode with no count,
   * and the search is recorded for `;` and `,`.
   */
  predicate Found(t: Text, c: nat, x: char, n: nat, r: Session)
    requires n > 0
  {
    var i := ViMotions.FindChar(t, c + 1, x, n);
    r.vi.stack.modes == [] && r.vi.count == 0 && CurText(r.ed) == t &&
    r.vi.lastCharMovement == Some(CharMove(x, RightAt)) &&
    (i.Some? ==> r.ed.cursor == i.value && t[i.value] == x) && (i.None? ==> r.ed.cursor == c)
  }

  /** The character of `f` moves the cursor and ends the movement. */
  lemma {:induction false} FindEnds(f: Session, x: char)
    requires Inv(f) && f.vi.stack.modes == [Mode.MoveToChar(RightAt)]
    ensures Found(CurText(f.ed), f.ed.cursor, x, MoveCount(f.vi.count), MoveToCharKey(f, Char(x), RightAt))
  {
    var t := CurText(f.ed);
    var c := f.ed.cursor;
    CharKeyMoves(f, x, RightAt);
    var i := ViMotions.FindChar(t, c + 1, x, MoveCount(f.vi.count));
    FindPlace(t, c, x, MoveCount(f.vi.count));
    var m := if i.Some? then MoveTo(f.ed, i.value) else f.ed;
    assert CurText(m) == t && (i.Some? ==> m.cursor == i.value) && (i.None? ==> m.cursor == c);
    var v := f.vi.(count := 0, lastCharMovement := Some(CharMove(x, RightAt)), currentCommand := f.vi.currentCommand + [Char(x)]);
    MovementEnds(Session(v, m), Inclusive);
  }

  /** `f` and a character in normal mode, the two keys together. */
  lemma {:induction false} FindForward(w: Session, x: char, fuel: nat)
    requires Inv(w) && w.vi.stack.modes == []
    ensures Found(CurText(w.ed), w.ed.cursor, x, MoveCount(w.vi.count), HandleKeyCore(HandleKeyCore(w, Char('f'), fuel), Char(x), fuel))
  {
    FindStarts(w, fuel);
    FindLands(HandleKeyCore(w, Char('f'), fuel), x, fuel);
  }

  /** `;` with no search recorded: back to normal mode with the count dropped, and the editor unchanged. */
  lemma {:induction false} RepeatSearchWithoutSearch(w: Session, fuel: nat)
    requires Inv(w) && w.vi.stack.modes == [] && w.vi.lastCharMovement.None?
    ensures var r := HandleKeyCore(w, Char(';'), fuel);
      r.vi.stack.modes == [] && r.vi.count == 0 && r.ed == w.ed
  {
    NormalDispatch(w, Char(';'), fuel);
    NormalOtherRest(w, Char(';'));
    assert NormalRest(w, Char(';')) == MoveToCharKey(w, Char(';'), Repeat);
  }

  /** `,` searches the other way from the recorded search, keeping its kind, and does not record itself. */
  lemma ReverseSearchIsReversed(m: CharMove)
    requires LastOk(Some(m))
    ensures CharTarget(Char(','), ReverseRepeat, Some(m)) == Some(CharMove(m.c, Backwards(m.movement)))
    ensures Backwards(Backwards(m.movement)) == m.movement && Backwards(m.movement) != m.movement
    ensures CharMoveType(Backwards(m.movement)) != CharMoveType(m.movement)
  {
  }

  /**
   * `r` and a character in normal mode: when `count` characters remain
   * from the cursor, they are all replaced by the character and the
   * cursor rests on the last of them; otherwise nothing changes.
   */
  lemma {:induction false} ReplaceChars(w: Session, x: char, fuel: nat)
    requires Inv(w) && w.vi.stack.modes == []
    ensures var t := CurText(w.ed); var c := w.ed.cursor; var n := MoveCount(w.vi.count);
      var r := HandleKeyCore(HandleKeyCore(w, Char('r'), fuel), Char(x), fuel);
      r.vi.stack.modes == [] && r.vi.count == 0 &&
      (c + n <= |t| ==> CurText(r.ed) == Overwritten(t, c, x, n) && r.ed.cursor == c + n - 1) &&
      (c + n > |t| ==> CurText(r.ed) == t)
  {
    var t := CurText(w.ed);
    NormalDispatch(w, Char('r'), fuel);
    assert NormalOther(w, Char('r')) == NormalEdit(w, Char('r'));
    assert NormalEdit(w, Char('r')) == SetMode(w, Mode.Replace);
    var q := SetMode(w, Mode.Replace);
    assert q.vi.stack.modes == [Mode.Replace] && q.vi.count == w.vi.count && !q.ed.noEol;
    assert HandleKeyCore(q, Char(x), fuel) == ReplaceKey(q, Char(x));
  }

  /** A character typed in insert mode goes in at the cursor and is recorded for `.`. */
  lemma {:induction false} TypedCharInserted(w: Session, x: char, fuel: nat)
    requires Inv(w) && Current(w.vi.stack) == Mode.Insert
    ensures var r := HandleKeyCore(w, Char(x), fuel); var t := CurText(w.ed); var c := w.ed.cursor;
      CurText(r.ed) == t[..c] + [x] + t[c..] && r.vi.stack == w.vi.stack &&
      r.vi.lastCommand == (if w.vi.movementReset then [] else w.vi.lastCommand) + [Char(x)]
  {
    assert HandleKeyCore(w, Char(x), fuel) == InsertKey(w, Char(x), fuel);
    assert InsertKey(w, Char(x), fuel) == InsertTyped(w, Char(x));
  }
}
