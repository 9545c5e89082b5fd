/**
 * The vi keymap as functions of its state and the editor's: the mode
 * stack, the counts, the command and insert being recorded for `.`, and
 * each `handle_key_*` handler.  A `Session` pairs the keymap's state with
 * the editor's; every handler keeps `Inv`, which ties the two together
 * (the editor is in no-eol mode exactly in normal mode, that is, when
 * the mode stack is empty).
 */
module ViModel {
  import opened Common
  import opened Buffers
  import opened EditorModel
  import opened Keymaps
  import ViMotions

  datatype CharMovement = RightUntil | RightAt | LeftUntil | LeftAt | Repeat | ReverseRepeat

  datatype MoveType = Inclusive | Exclusive

  /** The editing modes; `Delete` remembers where the cursor was when `d` or `c` was typed. */
  datatype Mode = Insert | Normal | Replace | Delete(start: nat) | MoveToChar(movement: CharMovement) | G | Tilde

  /** A character search to repeat with `;` and `,`. */
  datatype CharMove = CharMove(c: char, movement: CharMovement)

  /** The keymap's counts are 32-bit unsigned. */
  const U32Max: nat := 0xFFFF_FFFF

  type U32 = n: nat | n <= 0xFFFF_FFFF

  // ---------------------------------------------------------------------
  // The mode stack

  /** `ModeStack`: the modes entered and not yet left; empty in normal mode. */
  datatype ModeStack = ModeStack(modes: seq<Mode>)

  /** `ModeStack::with_insert`. */
  function WithInsert(): ModeStack
  {
    ModeStack([Mode.Insert])
  }

  /** No mode on the stack is normal mode, which is the empty stack. */
  predicate NoNormal(modes: seq<Mode>)
  {
    forall i | 0 <= i < |modes| :: modes[i] != Mode.Normal
  }

  /** Between keys the stack holds neither normal mode nor `~`, which is entered and left within one key. */
  predicate StackOk(modes: seq<Mode>)
  {
    forall i | 0 <= i < |modes| :: modes[i] != Mode.Normal && modes[i] != Mode.Tilde
  }

  /** `ModeStack::mode`: the top of the stack, normal mode when it is empty. */
  function Current(st: ModeStack): (m: Mode)
    ensures NoNormal(st.modes) ==> (m == Mode.Normal <==> st.modes == [])
    ensures StackOk(st.modes) ==> m != Mode.Tilde
  {
    if st.modes == [] then Mode.Normal else st.modes[|st.modes| - 1]
  }

  /** `ModeStack::push`. */
  function Pushed(st: ModeStack, m: Mode): ModeStack
  {
    ModeStack(st.modes + [m])
  }

  /** `ModeStack::pop`: the stack without its top; popping the empty stack leaves it empty. */
  function Popped(st: ModeStack): (r: ModeStack)
    ensures NoNormal(st.modes) ==> NoNormal(r.modes)
    ensures StackOk(st.modes) ==> StackOk(r.modes)
  {
    if st.modes == [] then st else ModeStack(st.modes[..|st.modes| - 1])
  }

  /**
   * The stack is a stack: a push is undone by a pop, which reports the
   * mode pushed; an empty stack pops as normal mode and stays empty.
   */
  lemma {:induction false} StackLaws(st: ModeStack, m: Mode)
    ensures Popped(Pushed(st, m)) == st && Current(Pushed(st, m)) == m
    ensures st.modes == [] ==> Popped(st) == st && Current(st) == Mode.Normal
    ensures NoNormal(st.modes) && m != Mode.Normal ==> NoNormal(Pushed(st, m).modes) && Pushed(st, m).modes != []
  {
    assert (st.modes + [m])[..|st.modes|] == st.modes;
  }

  // ---------------------------------------------------------------------
  // Counts

  /** `u32::saturating_mul`. */
  function SatMul(a: U32, b: U32): (r: U32)
    ensures r == Min(a * b, U32Max)
  {
    if a * b > U32Max then U32Max else a * b
  }

  /** `u32::saturating_add`. */
  function SatAdd(a: U32, b: U32): (r: U32)
    ensures r == Min(a + b, U32Max)
  {
    if a + b > U32Max then U32Max else a + b
  }

  /** The value of a decimal digit. */
  function DigitValue(c: char): (d: nat)
    requires '0' <= c <= '9'
    ensures d <= 9
  {
    c as int - '0' as int
  }

  /**
   * A digit typed in normal mode, `count * 10 + digit` saturating at each
   * step: the count is the decimal number typed, capped at the largest
   * 32-bit value.
   */
  function PushDigit(count: U32, d: nat): (r: U32)
    requires d <= 9
    ensures r == Min(count * 10 + d, U32Max)
  {
    SatAdd(SatMul(count, 10), d)
  }

  /** `move_count`: a count of 0 moves once. */
  function MoveCount(count: U32): (n: nat)
    ensures n >= 1 && (count > 0 ==> n == count)
  {
    if count == 0 then 1 else count
  }

  /** The count a movement after `d` or `c` uses: the two counts multiplied, or whichever was typed. */
  function Combined(count: U32, secondary: U32): (r: U32)
    ensures count == 0 ==> r == secondary
    ensures secondary == 0 ==> r == count
    ensures count > 0 && secondary > 0 ==> r == Min(secondary * count, U32Max)
  {
    if count == 0 && secondary == 0 then 0
    else if secondary == 0 then count
    else if count == 0 then secondary
    else SatMul(secondary, count)
  }

  /** `is_movement_key`. */
  predicate IsMovementKey(key: Key)
  {
    key == Char('h') || key == Char('l') || key == Left || key == Right ||
    key == Char('w') || key == Char('W') || key == Char('b') || key == Char('B') ||
    key == Char('e') || key == Char('E') || key == Char('g') || key == Backspace ||
    key == Char(' ') || key == Home || key == End || key == Char('$') ||
    key == Char('t') || key == Char('f') || key == Char('T') || key == Char('F') ||
    key == Char(';') || key == Char(',')
  }

  // ---------------------------------------------------------------------
  // The keymap's state

  datatype ViState = ViState(
    stack: ModeStack,
    currentCommand: seq<Key>,
    lastCommand: seq<Key>,
    currentInsert: Option<Key>,
    lastInsert: Option<Key>,
    count: U32,
    secondaryCount: U32,
    lastCount: U32,
    movementReset: bool,
    lastCharMovement: Option<CharMove>)

  /** `Vi::new`: insert mode, as if `i` had been typed, and nothing recorded. */
  function NewVi(): ViState
  {
    ViState(WithInsert(), [], [], None, Some(Char('i')), 0, 0, 0, false, None)
  }

  /** The keymap's state and the editor's. */
  datatype Session = Session(vi: ViState, ed: EditorState)

  /** Only character searches are recorded for `;` and `,`, never a repeat. */
  predicate LastOk(m: Option<CharMove>)
  {
    m.Some? ==> m.value.movement != Repeat && m.value.movement != ReverseRepeat
  }

  /**
   * What holds between keys: the editor is valid, the stack holds
   * neither normal mode nor `~`, the editor is in no-eol mode exactly in
   * normal mode, and the recorded search is not a repeat.
   */
  predicate Inv(w: Session)
  {
    Valid(w.ed) && StackOk(w.vi.stack.modes) && (w.ed.noEol <==> w.vi.stack.modes == []) &&
    LastOk(w.vi.lastCharMovement)
  }

  /** The settings and history every vi handler keeps (the no-eol mode is the keymap's to change). */
  predicate Settings(s: EditorState, r: EditorState)
  {
    r.prompt == s.prompt && r.items == s.items && r.searchContext == s.searchContext && r.width == s.width
  }

  /** The keymap starts in insert mode with the editor out of no-eol mode. */
  lemma NewViInv(s: EditorState)
    requires Valid(s) && !s.noEol
    ensures Inv(Session(NewVi(), GroupStart(s)))
    ensures Current(NewVi().stack) == Mode.Insert && CurText(GroupStart(s)) == CurText(s)
  {
  }

  // ---------------------------------------------------------------------
  // The editor operations the keymap adds

  /** `current_buffer_mut().start_undo_group()`. */
  function GroupStart(s: EditorState): (r: EditorState)
    requires Valid(s)
    ensures Valid(r) && Keeps(s, r) && r.hint == s.hint && IsSearch(r) == IsSearch(s)
    ensures Cur(r) == GroupStarted(Cur(s)) && CurText(r) == CurText(s) && r.cursor == s.cursor
  {
    SetCur(Touched(s), GroupStarted(Cur(Touched(s))))
  }

  /** `current_buffer_mut().end_undo_group()`. */
  function GroupEnd(s: EditorState): (r: EditorState)
    requires Valid(s)
    ensures Valid(r) && Keeps(s, r) && r.hint == s.hint && IsSearch(r) == IsSearch(s)
    ensures Cur(r) == GroupEnded(Cur(s)) && CurText(r) == CurText(s) && r.cursor == s.cursor
  {
    SetCur(Touched(s), GroupEnded(Cur(Touched(s))))
  }

  /** The no-eol mode is not part of what makes the editor valid. */
  lemma NoEolValid(s: EditorState, b: bool)
    requires Valid(s)
    ensures Valid(s.(noEol := b)) && Settings(s, s.(noEol := b)) && CurText(s.(noEol := b)) == CurText(s)
  {
  }

  /** The keys `handle_key_common` acts on. */
  predicate IsCommonKey(key: Key)
  {
    key == Ctrl('l') || key.Left? || key.Right? || key.Up? || key.Down? || key.Home? || key.End? ||
    key.Backspace? || key.Delete?
  }

  /** `handle_key_common`: the keys every mode shares. */
  function CommonKey(s: EditorState, key: Key): (r: EditorState)
    requires Valid(s)
    ensures Valid(r) && Keeps(s, r)
    ensures !IsCommonKey(key) ==> r == s
  {
    if key == Ctrl('l') then Clear(s)
    else if key.Left? then MoveLeft(s, 1)
    else if key.Right? then MoveRight(s, 1)
    else if key.Up? then MoveUp(s)
    else if key.Down? then MoveDown(s)
    else if key.Home? then MoveToStart(s)
    else if key.End? then MoveToEnd(s)
    else if key.Backspace? then DeleteBefore(s)
    else if key.Delete? then DeleteAfter(s)
    else s
  }

  // ---------------------------------------------------------------------
  // Entering and leaving modes

  /**
   * `set_mode_preserve_last`: out of no-eol mode, the mode pushed, and an
   * undo group opened for insert mode and `~`.
   */
  function PushMode(w: Session, m: Mode): (r: Session)
    requires Valid(w.ed) && m != Mode.Normal
    ensures Valid(r.ed) && Settings(w.ed, r.ed) && !r.ed.noEol
    ensures CurText(r.ed) == CurText(w.ed) && r.ed.cursor == w.ed.cursor
    ensures r.vi == w.vi.(movementReset := m != Mode.Insert, stack := Pushed(w.vi.stack, m))
  {
    var ed := w.ed.(noEol := m == Mode.Normal);
    NoEolValid(w.ed, false);
    Session(w.vi.(movementReset := m != Mode.Insert, stack := Pushed(w.vi.stack, m)),
      if m == Mode.Insert || m == Mode.Tilde then GroupStart(ed) else ed)
  }

  /** `set_mode`: entering insert mode also forgets the recorded command and its count. */
  function SetMode(w: Session, m: Mode): (r: Session)
    requires Inv(w) && m != Mode.Normal && m != Mode.Tilde
    ensures Inv(r) && Settings(w.ed, r.ed) && Current(r.vi.stack) == m && Popped(r.vi.stack) == w.vi.stack
    ensures CurText(r.ed) == CurText(w.ed) && r.ed.cursor == w.ed.cursor && r.vi.count == w.vi.count
  {
    var p := PushMode(w, m);
    StackLaws(w.vi.stack, m);
    if m == Mode.Insert then Session(p.vi.(lastCount := 0, lastCommand := []), p.ed) else p
  }

  /** `set_mode_preserve_last` for a mode other than `~`. */
  function SetModePreserveLast(w: Session, m: Mode): (r: Session)
    requires Inv(w) && m != Mode.Normal && m != Mode.Tilde
    ensures Inv(r) && Settings(w.ed, r.ed) && Current(r.vi.stack) == m
    ensures CurText(r.ed) == CurText(w.ed) && r.ed.cursor == w.ed.cursor && r.vi.count == w.vi.count
  {
    StackLaws(w.vi.stack, m);
    PushMode(w, m)
  }

  /** The keymap's side of `pop_mode`. */
  function PopVi(v: ViState): ViState
  {
    var st := Popped(v.stack);
    v.(stack := st, movementReset := Current(st) != Mode.Insert)
  }

  /**
   * The editor's side of `pop_mode`: no-eol mode exactly when back in
   * normal mode; leaving insert mode or `~` closes its undo group, and
   * leaving `~` redraws.
   */
  function PopEd(s: EditorState, last: Mode, normal: bool): (r: EditorState)
    requires Valid(s)
    ensures Valid(r) && Settings(s, r) && r.noEol == normal && CurText(r) == CurText(s)
    ensures last != Mode.Tilde ==> r.cursor == s.cursor
  {
    var ed := s.(noEol := normal);
    NoEolValid(s, normal);
    var closed := if last == Mode.Insert || last == Mode.Tilde then GroupEnd(ed) else ed;
    if last == Mode.Tilde then Redisplay(closed) else closed
  }

  /** `pop_mode`. */
  function PopMode(w: Session): (r: Session)
    requires Valid(w.ed) && NoNormal(w.vi.stack.modes)
    ensures Valid(r.ed) && Settings(w.ed, r.ed) && CurText(r.ed) == CurText(w.ed)
    ensures r.vi == PopVi(w.vi) && (r.ed.noEol <==> r.vi.stack.modes == [])
    ensures Current(w.vi.stack) != Mode.Tilde ==> r.ed.cursor == w.ed.cursor
    ensures StackOk(Popped(w.vi.stack).modes) && LastOk(w.vi.lastCharMovement) ==> Inv(r)
  {
    var st := Popped(w.vi.stack);
    Session(PopVi(w.vi), PopEd(w.ed, Current(w.vi.stack), Current(st) == Mode.Normal))
  }

  /** `normal_mode_abort`: back to normal mode, the count forgotten. */
  function NormalModeAbort(w: Session): (r: Session)
    requires Inv(w)
    ensures Inv(r) && Settings(w.ed, r.ed) && r.vi.stack.modes == [] && r.vi.count == 0
    ensures r.ed == w.ed.(noEol := true)
  {
    NoEolValid(w.ed, true);
    Session(w.vi.(stack := ModeStack([]), count := 0), w.ed.(noEol := true))
  }

  /**
   * What `pop_mode_after_movement` pops: the top, and the pending delete
   * below it when there is one.  Returns the stack left and the mode
   * that decides whether to delete.
   */
  function MovementPops(st: ModeStack): (r: (ModeStack, Mode))
    ensures StackOk(st.modes) ==> StackOk(r.0.modes)
    ensures r.1.Delete? ==> r.1 == Current(st) || r.1 == Current(Popped(st))
  {
    var st1 := Popped(st);
    if Current(st1).Delete? then (Popped(st1), Current(st1)) else (st1, Current(st))
  }

  /** The keymap's side of `pop_mode_after_movement`: a completed delete is recorded for `.`. */
  function AfterMovementVi(v: ViState): (r: ViState)
    ensures r.lastCharMovement == v.lastCharMovement
  {
    var (st, last) := MovementPops(v.stack);
    var v1 := v.(stack := st, movementReset := Current(st) != Mode.Insert);
    var v2 := if last.Delete? then
      v1.(lastCommand := v.currentCommand, currentCommand := v.lastCommand, lastInsert := v.currentInsert,
          lastCount := v.count, count := 0, secondaryCount := 0)
      else v1;
    if Current(v.stack) == Mode.Normal then v2.(count := 0) else v2
  }

  /**
   * The editor's side of `pop_mode_after_movement`: no-eol mode as the
   * stack left says, then a pending delete removes from where `d` was
   * typed to the cursor, the cursor's character too for an inclusive
   * movement.
   */
  function AfterMovementEd(s: EditorState, st: ModeStack, mt: MoveType): (r: EditorState)
    requires Valid(s)
    ensures Valid(r) && Settings(s, r) && r.noEol == (Current(MovementPops(st).0) == Mode.Normal)
    ensures !MovementPops(st).1.Delete? ==> CurText(r) == CurText(s) && r.cursor == s.cursor
  {
    var (st2, last) := MovementPops(st);
    var ed := s.(noEol := Current(st2) == Mode.Normal);
    NoEolValid(s, Current(st2) == Mode.Normal);
    if last.Delete? then
      if mt == Exclusive then DeleteUntil(ed, last.start)
      else DeleteUntilInclusive(ed, last.start)
    else ed
  }

  /** `pop_mode_after_movement`. */
  function PopModeAfterMovement(w: Session, mt: MoveType): (r: Session)
    requires Inv(w)
    ensures Inv(r) && Settings(w.ed, r.ed)
  {
    var r := Session(AfterMovementVi(w.vi), AfterMovementEd(w.ed, w.vi.stack, mt));
    assert r.vi.stack == MovementPops(w.vi.stack).0;
    r
  }

  // ---------------------------------------------------------------------
  // Movements

  /** `move_count_left`. */
  function CountLeft(s: EditorState, count: U32): (n: nat)
    ensures n <= s.cursor
  {
    Min(s.cursor, MoveCount(count))
  }

  /** `move_count_right`: never past the end of the text. */
  function CountRight(s: EditorState, count: U32): (n: nat)
    requires s.cursor <= |CurText(s)|
    ensures s.cursor + n <= |CurText(s)|
    ensures n == MoveCount(count) <==> s.cursor + MoveCount(count) <= |CurText(s)|
  {
    Min(|CurText(s)| - s.cursor, MoveCount(count))
  }

  /** Where a count of characters to the right of the cursor ends. */
  function CountEnd(s: EditorState, count: U32): (p: nat)
    requires s.cursor <= |CurText(s)|
    ensures s.cursor <= p <= |CurText(s)|
  {
    s.cursor + CountRight(s, count)
  }

  /** The keys of normal mode that move the cursor and then call `pop_mode_after_movement`. */
  predicate IsMotion(key: Key, count: U32)
  {
    key == Char('h') || key == Left || key == Backspace || key == Char('l') || key == Right || key == Char(' ') ||
    key == Char('k') || key == Up || key == Char('j') || key == Down ||
    IsWordMotion(key) || (key == Char('0') && count == 0) || key == Char('$')
  }

  predicate IsWordMotion(key: Key)
  {
    key == Char('w') || key == Char('W') || key == Char('e') || key == Char('E') || key == Char('b') || key == Char('B')
  }

  /** The moves of `h`, `l`, `k`, `j`, `0` and `$` and their synonyms. */
  function Motion(s: EditorState, key: Key, count: U32): (r: EditorState)
    requires Valid(s) && IsMotion(key, count) && !IsWordMotion(key)
    ensures Valid(r) && Keeps(s, r)
  {
    if key == Char('h') || key == Left || key == Backspace then MoveLeft(s, CountLeft(s, count))
    else if key == Char('l') || key == Right || key == Char(' ') then MoveRight(s, CountRight(s, count))
    else if key == Char('k') || key == Up then MoveUp(s)
    else if key == Char('j') || key == Down then MoveDown(s)
    else if key == Char('0') then MoveToStart(s)
    else MoveToEnd(s)
  }

  /** Where `w`, `W`, `e`, `E`, `b` and `B` take the cursor. */
  function WordTarget(t: Text, c: nat, key: Key, n: nat): (p: nat)
    requires c <= |t| && IsWordMotion(key)
    ensures p <= |t|
  {
    if key == Char('w') then ViMotions.MoveWord(t, ViMotions.Keyword, ViMotions.Right, c, n)
    else if key == Char('W') then ViMotions.MoveWord(t, ViMotions.Whitespace, ViMotions.Right, c, n)
    else if key == Char('e') then ViMotions.MoveWordEnd(t, ViMotions.Keyword, ViMotions.Right, c, n)
    else if key == Char('E') then ViMotions.MoveWordEnd(t, ViMotions.Whitespace, ViMotions.Right, c, n)
    else if key == Char('b') then ViMotions.MoveWordEnd(t, ViMotions.Keyword, ViMotions.Left, c, n)
    else ViMotions.MoveWordEnd(t, ViMotions.Whitespace, ViMotions.Left, c, n)
  }

  /** A movement key of normal mode: the move, then `pop_mode_after_movement`. */
  function MotionKey(w: Session, key: Key): (r: Session)
    requires Inv(w) && IsMotion(key, w.vi.count)
    ensures Inv(r) && Settings(w.ed, r.ed)
  {
    var ed := if IsWordMotion(key) then
      MoveTo(w.ed, WordTarget(CurText(w.ed), w.ed.cursor, key, MoveCount(w.vi.count)))
      else Motion(w.ed, key, w.vi.count);
    PopModeAfterMovement(Session(w.vi, ed), Exclusive)
  }

  // ---------------------------------------------------------------------
  // Character searches: f, t, F, T, ; and ,

  /** The search `,` repeats: the same kind, the other way. */
  function Backwards(m: CharMovement): CharMovement
  {
    match m
    case LeftUntil => RightUntil
    case RightUntil => LeftUntil
    case LeftAt => RightAt
    case RightAt => LeftAt
    case Repeat => Repeat
    case ReverseRepeat => ReverseRepeat
  }

  /**
   * The search `handle_key_move_to_char` performs: the recorded one for
   * `;`, reversed for `,`, none (an abort) when nothing is recorded or
   * the key is not a character.
   */
  function CharTarget(key: Key, movement: CharMovement, last: Option<CharMove>): (r: Option<CharMove>)
    requires LastOk(last)
    ensures LastOk(r)
    ensures movement == Repeat ==> r == last
    ensures movement == ReverseRepeat ==> r == (if last.Some? then Some(CharMove(last.value.c, Backwards(last.value.movement))) else None)
    ensures movement != Repeat && movement != ReverseRepeat ==> r == (if key.Char? then Some(CharMove(key.c, movement)) else None)
  {
    if movement == Repeat then last
    else if movement == ReverseRepeat then
      if last.Some? then Some(CharMove(last.value.c, Backwards(last.value.movement))) else None
    else if key.Char? then Some(CharMove(key.c, movement))
    else None
  }

  /** Searching right starts after the cursor's character, left at the cursor. */
  function CharPlace(t: Text, c: nat, cm: CharMove, n: nat): (p: Option<nat>)
    requires c <= |t| && n > 0 && LastOk(Some(cm))
    ensures p.Some? ==> p.value <= |t|
  {
    match cm.movement
    case RightUntil =>
      var i := ViMotions.FindChar(t, c + 1, cm.c, n);
      if i.Some? then Some(i.value - 1) else None
    case RightAt => ViMotions.FindChar(t, c + 1, cm.c, n)
    case LeftUntil =>
      var i := ViMotions.FindCharRev(t, c, cm.c, n);
      if i.Some? then Some(i.value + 1) else None
    case LeftAt => ViMotions.FindCharRev(t, c, cm.c, n)
  }

  /** Searches to the right delete inclusively, those to the left exclusively. */
  function CharMoveType(m: CharMovement): MoveType
  {
    if m == RightUntil || m == RightAt then Inclusive else Exclusive
  }

  /** `handle_key_move_to_char`. */
  function MoveToCharKey(w: Session, key: Key, movement: CharMovement): (r: Session)
    requires Inv(w)
    ensures Inv(r) && Settings(w.ed, r.ed)
  {
    var n := MoveCount(w.vi.count);
    var v := w.vi.(count := 0);
    var target := CharTarget(key, movement, v.lastCharMovement);
    if target.None? then NormalModeAbort(Session(v, w.ed))
    else
      var v1 := if movement == Repeat || movement == ReverseRepeat then v
        else v.(lastCharMovement := target, currentCommand := v.currentCommand + [key]);
      var p := CharPlace(CurText(w.ed), w.ed.cursor, target.value, n);
      var ed := if p.Some? then MoveTo(w.ed, p.value) else w.ed;
      PopModeAfterMovement(Session(v1, ed), CharMoveType(target.value.movement))
  }

  /** `handle_key_g`: `ge` and `gE` move back to the end of a word, inclusively; anything else aborts. */
  function GKey(w: Session, key: Key): (r: Session)
    requires Inv(w)
    ensures Inv(r) && Settings(w.ed, r.ed) && r.vi.count == 0
  {
    var n := MoveCount(w.vi.count);
    var v := w.vi.(currentCommand := w.vi.currentCommand + [key]);
    var t := CurText(w.ed);
    var r :=
      if key == Char('e') || key == Char('E') then
        var mode := if key == Char('e') then ViMotions.Keyword else ViMotions.Whitespace;
        ViMotions.MoveWordLands(t, mode, ViMotions.Left, w.ed.cursor, n);
        var p := ViMotions.MoveWord(t, mode, ViMotions.Left, w.ed.cursor, n);
        PopModeAfterMovement(Session(v, MoveTo(w.ed, p)), Inclusive)
      else NormalModeAbort(Session(v, w.ed));
    Session(r.vi.(count := 0), r.ed)
  }

  // ---------------------------------------------------------------------
  // Replace and ~

  /** `n` copies of `c`. */
  function Fill(c: char, n: nat): Text
  {
    seq(n, _ => c)
  }

  /** `t` with its `n` characters from `p` overwritten by `c`. */
  function Overwritten(t: Text, p: nat, c: char, n: nat): Text
    requires p + n <= |t|
  {
    t[..p] + Fill(c, n) + t[p + n..]
  }

  /** Writing `c` over the character at `p`, then over the `n - 1` after it. */
  lemma {:induction false} OverwrittenStep(t: Text, u: Text, p: nat, q: nat, c: char, n: nat, m: nat)
    requires q == p + 1 && n == m + 1 && p + n <= |t| && u == t[..p] + [c] + t[p + 1..]
    ensures Overwritten(u, q, c, m) == Overwritten(t, p, c, n)
  {
    var v, w := Overwritten(u, q, c, m), Overwritten(t, p, c, n);
    assert |v| == |w|;
    forall i | 0 <= i < |v|
      ensures v[i] == w[i]
    {
      if i < p {
      } else if i < p + n {
      } else {
      }
    }
  }

  /** One step of `r`'s loop: the character at the cursor deleted and `c` typed in its place. */
  function ReplaceStep(s: EditorState, c: char): (r: EditorState)
    requires Valid(s) && !s.noEol && s.cursor < |CurText(s)|
    ensures Valid(r) && Keeps(s, r) && r.cursor == s.cursor + 1
    ensures CurText(r) == CurText(s)[..s.cursor] + [c] + CurText(s)[s.cursor + 1..]
  {
    InsertChars(DeleteAfter(s), [c])
  }

  /** `r`'s loop: each of the `n` characters from the cursor deleted and `c` typed in its place. */
  function ReplaceLoop(s: EditorState, c: char, n: nat): (r: EditorState)
    requires Valid(s) && !s.noEol && s.cursor + n <= |CurText(s)|
    ensures Valid(r) && Keeps(s, r) && r.cursor == s.cursor + n
    ensures CurText(r) == Overwritten(CurText(s), s.cursor, c, n)
    decreases n
  {
    if n == 0 then
      assert CurText(s)[..s.cursor] + [] + CurText(s)[s.cursor..] == CurText(s);
      s
    else
      var i := ReplaceStep(s, c);
      var m := n - 1;
      OverwrittenStep(CurText(s), CurText(i), s.cursor, i.cursor, c, n, m);
      ReplaceLoop(i, c, m)
  }

  /** `handle_key_replace`: with enough characters, replace them as one undo group and step back onto the last. */
  function ReplaceKey(w: Session, key: Key): (r: Session)
    requires Inv(w) && Current(w.vi.stack) == Mode.Replace
    ensures Inv(r) && Settings(w.ed, r.ed) && r.vi.count == 0
  {
    if key.Char? then
      var p := PopMode(Replaced(w, key.c));
      Session(p.vi.(count := 0), p.ed)
    else
      var a := NormalModeAbort(w);
      Session(a.vi.(count := 0), a.ed)
  }

  /** `r`'s characters replaced and recorded for `.` when `count` of them remain from the cursor; otherwise nothing changes. */
  function Replaced(w: Session, c: char): (r: Session)
    requires Inv(w) && Current(w.vi.stack) == Mode.Replace
    ensures Inv(r) && Settings(w.ed, r.ed) && r.vi.stack == w.vi.stack && r.vi.count == w.vi.count
  {
    var n := MoveCount(w.vi.count);
    if CountRight(w.ed, w.vi.count) == n then
      Session(w.vi.(lastInsert := None, lastCommand := [Char('r'), Char(c)], lastCount := w.vi.count),
        ReplacedBy(w.ed, c, n))
    else w
  }

  /** The editor's side of a replace: `n` characters replaced by `c` in one undo group, and the cursor on the last. */
  function ReplacedBy(s: EditorState, c: char, n: nat): (r: EditorState)
    requires Valid(s) && !s.noEol && s.cursor + n <= |CurText(s)|
    ensures Valid(r) && Keeps(s, r)
    ensures CurText(r) == Overwritten(CurText(s), s.cursor, c, n)
    ensures r.cursor == s.cursor + n - Min(1, s.cursor + n)
  {
    var g := GroupStart(s);
    var l := ReplaceLoop(g, c, n);
    var e := GroupEnd(l);
    MoveLeft(e, 1)
  }

  /** `~` on one character: ASCII letters change case. */
  function ToggleCase(c: char): char
  {
    if 'a' <= c <= 'z' then (c as int - 32) as char
    else if 'A' <= c <= 'Z' then (c as int + 32) as char
    else c
  }

  /** `t` with the case of every letter changed. */
  function Toggled(t: Text): Text
  {
    seq(|t|, i requires 0 <= i < |t| => ToggleCase(t[i]))
  }

  /** Changing the case of one character. */
  lemma RecasedOne(t: Text, p: nat)
    requires p < |t|
    ensures Recased(t, p, 1) == t[..p] + [ToggleCase(t[p])] + t[p + 1..]
    ensures ToggleCase(t[p]) == t[p] ==> Recased(t, p, 1) == t
  {
    assert Toggled(t[p..p + 1]) == [ToggleCase(t[p])];
    assert t == t[..p] + [t[p]] + t[p + 1..];
  }

  /** One step of `~`'s loop: a letter deleted and typed in its other case, anything else stepped over. */
  function TildeStep(s: EditorState): (r: EditorState)
    requires Valid(s) && !s.noEol && s.cursor < |CurText(s)|
    ensures Valid(r) && Keeps(s, r) && r.cursor == s.cursor + 1 && |CurText(r)| == |CurText(s)|
    ensures CurText(r) == Recased(CurText(s), s.cursor, 1)
  {
    var c := CurText(s)[s.cursor];
    if 'a' <= c <= 'z' || 'A' <= c <= 'Z' then Retyped(s) else StepOver(s)
  }

  /** A letter deleted and typed again in its other case. */
  function Retyped(s: EditorState): (r: EditorState)
    requires Valid(s) && !s.noEol && s.cursor < |CurText(s)|
    ensures Valid(r) && Keeps(s, r) && r.cursor == s.cursor + 1 && |CurText(r)| == |CurText(s)|
    ensures CurText(r) == Recased(CurText(s), s.cursor, 1)
  {
    RecasedOne(CurText(s), s.cursor);
    ReplaceStep(s, ToggleCase(CurText(s)[s.cursor]))
  }

  /** The cursor moved past a character whose case does not change. */
  function StepOver(s: EditorState): (r: EditorState)
    requires Valid(s) && !s.noEol && s.cursor < |CurText(s)|
    requires ToggleCase(CurText(s)[s.cursor]) == CurText(s)[s.cursor]
    ensures Valid(r) && Keeps(s, r) && r.cursor == s.cursor + 1 && |CurText(r)| == |CurText(s)|
    ensures CurText(r) == Recased(CurText(s), s.cursor, 1)
  {
    RecasedOne(CurText(s), s.cursor);
    MoveRight(s, 1)
  }

  /** `t` with the case of its `n` characters from `p` changed. */
  function Recased(t: Text, p: nat, n: nat): Text
    requires p + n <= |t|
  {
    t[..p] + Toggled(t[p..p + n]) + t[p + n..]
  }

  /** Changing the case of the character at `p`, then of the `n - 1` after it. */
  lemma {:induction false} RecasedStep(t: Text, u: Text, p: nat, q: nat, n: nat, m: nat)
    requires q == p + 1 && n == m + 1 && p + n <= |t| && u == Recased(t, p, 1)
    ensures Recased(u, q, m) == Recased(t, p, n)
  {
    var v, w := Recased(u, q, m), Recased(t, p, n);
    assert |v| == |w|;
    forall i | 0 <= i < |v|
      ensures v[i] == w[i]
    {
      if i < p {
      } else if i < p + n {
      } else {
      }
    }
  }

  /** `~`'s loop over `n` characters from the cursor. */
  function TildeLoop(s: EditorState, n: nat): (r: EditorState)
    requires Valid(s) && !s.noEol && s.cursor + n <= |CurText(s)|
    ensures Valid(r) && Keeps(s, r) && r.cursor == s.cursor + n
    ensures CurText(r) == Recased(CurText(s), s.cursor, n)
    decreases n
  {
    if n == 0 then
      assert CurText(s)[..s.cursor] + [] + CurText(s)[s.cursor..] == CurText(s);
      s
    else
      var i := TildeStep(s);
      var m := n - 1;
      RecasedStep(CurText(s), CurText(i), s.cursor, i.cursor, n, m);
      TildeLoop(i, m)
  }

  /**
   * `~`: recorded for `.`, then in its own mode and undo group the case
   * of up to `count` characters from the cursor is changed; leaving the
   * mode closes the group and redraws.
   */
  function TildeKey(w: Session): (r: Session)
    requires Inv(w)
    ensures Inv(r) && Settings(w.ed, r.ed)
  {
    var v := w.vi.(lastInsert := None, lastCommand := [Char('~')], lastCount := w.vi.count);
    var p := PushMode(Session(v, w.ed), Mode.Tilde);
    StackLaws(w.vi.stack, Mode.Tilde);
    var n := CountRight(p.ed, p.vi.count);
    PopMode(Session(p.vi, TildeLoop(p.ed, n)))
  }

  // ---------------------------------------------------------------------
  // Undo and redo

  /** `u`'s loop: up to `n` undos, stopping at the first that finds nothing to undo. */
  function UndoTimes(s: EditorState, n: nat): (r: EditorState)
    requires Valid(s)
    ensures Valid(r) && Keeps(s, r)
    decreases n
  {
    if n == 0 then s
    else
      var u := Undo(s);
      if !u.1 then u.0 else UndoTimes(u.0, n - 1)
  }

  /** Ctrl-r's loop: up to `n` redos, stopping at the first that finds nothing to redo. */
  function RedoTimes(s: EditorState, n: nat): (r: EditorState)
    requires Valid(s)
    ensures Valid(r) && Keeps(s, r)
    decreases n
  {
    if n == 0 then s
    else
      var u := Redo(s);
      if !u.1 then u.0 else RedoTimes(u.0, n - 1)
  }

  // ---------------------------------------------------------------------
  // Normal mode

  /** `i`, `a`, `A`, `I` and `s`: recorded as the insert to repeat, then insert mode. */
  function InsertCommand(w: Session, key: Key): (r: Session)
    requires Inv(w) && IsInsertKey(key)
    ensures Inv(r) && Settings(w.ed, r.ed) && Current(r.vi.stack) == Mode.Insert
  {
    var p := SetMode(Session(w.vi.(lastInsert := Some(key)), w.ed), Mode.Insert);
    if key == Char('i') then p
    else if key == Char('a') then Session(p.vi, MoveRight(p.ed, 1))
    else if key == Char('A') then Session(p.vi, MoveToEnd(p.ed))
    else if key == Char('I') then Session(p.vi, MoveToStart(p.ed))
    else
      var pos := CountEnd(p.ed, p.vi.count);
      Session(p.vi.(lastCount := p.vi.count, count := 0), DeleteUntil(p.ed, pos))
  }

  /** `d` and `c`: a pending delete from the cursor (`c` entering insert mode beneath it); the count waits for the movement. */
  function DeleteCommand(w: Session, key: Key): (r: Session)
    requires Inv(w) && (key == Char('d') || key == Char('c'))
    ensures Inv(r) && Settings(w.ed, r.ed) && Current(r.vi.stack) == Mode.Delete(w.ed.cursor)
    ensures CurText(r.ed) == CurText(w.ed) && r.vi.secondaryCount == w.vi.count && r.vi.count == 0
  {
    var p :=
      if key == Char('d') then Session(w.vi.(currentCommand := [key], currentInsert := None), w.ed)
      else SetMode(Session(w.vi.(currentCommand := [], currentInsert := Some(key)), w.ed), Mode.Insert);
    var q := SetMode(p, Mode.Delete(p.ed.cursor));
    Session(q.vi.(secondaryCount := q.vi.count, count := 0), q.ed)
  }

  /** `D` and `C`: recorded for `.`, and the rest of the line deleted (`C` in insert mode). */
  function DeleteAllCommand(w: Session, key: Key): (r: Session)
    requires Inv(w) && (key == Char('D') || key == Char('C'))
    ensures Inv(r) && Settings(w.ed, r.ed)
    ensures CurText(r.ed) == CurText(w.ed)[..w.ed.cursor] && r.vi.count == 0
  {
    var v := w.vi.(lastInsert := None, lastCommand := [key], count := 0, lastCount := 0);
    var p := if key == Char('C') then SetModePreserveLast(Session(v, w.ed), Mode.Insert) else Session(v, w.ed);
    Session(p.vi, DeleteAllAfter(p.ed))
  }

  /** `x` and Delete: recorded for `.`, and up to `count` characters from the cursor deleted. */
  function CutCommand(w: Session, key: Key): (r: Session)
    requires Inv(w)
    ensures Inv(r) && Settings(w.ed, r.ed) && r.vi.count == 0
    ensures var t := CurText(w.ed); var c := w.ed.cursor;
      CurText(r.ed) == t[..c] + t[CountEnd(w.ed, w.vi.count)..]
  {
    var v := w.vi.(lastInsert := None, lastCommand := [key], lastCount := w.vi.count);
    var pos := CountEnd(w.ed, w.vi.count);
    UntilRemoved(CurText(w.ed), w.ed.cursor, pos);
    Session(v.(count := 0), DeleteUntil(w.ed, pos))
  }

  /** `t`, `T`, `f` and `F`: wait for the character. */
  function SearchMode(key: Key): CharMovement
  {
    if key == Char('t') then RightUntil
    else if key == Char('T') then LeftUntil
    else if key == Char('f') then RightAt
    else LeftAt
  }

  /** The keys that enter insert mode from normal mode. */
  predicate IsInsertKey(key: Key)
  {
    key == Char('i') || key == Char('a') || key == Char('A') || key == Char('I') || key == Char('s')
  }

  /**
   * `handle_key_normal` for every key but `.`: the keys below `.` in the
   * handler, none of which replays keys.  The handler's arms are split,
   * in their order, over `NormalOther`, `NormalEdit`, `NormalChange`,
   * `NormalRest`, `NormalCount` and `NormalEditing`.
   */
  function NormalOther(w: Session, key: Key): (r: Session)
    requires Inv(w) && key != Char('.')
    ensures Inv(r) && Settings(w.ed, r.ed)
  {
    if key == Esc then Session(w.vi.(count := 0), w.ed)
    else if IsInsertKey(key) then InsertCommand(w, key)
    else NormalEdit(w, key)
  }

  /** `handle_key_normal` on `r`, `d` and `c` and the keys after them. */
  function NormalEdit(w: Session, key: Key): (r: Session)
    requires Inv(w)
    ensures Inv(r) && Settings(w.ed, r.ed)
  {
    if key == Char('r') then SetMode(w, Mode.Replace)
    else if key == Char('d') || key == Char('c') then DeleteCommand(w, key)
    else NormalChange(w, key)
  }

  /** `handle_key_normal` on `D` and `C`, the movements and the keys after them. */
  function NormalChange(w: Session, key: Key): (r: Session)
    requires Inv(w)
    ensures Inv(r) && Settings(w.ed, r.ed)
  {
    if key == Char('D') || key == Char('C') then DeleteAllCommand(w, key)
    else if IsMotion(key, w.vi.count) then MotionKey(w, key)
    else NormalRest(w, key)
  }

  /** `handle_key_normal` on the searches and the keys after them. */
  function NormalRest(w: Session, key: Key): (r: Session)
    requires Inv(w)
    ensures Inv(r) && Settings(w.ed, r.ed)
  {
    if key == Char('t') || key == Char('T') || key == Char('f') || key == Char('F') then
      SetMode(w, Mode.MoveToChar(SearchMode(key)))
    else if key == Char(';') then MoveToCharKey(w, key, Repeat)
    else if key == Char(',') then MoveToCharKey(w, key, ReverseRepeat)
    else NormalCount(w, key)
  }

  /** `handle_key_normal` on `g`, the digits and the keys after them. */
  function NormalCount(w: Session, key: Key): (r: Session)
    requires Inv(w)
    ensures Inv(r) && Settings(w.ed, r.ed)
  {
    if key == Char('g') then SetMode(w, Mode.G)
    else if key.Char? && '0' <= key.c <= '9' then Session(w.vi.(count := PushDigit(w.vi.count, DigitValue(key.c))), w.ed)
    else NormalEditing(w, key)
  }

  /** `handle_key_normal` on `x`, `~`, `u`, Ctrl-r and the keys every mode shares. */
  function NormalEditing(w: Session, key: Key): (r: Session)
    requires Inv(w)
    ensures Inv(r) && Settings(w.ed, r.ed)
  {
    if key == Char('x') || key == Key.Delete then CutCommand(w, key)
    else if key == Char('~') then TildeKey(w)
    else if key == Char('u') then Session(w.vi.(count := 0), UndoTimes(w.ed, MoveCount(w.vi.count)))
    else if key == Ctrl('r') then Session(w.vi.(count := 0), RedoTimes(w.ed, MoveCount(w.vi.count)))
    else Session(w.vi, CommonKey(w.ed, key))
  }

  /** `handle_key_delete_or_change`. */
  function DeleteOrChange(w: Session, key: Key): (r: Session)
    requires Inv(w)
    ensures Inv(r) && Settings(w.ed, r.ed)
  {
    if IsMovementKey(key) || (key == Char('0') && w.vi.count == 0) then DeleteMovement(w, key)
    else if key.Char? && '0' <= key.c <= '9' then NormalOther(w, key)
    else if (key == Char('c') && w.vi.currentInsert == Some(Char('c'))) || (key == Char('d') && w.vi.currentInsert.None?) then
      DeleteLine(w, key)
    else NormalModeAbort(w)
  }

  /** The movement that completes `d` or `c`, under the product of the two counts. */
  function DeleteMovement(w: Session, key: Key): (r: Session)
    requires Inv(w) && key != Char('.')
    ensures Inv(r) && Settings(w.ed, r.ed)
  {
    var v := w.vi.(count := Combined(w.vi.count, w.vi.secondaryCount), currentCommand := w.vi.currentCommand + [key]);
    NormalOther(Session(v, w.ed), key)
  }

  /** `dd` and `cc`: the whole line deleted, then back to the mode before. */
  function DeleteLine(w: Session, key: Key): (r: Session)
    requires Inv(w)
    ensures Inv(r) && Settings(w.ed, r.ed)
  {
    var v := w.vi.(currentCommand := w.vi.currentCommand + [key], count := 0, secondaryCount := 0);
    PopMode(Session(v, DeleteAllAfter(MoveToStart(w.ed))))
  }

  // ---------------------------------------------------------------------
  // Insert mode

  /** A typed key after a movement starts a new undo group and a new command, as if `i` had been typed. */
  function InsertReset(w: Session): (r: Session)
    requires Inv(w)
    ensures Inv(r) && Settings(w.ed, r.ed) && CurText(r.ed) == CurText(w.ed) && r.ed.cursor == w.ed.cursor
    ensures !r.vi.movementReset && r.vi.stack == w.vi.stack
  {
    if w.vi.movementReset then
      Session(w.vi.(lastCommand := [], movementReset := false, lastInsert := Some(Char('i'))), GroupStart(GroupEnd(w.ed)))
    else w
  }

  /** A character, Backspace or Delete in insert mode: recorded for `.`, then typed or deleted. */
  function InsertTyped(w: Session, key: Key): (r: Session)
    requires Inv(w) && (key.Char? || key == Backspace || key == Key.Delete)
    ensures Inv(r) && Settings(w.ed, r.ed)
    ensures key.Char? ==> CurText(r.ed) == CurText(w.ed)[..w.ed.cursor] + [key.c] + CurText(w.ed)[w.ed.cursor..]
  {
    var p := InsertReset(w);
    var v := p.vi.(lastCommand := p.vi.lastCommand + [key]);
    Session(v, if key.Char? then InsertChars(p.ed, [key.c]) else CommonKey(p.ed, key))
  }

  /** Up and Down in insert mode: a movement, outside the undo groups. */
  function InsertRecall(w: Session, key: Key): (r: Session)
    requires Inv(w) && (key == Up || key == Down)
    ensures Inv(r) && Settings(w.ed, r.ed)
  {
    var ed := GroupEnd(w.ed);
    var moved := if key == Up then MoveUp(ed) else MoveDown(ed);
    Session(w.vi.(count := 0, movementReset := true), GroupStart(moved))
  }

  /** The arrow keys, Home and End in insert mode: the count cleared, a movement marked, the key handled as a shared one. */
  function InsertMoved(w: Session, key: Key): (r: Session)
    requires Inv(w)
    ensures Inv(r) && Settings(w.ed, r.ed)
  {
    Session(w.vi.(count := 0, movementReset := true), CommonKey(w.ed, key))
  }

  /** The keys of insert mode other than Esc. */
  function InsertOther(w: Session, key: Key): (r: Session)
    requires Inv(w)
    ensures Inv(r) && Settings(w.ed, r.ed)
  {
    if key.Char? || key == Backspace || key == Key.Delete then InsertTyped(w, key)
    else InsertUntyped(w, key)
  }

  /** The keys of insert mode that neither type nor delete: arrows, Home and End move, Up and Down recall, the rest are shared. */
  function InsertUntyped(w: Session, key: Key): (r: Session)
    requires Inv(w)
    ensures Inv(r) && Settings(w.ed, r.ed)
    ensures !(key == Left || key == Right || key == Home || key == End || key == Up || key == Down) ==> r.vi == w.vi
  {
    if key == Left || key == Right || key == Home || key == End then InsertMoved(w, key)
    else if key == Up || key == Down then InsertRecall(w, key)
    else Session(w.vi, CommonKey(w.ed, key))
  }

  // ---------------------------------------------------------------------
  // The handlers that replay keys

  /** How deep replays may nest: `.` replays keys, and Esc after a counted insert replays the insert. */
  const ReplayDepth: nat := 3

  /** `handle_key_core`: the handler of the current mode. */
  function HandleKeyCore(w: Session, key: Key, fuel: nat): (r: Session)
    requires Inv(w)
    ensures Inv(r) && Settings(w.ed, r.ed)
    decreases fuel, 3
  {
    var m := Current(w.vi.stack);
    if m.Normal? then NormalKey(w, key, fuel)
    else if m.Insert? then InsertKey(w, key, fuel)
    else PendingKey(w, key)
  }

  /** The modes that wait for one more key: replace, a pending delete or change, a search and `g`. */
  function PendingKey(w: Session, key: Key): (r: Session)
    requires Inv(w) && !Current(w.vi.stack).Normal? && !Current(w.vi.stack).Insert?
    ensures Inv(r) && Settings(w.ed, r.ed)
  {
    var m := Current(w.vi.stack);
    if m.Replace? then ReplaceKey(w, key)
    else if m.Delete? then DeleteOrChange(w, key)
    else if m.MoveToChar? then MoveToCharKey(w, key, m.movement)
    else if m.G? then GKey(w, key)
    else assert false; w
  }

  /** `handle_key_normal`. */
  function NormalKey(w: Session, key: Key, fuel: nat): (r: Session)
    requires Inv(w)
    ensures Inv(r) && Settings(w.ed, r.ed)
    decreases fuel, 2
  {
    if key == Char('.') then
      var c := w.vi.count;
      var l := w.vi.lastCount;
      RepeatLast(Session(w.vi.(count := if c == 0 && l == 0 then 1 else if c == 0 then l else c), w.ed), fuel)
    else NormalOther(w, key)
  }

  /**
   * `repeat`: the recorded insert key, the recorded command and an Esc
   * to leave insert mode, with the recorded command kept.  With no depth
   * left only the count is recorded.
   */
  function RepeatLast(w: Session, fuel: nat): (r: Session)
    requires Inv(w)
    ensures Inv(r) && Settings(w.ed, r.ed) && r.vi.lastCommand == w.vi.lastCommand
    decreases fuel, 1
  {
    var keys := w.vi.lastCommand;
    var w0 := Session(w.vi.(lastCount := w.vi.count, lastCommand := []), w.ed);
    var w3 := RepeatRun(w0, keys, fuel);
    Session(w3.vi.(lastCommand := keys), w3.ed)
  }

  /** The replay of `repeat` while the replay depth lasts. */
  function RepeatRun(w: Session, keys: seq<Key>, fuel: nat): (r: Session)
    requires Inv(w)
    ensures Inv(r) && Settings(w.ed, r.ed)
    decreases fuel, 0
  {
    if fuel == 0 then w else ReplayRecorded(w, keys, fuel - 1)
  }

  /** The replay of `repeat`: the recorded insert key, the keys, and an Esc to leave insert mode. */
  function ReplayRecorded(w: Session, keys: seq<Key>, fuel: nat): (r: Session)
    requires Inv(w)
    ensures Inv(r) && Settings(w.ed, r.ed)
    decreases fuel, 6
  {
    var w1 := if w.vi.lastInsert.Some? then HandleKeyCore(w, w.vi.lastInsert.value, fuel) else w;
    var w2 := ReplayKeys(w1, keys, fuel);
    if w2.vi.lastInsert.Some? then HandleKeyCore(w2, Esc, fuel) else w2
  }

  /** `handle_key_core` on each key in turn. */
  function ReplayKeys(w: Session, keys: seq<Key>, fuel: nat): (r: Session)
    requires Inv(w)
    ensures Inv(r) && Settings(w.ed, r.ed)
    decreases fuel, 4, |keys|
  {
    if keys == [] then w else ReplayKeys(HandleKeyCore(w, keys[0], fuel), keys[1..], fuel)
  }

  /** `handle_key_insert`. */
  function InsertKey(w: Session, key: Key, fuel: nat): (r: Session)
    requires Inv(w)
    ensures Inv(r) && Settings(w.ed, r.ed)
    decreases fuel, 2
  {
    if key == Esc || key == Ctrl('[') then InsertEsc(w, fuel) else InsertOther(w, key)
  }

  /**
   * Esc in insert mode: a counted insert is replayed `count - 1` more
   * times, then the cursor steps back and the mode is left.
   */
  function InsertEsc(w: Session, fuel: nat): (r: Session)
    requires Inv(w)
    ensures Inv(r) && Settings(w.ed, r.ed) && r.vi.count == 0
    decreases fuel, 1
  {
    var w1 :=
      if w.vi.count > 0 then
        var e := EscLoop(Session(w.vi.(lastCount := w.vi.count), w.ed), Replays(w.vi), fuel);
        Session(e.vi.(count := 0), e.ed)
      else w;
    PopMode(Session(w1.vi, MoveLeft(w1.ed, 1)))
  }

  /** How many more times a counted insert is replayed: `count - 1`. */
  function Replays(v: ViState): (n: nat)
    requires v.count > 0
    ensures n + 1 == v.count
  {
    v.count - 1
  }

  /** The replays of a counted insert: each time the recorded keys are taken and handled again. */
  function EscLoop(w: Session, n: nat, fuel: nat): (r: Session)
    requires Inv(w)
    ensures Inv(r) && Settings(w.ed, r.ed)
    decreases fuel, 0, n
  {
    if n == 0 || fuel == 0 then w
    else EscLoop(ReplayOnce(w, fuel - 1), n - 1, fuel)
  }

  /** One replay of a counted insert: the recorded keys taken and handled again. */
  function ReplayOnce(w: Session, fuel: nat): (r: Session)
    requires Inv(w)
    ensures Inv(r) && Settings(w.ed, r.ed)
    decreases fuel, 5
  {
    ReplayKeys(Session(w.vi.(lastCommand := []), w.ed), w.vi.lastCommand, fuel)
  }

  // ---------------------------------------------------------------------
  // The keymap as a whole

  /**
   * `handle_key` with the vi keymap: the shared dispatch, or
   * `handle_key_core` followed by dismissing the completion hint.
   */
  function OnKey(w: Session, key: Key, handler: Text -> seq<Text>): (p: (Session, Outcome))
    requires Inv(w)
    ensures Inv(p.0) && Settings(w.ed, p.0.ed)
    ensures p.1 == Done(true) <==> key == Char('\n') && HandleNewline(w.ed).1
    ensures p.1 == Failed(Interrupted) <==> key == Ctrl('c')
    ensures p.1 == Failed(UnexpectedEof) <==> key == Ctrl('d') && CurText(w.ed) == []
  {
    var r := RouteKey(key, CurText(w.ed) == [], w.ed.autosuggestion.Some?, AtEndOfLine(w.ed));
    if r.ToKeymap? then
      var k := HandleKeyCore(w, r.key, ReplayDepth);
      HintDropped(k.ed);
      (Session(k.vi, k.ed.(hint := None)), Done(false))
    else
      var (t, out) := Handled(w.ed, r, handler);
      (Session(w.vi, t), out)
  }
}
