/**
 * The vi keymap's motions over the text being edited: single steps of the
 * cursor (`ViMoveDir`), the word motions behind `w`, `W`, `ge`, `gE`
 * (`vi_move_word`) and `e`, `E`, `b`, `B` (`vi_move_word_end`), and the
 * character searches behind `f`, `t`, `F`, `T` (`find_char`,
 * `find_char_rev`).  Each scanning loop of the source is a method proved
 * against a recursive function; what the functions compute is proved in
 * lemmas.  Positions count characters, and a position equal to the
 * length is the place after the last character.
 */
module ViMotions {
  import opened Common

  /** `ViMoveMode`: a word is a run of keyword characters (or of other non-blanks), or any run of non-blanks. */
  datatype ViMoveMode = Keyword | Whitespace

  /** `ViMoveDir`. */
  datatype ViMoveDir = Left | Right

  /** Where a step leaves the cursor, and whether it moved. */
  datatype Step = Step(moved: bool, cursor: nat)

  /**
   * `move_cursor`: one place toward `dir`, refused going right at `max`
   * and going left at 0.
   */
  function MoveCursor(cursor: nat, max: nat, dir: ViMoveDir): (r: Step)
    ensures cursor <= max ==> r.cursor <= max
    ensures r.moved <==> (if dir == Right then cursor != max else cursor != 0)
    ensures r.moved ==> r.cursor == (if dir == Right then cursor + 1 else cursor - 1)
    ensures !r.moved ==> r.cursor == cursor
  {
    if dir == Right && cursor == max then Step(false, cursor)
    else if dir == Left && cursor == 0 then Step(false, cursor)
    else match dir
      case Right => Step(true, cursor + 1)
      case Left => Step(true, cursor - 1)
  }

  function Opposite(dir: ViMoveDir): ViMoveDir
  {
    if dir == Right then Left else Right
  }

  /** `advance`: a step in the direction itself. */
  function Advance(dir: ViMoveDir, cursor: nat, max: nat): Step
  {
    MoveCursor(cursor, max, dir)
  }

  /** `go_back`: a step the other way. */
  function GoBack(dir: ViMoveDir, cursor: nat, max: nat): Step
  {
    MoveCursor(cursor, max, Opposite(dir))
  }

  /**
   * `advance` steps toward its own direction and `go_back` the other way:
   * each moves by one exactly when it is not blocked at 0 or `max`, and
   * neither leaves `[0, max]`.
   */
  lemma AdvanceAndGoBack(dir: ViMoveDir, cursor: nat, max: nat)
    requires cursor <= max
    ensures var a := Advance(dir, cursor, max);
      a.cursor <= max && (a.moved <==> (if dir == Right then cursor != max else cursor != 0)) &&
      a.cursor == (if !a.moved then cursor else if dir == Right then cursor + 1 else cursor - 1)
    ensures var b := GoBack(dir, cursor, max);
      b.cursor <= max && (b.moved <==> (if dir == Right then cursor != 0 else cursor != max)) &&
      b.cursor == (if !b.moved then cursor else if dir == Right then cursor - 1 else cursor + 1)
  {
  }

  /** Going back after a step that moved returns to where the step started. */
  lemma GoBackUndoesAdvance(dir: ViMoveDir, cursor: nat, max: nat)
    requires cursor <= max
    ensures var a := Advance(dir, cursor, max);
      a.moved ==> GoBack(dir, a.cursor, max) == Step(true, cursor)
  {
  }

  // ---------------------------------------------------------------------
  // Character classes

  /** `is_vi_keyword`: letters, digits and `_`. */
  predicate IsViKeyword(c: char)
  {
    c == '_' || IsAlphanumeric(c)
  }

  /**
   * `t[q]` divides words from `t[p]`: `t[p]` is not blank, and `t[q]` is
   * blank or, when keywords count, of the other kind (keyword against
   * other non-blank).
   */
  predicate Divides(t: Text, mode: ViMoveMode, p: nat, q: int)
  {
    p < |t| && 0 <= q < |t| && !IsWhitespace(t[p]) &&
    (IsWhitespace(t[q]) || (mode == Keyword && IsViKeyword(t[q]) != IsViKeyword(t[p])))
  }

  /** The place a scan in direction `dir` came from. */
  function Behind(dir: ViMoveDir, p: nat): int
  {
    if dir == Right then p - 1 else p + 1
  }

  /** The place a scan in direction `dir` goes to next. */
  function Ahead(dir: ViMoveDir, p: nat): int
  {
    if dir == Right then p + 1 else p - 1
  }

  // ---------------------------------------------------------------------
  // `vi_move_word`: w, W (right) and ge, gE (left)

  /** The states of `vi_move_word`'s scan: in blanks, in a run of keyword characters, in a run of others. */
  datatype WordState = Blank | InKeyword | InOther

  /** The state a scan starts in, from the character under the cursor. */
  function StateOf(c: char): WordState
  {
    if IsWhitespace(c) then Blank else if IsViKeyword(c) then InKeyword else InOther
  }

  /** How a scan ends: where the cursor is, and whether it ran off the end of the text, which ends the remaining repeats too. */
  datatype Stop = Stop(cursor: nat, atEnd: bool)

  /**
   * One repeat of `vi_move_word`'s scan from `cursor` in `state`: step,
   * and stop on the first non-blank after blanks or, counting keywords,
   * on a change of kind; a refused step stops where it is.
   */
  function WordScan(t: Text, mode: ViMoveMode, dir: ViMoveDir, cursor: nat, state: WordState): (r: Stop)
    requires cursor <= |t|
    ensures r.cursor <= |t|
    ensures r.atEnd ==> r.cursor == |t| && dir == Right
    decreases if dir == Right then |t| - cursor else cursor
  {
    var st := Advance(dir, cursor, |t|);
    if !st.moved then Stop(cursor, false)
    else if st.cursor >= |t| then Stop(st.cursor, true)
    else
      var c := t[st.cursor];
      match state
      case Blank =>
        if IsWhitespace(c) then WordScan(t, mode, dir, st.cursor, Blank) else Stop(st.cursor, false)
      case InKeyword =>
        if IsWhitespace(c) then WordScan(t, mode, dir, st.cursor, Blank)
        else if mode == Keyword && !IsViKeyword(c) then Stop(st.cursor, false)
        else WordScan(t, mode, dir, st.cursor, InKeyword)
      case InOther =>
        if IsWhitespace(c) then WordScan(t, mode, dir, st.cursor, Blank)
        else if mode == Keyword && IsViKeyword(c) then Stop(st.cursor, false)
        else WordScan(t, mode, dir, st.cursor, InOther)
  }

  /** Where `count` repeats of `vi_move_word` take the cursor; none from the end of the text. */
  function MoveWord(t: Text, mode: ViMoveMode, dir: ViMoveDir, cursor: nat, count: nat): (r: nat)
    requires cursor <= |t|
    ensures r <= |t|
    decreases count
  {
    if count == 0 || cursor >= |t| then cursor
    else
      var st := WordScan(t, mode, dir, cursor, StateOf(t[cursor]));
      if st.atEnd then st.cursor else MoveWord(t, mode, dir, st.cursor, count - 1)
  }

  /** The scan's loop: the state follows the characters passed, and the cursor stays in the text. */
  method ViMoveWord(t: Text, mode: ViMoveMode, dir: ViMoveDir, start: nat, count: nat) returns (cursor: nat)
    requires start <= |t|
    ensures cursor == MoveWord(t, mode, dir, start, count)
  {
    cursor := start;
    var n := 0;
    while n < count
      invariant n <= count && cursor <= |t|
      invariant MoveWord(t, mode, dir, cursor, count - n) == MoveWord(t, mode, dir, start, count)
    {
      if cursor >= |t| {
        return;
      }
      var state := StateOf(t[cursor]);
      ghost var from, first := cursor, state;
      while true
        invariant cursor <= |t|
        invariant WordScan(t, mode, dir, cursor, state) == WordScan(t, mode, dir, from, first)
        decreases if dir == Right then |t| - cursor else cursor
      {
        var st := Advance(dir, cursor, |t|);
        if !st.moved {
          break;
        }
        cursor := st.cursor;
        if cursor >= |t| {
          return;
        }
        var c := t[cursor];
        if state == Blank {
          if !IsWhitespace(c) {
            break;
          }
        } else if IsWhitespace(c) {
          state := Blank;
        } else if mode == Keyword && IsViKeyword(c) != (state == InKeyword) {
          break;
        }
      }
      n := n + 1;
    }
  }

  /** The state matches the character under the cursor. */
  predicate InWordState(t: Text, mode: ViMoveMode, i: nat, state: WordState)
    requires i < |t|
  {
    match state
    case Blank => IsWhitespace(t[i])
    case InKeyword => !IsWhitespace(t[i]) && (mode == Keyword ==> IsViKeyword(t[i]))
    case InOther => !IsWhitespace(t[i]) && (mode == Keyword ==> !IsViKeyword(t[i]))
  }

  /**
   * A scan moves only toward `dir` and stays in the text; it runs off
   * only at the end, and otherwise stops where the character it came
   * from divides words from the one it stops on, or at the start going
   * left.
   */
  lemma {:induction false} WordScanStops(t: Text, mode: ViMoveMode, dir: ViMoveDir, cursor: nat, state: WordState)
    requires cursor < |t| && InWordState(t, mode, cursor, state)
    ensures var r := WordScan(t, mode, dir, cursor, state);
      r.cursor <= |t| && (dir == Right ==> r.cursor >= cursor) && (dir == Left ==> r.cursor <= cursor) &&
      (r.atEnd ==> r.cursor == |t|) &&
      (!r.atEnd ==> (dir == Left && r.cursor == 0) || Divides(t, mode, r.cursor, Behind(dir, r.cursor)))
    decreases if dir == Right then |t| - cursor else cursor
  {
    var st := Advance(dir, cursor, |t|);
    if st.moved && st.cursor < |t| {
      var c := t[st.cursor];
      var next := match state
        case Blank => Blank
        case _ => if IsWhitespace(c) then Blank else state;
      if InWordState(t, mode, st.cursor, next) {
        WordScanStops(t, mode, dir, st.cursor, next);
      }
    }
  }

  /**
   * `w` and `W` stop on the first character of a word or at the end of
   * the text; `ge` and `gE` on the last character of a word, at the
   * start of the text, or (from the end) at the end.  The cursor never
   * moves against the direction.
   */
  lemma {:induction false} MoveWordLands(t: Text, mode: ViMoveMode, dir: ViMoveDir, cursor: nat, count: nat)
    requires cursor <= |t|
    ensures var r := MoveWord(t, mode, dir, cursor, count);
      r <= |t| && (dir == Right ==> r >= cursor) && (dir == Left ==> r <= cursor)
    ensures var r := MoveWord(t, mode, dir, cursor, count);
      count > 0 ==> r == |t| || (dir == Left && r == 0) || Divides(t, mode, r, Behind(dir, r))
    ensures count == 0 ==> MoveWord(t, mode, dir, cursor, count) == cursor
    decreases count
  {
    if count > 0 && cursor < |t| {
      var st := WordScan(t, mode, dir, cursor, StateOf(t[cursor]));
      WordScanStops(t, mode, dir, cursor, StateOf(t[cursor]));
      if !st.atEnd {
        MoveWordLands(t, mode, dir, st.cursor, count - 1);
        if count - 1 == 0 {
          assert MoveWord(t, mode, dir, st.cursor, count - 1) == st.cursor;
        }
      }
    }
  }

  // ---------------------------------------------------------------------
  // `vi_move_word_end`: e, E (right) and b, B (left)

  /** The states of `vi_move_word_end`'s scan; `SkipBlanks` is the source's `Whitespace`. */
  datatype EndState = SkipBlanks | EndOnWord | EndOnOther | EndOnWhitespace

  /**
   * One repeat of `vi_move_word_end`'s scan: skip blanks, enter the word
   * met, and at the first character that does not belong to it step
   * back onto the word's last character in the direction of travel.
   */
  function EndScan(t: Text, mode: ViMoveMode, dir: ViMoveDir, cursor: nat, state: EndState): (r: Stop)
    requires cursor <= |t|
    ensures r.cursor <= |t|
    ensures r.atEnd ==> r.cursor == |t| && dir == Right
    decreases if dir == Right then |t| - cursor else cursor
  {
    var st := Advance(dir, cursor, |t|);
    if !st.moved then Stop(cursor, false)
    else if st.cursor >= |t| then Stop(st.cursor, true)
    else
      var c := t[st.cursor];
      var back := GoBack(dir, st.cursor, |t|).cursor;
      match state
      case SkipBlanks =>
        if IsWhitespace(c) then EndScan(t, mode, dir, st.cursor, SkipBlanks)
        else if mode == Keyword && IsViKeyword(c) then EndScan(t, mode, dir, st.cursor, EndOnWord)
        else if mode == Whitespace then EndScan(t, mode, dir, st.cursor, EndOnWhitespace)
        else EndScan(t, mode, dir, st.cursor, EndOnOther)
      case EndOnWord =>
        if !IsViKeyword(c) then Stop(back, false) else EndScan(t, mode, dir, st.cursor, EndOnWord)
      case EndOnWhitespace =>
        if IsWhitespace(c) then Stop(back, false) else EndScan(t, mode, dir, st.cursor, EndOnWhitespace)
      case EndOnOther =>
        if IsWhitespace(c) || IsViKeyword(c) then Stop(back, false) else EndScan(t, mode, dir, st.cursor, EndOnOther)
  }

  /** Where `count` repeats of `vi_move_word_end` take the cursor. */
  function MoveWordEnd(t: Text, mode: ViMoveMode, dir: ViMoveDir, cursor: nat, count: nat): (r: nat)
    requires cursor <= |t|
    ensures r <= |t|
    decreases count
  {
    if count == 0 then cursor
    else
      var st := EndScan(t, mode, dir, cursor, SkipBlanks);
      if st.atEnd then st.cursor else MoveWordEnd(t, mode, dir, st.cursor, count - 1)
  }

  /** The state matches the character under the cursor. */
  predicate InEndState(t: Text, mode: ViMoveMode, i: nat, state: EndState)
  {
    match state
    case SkipBlanks => true
    case EndOnWord => i < |t| && mode == Keyword && IsViKeyword(t[i])
    case EndOnWhitespace => i < |t| && !IsWhitespace(t[i])
    case EndOnOther => i < |t| && mode == Keyword && !IsWhitespace(t[i]) && !IsViKeyword(t[i])
  }

  /**
   * An end scan moves only toward `dir` and stays in the text; it runs
   * off only at the end, and otherwise stops on a character the next
   * one in the direction of travel divides from its word, or where it
   * could not step.
   */
  lemma {:induction false} EndScanStops(t: Text, mode: ViMoveMode, dir: ViMoveDir, cursor: nat, state: EndState)
    requires cursor <= |t| && InEndState(t, mode, cursor, state)
    ensures var r := EndScan(t, mode, dir, cursor, state);
      r.cursor <= |t| && (dir == Right ==> r.cursor >= cursor) && (dir == Left ==> r.cursor <= cursor) &&
      (r.atEnd ==> r.cursor == |t|) &&
      (!r.atEnd ==> (dir == Left && r.cursor == 0) || (dir == Right && r.cursor == |t|) ||
                    Divides(t, mode, r.cursor, Ahead(dir, r.cursor)))
    decreases if dir == Right then |t| - cursor else cursor
  {
    var st := Advance(dir, cursor, |t|);
    if st.moved && st.cursor < |t| {
      var c := t[st.cursor];
      var next :=
        if state == SkipBlanks then
          (if IsWhitespace(c) then SkipBlanks
           else if mode == Keyword && IsViKeyword(c) then EndOnWord
           else if mode == Whitespace then EndOnWhitespace
           else EndOnOther)
        else state;
      if InEndState(t, mode, st.cursor, next) {
        EndScanStops(t, mode, dir, st.cursor, next);
      }
    }
  }

  /** The scan's loop of `vi_move_word_end`. */
  method ViMoveWordEnd(t: Text, mode: ViMoveMode, dir: ViMoveDir, start: nat, count: nat) returns (cursor: nat)
    requires start <= |t|
    ensures cursor == MoveWordEnd(t, mode, dir, start, count)
  {
    cursor := start;
    var n := 0;
    while n < count
      invariant n <= count && cursor <= |t|
      invariant MoveWordEnd(t, mode, dir, cursor, count - n) == MoveWordEnd(t, mode, dir, start, count)
    {
      var state := SkipBlanks;
      ghost var from := cursor;
      EndScanStops(t, mode, dir, from, SkipBlanks);
      while true
        invariant cursor <= |t|
        invariant EndScan(t, mode, dir, cursor, state) == EndScan(t, mode, dir, from, SkipBlanks)
        decreases if dir == Right then |t| - cursor else cursor
      {
        var st := Advance(dir, cursor, |t|);
        if !st.moved {
          break;
        }
        ghost var prev := cursor;
        cursor := st.cursor;
        if cursor >= |t| {
          return;
        }
        var c := t[cursor];
        if state == SkipBlanks {
          if IsWhitespace(c) {
          } else if mode == Keyword && IsViKeyword(c) {
            state := EndOnWord;
          } else if mode == Whitespace {
            state := EndOnWhitespace;
          } else {
            state := EndOnOther;
          }
        } else if (state == EndOnWord && !IsViKeyword(c)) ||
                  (state == EndOnWhitespace && IsWhitespace(c)) ||
                  (state == EndOnOther && (IsWhitespace(c) || IsViKeyword(c))) {
          var back := GoBack(dir, cursor, |t|);
          cursor := back.cursor;
          break;
        }
      }
      n := n + 1;
    }
  }

  /**
   * `e` and `E` stop on the last character of a word or at the end of
   * the text; `b` and `B` on the first character of a word or at the
   * start.  The cursor never moves against the direction.
   */
  lemma {:induction false} MoveWordEndLands(t: Text, mode: ViMoveMode, dir: ViMoveDir, cursor: nat, count: nat)
    requires cursor <= |t|
    ensures var r := MoveWordEnd(t, mode, dir, cursor, count);
      r <= |t| && (dir == Right ==> r >= cursor) && (dir == Left ==> r <= cursor)
    ensures var r := MoveWordEnd(t, mode, dir, cursor, count);
      count > 0 ==> (dir == Right && r == |t|) || (dir == Left && r == 0) || Divides(t, mode, r, Ahead(dir, r))
    decreases count
  {
    if count > 0 {
      var st := EndScan(t, mode, dir, cursor, SkipBlanks);
      EndScanStops(t, mode, dir, cursor, SkipBlanks);
      if !st.atEnd {
        MoveWordEndLands(t, mode, dir, st.cursor, count - 1);
        if count - 1 == 0 {
          assert MoveWordEnd(t, mode, dir, st.cursor, count - 1) == st.cursor;
        }
      }
    }
  }

  // ---------------------------------------------------------------------
  // `find_char` and `find_char_rev`

  /** How many of `t[lo..hi]` are `ch`. */
  function Occurrences(t: Text, lo: nat, hi: nat, ch: char): nat
    requires lo <= hi <= |t|
    decreases hi - lo
  {
    if lo == hi then 0 else (if t[lo] == ch then 1 else 0) + Occurrences(t, lo + 1, hi, ch)
  }

  /** Counting the last place separately. */
  lemma {:induction false} OccurrencesSnoc(t: Text, lo: nat, hi: nat, ch: char)
    requires lo < hi <= |t|
    ensures Occurrences(t, lo, hi, ch) == Occurrences(t, lo, hi - 1, ch) + (if t[hi - 1] == ch then 1 else 0)
    decreases hi - lo
  {
    if lo < hi - 1 {
      OccurrencesSnoc(t, lo + 1, hi, ch);
    }
  }

  /**
   * `find_char`: the place of the `count`-th `ch` at or after `start`,
   * none when there are fewer.
   */
  function FindChar(t: Text, start: nat, ch: char, count: nat): (r: Option<nat>)
    requires count > 0
    ensures r.Some? ==> start <= r.value < |t| && t[r.value] == ch && Occurrences(t, start, r.value, ch) == count - 1
    ensures r.None? ==> start >= |t| || Occurrences(t, start, |t|, ch) < count
    decreases |t| - start
  {
    if start >= |t| then None
    else if t[start] == ch && count == 1 then Some(start)
    else FindChar(t, start + 1, ch, if t[start] == ch then count - 1 else count)
  }

  /**
   * `find_char_rev`: the place of the `count`-th `ch` before `start`,
   * counting back from `start`; none when there are fewer.
   */
  function FindCharRev(t: Text, start: nat, ch: char, count: nat): (r: Option<nat>)
    requires start <= |t| && count > 0
    ensures r.Some? ==> r.value < start && t[r.value] == ch && Occurrences(t, r.value + 1, start, ch) == count - 1
    ensures r.None? ==> Occurrences(t, 0, start, ch) < count
    decreases start
  {
    if start == 0 then None
    else if t[start - 1] == ch && count == 1 then Some(start - 1)
    else
      var r := FindCharRev(t, start - 1, ch, if t[start - 1] == ch then count - 1 else count);
      OccurrencesSnoc(t, 0, start, ch);
      if r.Some? then OccurrencesSnoc(t, r.value + 1, start, ch); r else r
  }

  /** The searches of the source's tests, on "abcdefg" and "abcabc". */
  lemma FindCharExamples()
    ensures FindChar("abcdefg", 0, 'd', 1) == Some(3)
    ensures FindChar("abcabc", 1, 'a', 1) == Some(3)
    ensures FindChar("abcabc", 0, 'a', 2) == Some(3)
    ensures FindChar("abcdefg", 0, 'z', 1) == None
    ensures FindCharRev("abcdefg", 6, 'd', 1) == Some(3)
    ensures FindCharRev("abcabc", 5, 'c', 1) == Some(2)
    ensures FindCharRev("abcabc", 6, 'c', 2) == Some(2)
    ensures FindCharRev("abcdefg", 6, 'z', 1) == None
  {
  }

  /** The line of the tests `move_word_and_back` and `move_word_and_back_with_count`: words end at 5, 9, 13, 17 and 22. */
  const Words: Text := "here are some... words"

  /** `w` on `Words` from 0. */
  lemma KeywordWordFrom0()
    ensures WordScan(Words, Keyword, Right, 0, InKeyword) == Stop(5, false)
  {
    assert WordScan(Words, Keyword, Right, 4, Blank) == Stop(5, false);
    assert WordScan(Words, Keyword, Right, 3, InKeyword) == Stop(5, false);
    assert WordScan(Words, Keyword, Right, 2, InKeyword) == Stop(5, false);
    assert WordScan(Words, Keyword, Right, 1, InKeyword) == Stop(5, false);
  }

  lemma KeywordWordFrom5()
    ensures WordScan(Words, Keyword, Right, 5, InKeyword) == Stop(9, false)
  {
    assert WordScan(Words, Keyword, Right, 8, Blank) == Stop(9, false);
    assert WordScan(Words, Keyword, Right, 7, InKeyword) == Stop(9, false);
    assert WordScan(Words, Keyword, Right, 6, InKeyword) == Stop(9, false);
  }

  lemma KeywordWordFrom9()
    ensures WordScan(Words, Keyword, Right, 9, InKeyword) == Stop(13, false)
  {
    assert WordScan(Words, Keyword, Right, 12, InKeyword) == Stop(13, false);
    assert WordScan(Words, Keyword, Right, 11, InKeyword) == Stop(13, false);
    assert WordScan(Words, Keyword, Right, 10, InKeyword) == Stop(13, false);
  }

  lemma KeywordWordFrom13()
    ensures WordScan(Words, Keyword, Right, 13, InOther) == Stop(17, false)
  {
    assert WordScan(Words, Keyword, Right, 16, Blank) == Stop(17, false);
    assert WordScan(Words, Keyword, Right, 15, InOther) == Stop(17, false);
    assert WordScan(Words, Keyword, Right, 14, InOther) == Stop(17, false);
  }

  lemma KeywordWordFrom17()
    ensures WordScan(Words, Keyword, Right, 17, InKeyword) == Stop(22, true)
  {
    assert WordScan(Words, Keyword, Right, 21, InKeyword) == Stop(22, true);
    assert WordScan(Words, Keyword, Right, 20, InKeyword) == Stop(22, true);
    assert WordScan(Words, Keyword, Right, 19, InKeyword) == Stop(22, true);
    assert WordScan(Words, Keyword, Right, 18, InKeyword) == Stop(22, true);
  }

  /** `W` on `Words` from 0. */
  lemma BlankWordFrom0()
    ensures WordScan(Words, Whitespace, Right, 0, InKeyword) == Stop(5, false)
  {
    assert WordScan(Words, Whitespace, Right, 4, Blank) == Stop(5, false);
    assert WordScan(Words, Whitespace, Right, 3, InKeyword) == Stop(5, false);
    assert WordScan(Words, Whitespace, Right, 2, InKeyword) == Stop(5, false);
    assert WordScan(Words, Whitespace, Right, 1, InKeyword) == Stop(5, false);
  }

  lemma BlankWordFrom5()
    ensures WordScan(Words, Whitespace, Right, 5, InKeyword) == Stop(9, false)
  {
    assert WordScan(Words, Whitespace, Right, 8, Blank) == Stop(9, false);
    assert WordScan(Words, Whitespace, Right, 7, InKeyword) == Stop(9, false);
    assert WordScan(Words, Whitespace, Right, 6, InKeyword) == Stop(9, false);
  }

  lemma BlankWordFrom9()
    ensures WordScan(Words, Whitespace, Right, 9, InKeyword) == Stop(17, false)
  {
    assert WordScan(Words, Whitespace, Right, 16, Blank) == Stop(17, false);
    assert WordScan(Words, Whitespace, Right, 15, InKeyword) == Stop(17, false);
    assert WordScan(Words, Whitespace, Right, 14, InKeyword) == Stop(17, false);
    assert WordScan(Words, Whitespace, Right, 13, InKeyword) == Stop(17, false);
    assert WordScan(Words, Whitespace, Right, 12, InKeyword) == Stop(17, false);
    assert WordScan(Words, Whitespace, Right, 11, InKeyword) == Stop(17, false);
    assert WordScan(Words, Whitespace, Right, 10, InKeyword) == Stop(17, false);
  }

  lemma BlankWordFrom17()
    ensures WordScan(Words, Whitespace, Right, 17, InKeyword) == Stop(22, true)
  {
    assert WordScan(Words, Whitespace, Right, 21, InKeyword) == Stop(22, true);
    assert WordScan(Words, Whitespace, Right, 20, InKeyword) == Stop(22, true);
    assert WordScan(Words, Whitespace, Right, 19, InKeyword) == Stop(22, true);
    assert WordScan(Words, Whitespace, Right, 18, InKeyword) == Stop(22, true);
  }

  /** `b` on `Words` from 22. */
  lemma KeywordEndFrom22()
    ensures EndScan(Words, Keyword, Left, 22, SkipBlanks) == Stop(17, false)
  {
    assert EndScan(Words, Keyword, Left, 17, EndOnWord) == Stop(17, false);
    assert EndScan(Words, Keyword, Left, 18, EndOnWord) == Stop(17, false);
    assert EndScan(Words, Keyword, Left, 19, EndOnWord) == Stop(17, false);
    assert EndScan(Words, Keyword, Left, 20, EndOnWord) == Stop(17, false);
    assert EndScan(Words, Keyword, Left, 21, EndOnWord) == Stop(17, false);
  }

  lemma KeywordEndFrom17()
    ensures EndScan(Words, Keyword, Left, 17, SkipBlanks) == Stop(13, false)
  {
    assert EndScan(Words, Keyword, Left, 13, EndOnOther) == Stop(13, false);
    assert EndScan(Words, Keyword, Left, 14, EndOnOther) == Stop(13, false);
    assert EndScan(Words, Keyword, Left, 15, EndOnOther) == Stop(13, false);
    assert EndScan(Words, Keyword, Left, 16, SkipBlanks) == Stop(13, false);
  }

  lemma KeywordEndFrom13()
    ensures EndScan(Words, Keyword, Left, 13, SkipBlanks) == Stop(9, false)
  {
    assert EndScan(Words, Keyword, Left, 9, EndOnWord) == Stop(9, false);
    assert EndScan(Words, Keyword, Left, 10, EndOnWord) == Stop(9, false);
    assert EndScan(Words, Keyword, Left, 11, EndOnWord) == Stop(9, false);
    assert EndScan(Words, Keyword, Left, 12, EndOnWord) == Stop(9, false);
  }

  lemma KeywordEndFrom9()
    ensures EndScan(Words, Keyword, Left, 9, SkipBlanks) == Stop(5, false)
  {
    assert EndScan(Words, Keyword, Left, 5, EndOnWord) == Stop(5, false);
    assert EndScan(Words, Keyword, Left, 6, EndOnWord) == Stop(5, false);
    assert EndScan(Words, Keyword, Left, 7, EndOnWord) == Stop(5, false);
    assert EndScan(Words, Keyword, Left, 8, SkipBlanks) == Stop(5, false);
  }

  lemma KeywordEndFrom5()
    ensures EndScan(Words, Keyword, Left, 5, SkipBlanks) == Stop(0, false)
  {
    assert EndScan(Words, Keyword, Left, 0, EndOnWord) == Stop(0, false);
    assert EndScan(Words, Keyword, Left, 1, EndOnWord) == Stop(0, false);
    assert EndScan(Words, Keyword, Left, 2, EndOnWord) == Stop(0, false);
    assert EndScan(Words, Keyword, Left, 3, EndOnWord) == Stop(0, false);
    assert EndScan(Words, Keyword, Left, 4, SkipBlanks) == Stop(0, false);
  }

  /** `B` on `Words` from 22. */
  lemma BlankEndFrom22()
    ensures EndScan(Words, Whitespace, Left, 22, SkipBlanks) == Stop(17, false)
  {
    assert EndScan(Words, Whitespace, Left, 17, EndOnWhitespace) == Stop(17, false);
    assert EndScan(Words, Whitespace, Left, 18, EndOnWhitespace) == Stop(17, false);
    assert EndScan(Words, Whitespace, Left, 19, EndOnWhitespace) == Stop(17, false);
    assert EndScan(Words, Whitespace, Left, 20, EndOnWhitespace) == Stop(17, false);
    assert EndScan(Words, Whitespace, Left, 21, EndOnWhitespace) == Stop(17, false);
  }

  lemma BlankEndFrom17()
    ensures EndScan(Words, Whitespace, Left, 17, SkipBlanks) == Stop(9, false)
  {
    assert EndScan(Words, Whitespace, Left, 9, EndOnWhitespace) == Stop(9, false);
    assert EndScan(Words, Whitespace, Left, 10, EndOnWhitespace) == Stop(9, false);
    assert EndScan(Words, Whitespace, Left, 11, EndOnWhitespace) == Stop(9, false);
    assert EndScan(Words, Whitespace, Left, 12, EndOnWhitespace) == Stop(9, false);
    assert EndScan(Words, Whitespace, Left, 13, EndOnWhitespace) == Stop(9, false);
    assert EndScan(Words, Whitespace, Left, 14, EndOnWhitespace) == Stop(9, false);
    assert EndScan(Words, Whitespace, Left, 15, EndOnWhitespace) == Stop(9, false);
    assert EndScan(Words, Whitespace, Left, 16, SkipBlanks) == Stop(9, false);
  }

  lemma BlankEndFrom9()
    ensures EndScan(Words, Whitespace, Left, 9, SkipBlanks) == Stop(5, false)
  {
    assert EndScan(Words, Whitespace, Left, 5, EndOnWhitespace) == Stop(5, false);
    assert EndScan(Words, Whitespace, Left, 6, EndOnWhitespace) == Stop(5, false);
    assert EndScan(Words, Whitespace, Left, 7, EndOnWhitespace) == Stop(5, false);
    assert EndScan(Words, Whitespace, Left, 8, SkipBlanks) == Stop(5, false);
  }

  lemma BlankEndFrom5()
    ensures EndScan(Words, Whitespace, Left, 5, SkipBlanks) == Stop(0, false)
  {
    assert Words[..5] == "here ";
    assert EndScan(Words, Whitespace, Left, 0, EndOnWhitespace) == Stop(0, false);
    assert EndScan(Words, Whitespace, Left, 1, EndOnWhitespace) == Stop(0, false);
    assert EndScan(Words, Whitespace, Left, 2, EndOnWhitespace) == Stop(0, false);
    assert EndScan(Words, Whitespace, Left, 3, EndOnWhitespace) == Stop(0, false);
    assert EndScan(Words, Whitespace, Left, 4, SkipBlanks) == Stop(0, false);
  }

  /** `w` on `Words`: from the start it stops at 5, 9, 13, 17 and then the end, 22. */
  lemma ForwardWordStops()
    ensures MoveWord(Words, Keyword, Right, 0, 1) == 5 && MoveWord(Words, Keyword, Right, 5, 1) == 9
    ensures MoveWord(Words, Keyword, Right, 9, 1) == 13 && MoveWord(Words, Keyword, Right, 13, 1) == 17
    ensures MoveWord(Words, Keyword, Right, 17, 1) == 22
  {
    KeywordWordFrom0();
    KeywordWordFrom5();
    KeywordWordFrom9();
    KeywordWordFrom13();
    KeywordWordFrom17();
  }

  /** `W` on `Words`: "some..." is one word, so it stops at 5, 9, 17 and 22. */
  lemma ForwardBlankWordStops()
    ensures MoveWord(Words, Whitespace, Right, 0, 1) == 5 && MoveWord(Words, Whitespace, Right, 5, 1) == 9
    ensures MoveWord(Words, Whitespace, Right, 9, 1) == 17 && MoveWord(Words, Whitespace, Right, 17, 1) == 22
  {
    BlankWordFrom0();
    BlankWordFrom5();
    BlankWordFrom9();
    BlankWordFrom17();
  }

  /** `b` on `Words`: from the end it stops at 17, 13, 9, 5 and 0. */
  lemma BackWordStops()
    ensures MoveWordEnd(Words, Keyword, Left, 22, 1) == 17 && MoveWordEnd(Words, Keyword, Left, 17, 1) == 13
    ensures MoveWordEnd(Words, Keyword, Left, 13, 1) == 9 && MoveWordEnd(Words, Keyword, Left, 9, 1) == 5
    ensures MoveWordEnd(Words, Keyword, Left, 5, 1) == 0
  {
    KeywordEndFrom22();
    KeywordEndFrom17();
    KeywordEndFrom13();
    KeywordEndFrom9();
    KeywordEndFrom5();
  }

  /** `B` on `Words`: from the end it stops at 17, 9, 5 and 0. */
  lemma BackBlankWordStops()
    ensures MoveWordEnd(Words, Whitespace, Left, 22, 1) == 17 && MoveWordEnd(Words, Whitespace, Left, 17, 1) == 9
    ensures MoveWordEnd(Words, Whitespace, Left, 9, 1) == 5 && MoveWordEnd(Words, Whitespace, Left, 5, 1) == 0
  {
    BlankEndFrom22();
    BlankEndFrom17();
    BlankEndFrom9();
    BlankEndFrom5();
  }

  /**
   * `move_word_and_back`: on `Words`, `b` retraces the stops of `w` back
   * to 0, and `B` those of `W`: every stop going forward is a stop coming
   * back.
   */
  lemma MoveWordAndBack()
    ensures var fw := [0, 5, 9, 13, 17, 22];
      forall k | 0 <= k < 5 :: MoveWord(Words, Keyword, Right, fw[k], 1) == fw[k + 1] &&
                               MoveWordEnd(Words, Keyword, Left, fw[k + 1], 1) == fw[k]
    ensures var fw := [0, 5, 9, 17, 22];
      forall k | 0 <= k < 4 :: MoveWord(Words, Whitespace, Right, fw[k], 1) == fw[k + 1] &&
                               MoveWordEnd(Words, Whitespace, Left, fw[k + 1], 1) == fw[k]
  {
    ForwardWordStops();
    ForwardBlankWordStops();
    BackWordStops();
    BackBlankWordStops();
    var fw := [0, 5, 9, 13, 17, 22];
    forall k | 0 <= k < 5
      ensures MoveWord(Words, Keyword, Right, fw[k], 1) == fw[k + 1] && MoveWordEnd(Words, Keyword, Left, fw[k + 1], 1) == fw[k]
    {
      assert k == 0 || k == 1 || k == 2 || k == 3 || k == 4;
    }
    var ws := [0, 5, 9, 17, 22];
    forall k | 0 <= k < 4
      ensures MoveWord(Words, Whitespace, Right, ws[k], 1) == ws[k + 1] && MoveWordEnd(Words, Whitespace, Left, ws[k + 1], 1) == ws[k]
    {
      assert k == 0 || k == 1 || k == 2 || k == 3;
    }
  }

  /** `3w` from the start of `Words` reaches 13, and `2w` from there the end. */
  lemma CountedForwardWord()
    ensures MoveWord(Words, Keyword, Right, 0, 3) == 13 && MoveWord(Words, Keyword, Right, 13, 2) == 22
  {
    assert MoveWord(Words, Keyword, Right, 0, 3) == 13 by {
      KeywordWordFrom0();
      KeywordWordFrom5();
      KeywordWordFrom9();
    }
    assert MoveWord(Words, Keyword, Right, 13, 2) == 22 by {
      KeywordWordFrom13();
      KeywordWordFrom17();
    }
  }

  /** `2b` from the end of `Words` reaches 13, and `3b` from there the start. */
  lemma CountedBackWord()
    ensures MoveWordEnd(Words, Keyword, Left, 22, 2) == 13 && MoveWordEnd(Words, Keyword, Left, 13, 3) == 0
  {
    assert MoveWordEnd(Words, Keyword, Left, 22, 2) == 13 by {
      KeywordEndFrom22();
      KeywordEndFrom17();
    }
    assert MoveWordEnd(Words, Keyword, Left, 13, 3) == 0 by {
      KeywordEndFrom13();
      KeywordEndFrom9();
      KeywordEndFrom5();
    }
  }

  /** `2W` from the start of `Words` reaches 9, and `2W` from there the end. */
  lemma CountedForwardBlankWord()
    ensures MoveWord(Words, Whitespace, Right, 0, 2) == 9 && MoveWord(Words, Whitespace, Right, 9, 2) == 22
  {
    assert MoveWord(Words, Whitespace, Right, 0, 2) == 9 by {
      BlankWordFrom0();
      BlankWordFrom5();
    }
    assert MoveWord(Words, Whitespace, Right, 9, 2) == 22 by {
      BlankWordFrom9();
      BlankWordFrom17();
    }
  }

  /** `2B` from the end of `Words` reaches 9, and `2B` from there the start. */
  lemma CountedBackBlankWord()
    ensures MoveWordEnd(Words, Whitespace, Left, 22, 2) == 9 && MoveWordEnd(Words, Whitespace, Left, 9, 2) == 0
  {
    assert MoveWordEnd(Words, Whitespace, Left, 22, 2) == 9 by {
      BlankEndFrom22();
      BlankEndFrom17();
    }
    assert MoveWordEnd(Words, Whitespace, Left, 9, 2) == 0 by {
      BlankEndFrom9();
      BlankEndFrom5();
    }
  }

  /**
   * `move_word_and_back_with_count`: counted motions stop where the same
   * number of single motions would, forward and back, in both modes.
   */
  lemma MoveWordAndBackWithCount()
    ensures MoveWord(Words, Keyword, Right, 0, 3) == 13 && MoveWord(Words, Keyword, Right, 13, 2) == 22
    ensures MoveWordEnd(Words, Keyword, Left, 22, 2) == 13 && MoveWordEnd(Words, Keyword, Left, 13, 3) == 0
    ensures MoveWord(Words, Whitespace, Right, 0, 2) == 9 && MoveWord(Words, Whitespace, Right, 9, 2) == 22
    ensures MoveWordEnd(Words, Whitespace, Left, 22, 2) == 9 && MoveWordEnd(Words, Whitespace, Left, 9, 2) == 0
  {
    CountedForwardWord();
    CountedBackWord();
    CountedForwardBlankWord();
    CountedBackBlankWord();
  }
}
