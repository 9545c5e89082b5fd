/**
 * The Emacs keymap: plain characters are typed in, Ctrl and Alt
 * characters and the special keys call the matching editor operations,
 * Alt-f and Alt-b move by words, and Alt-. fetches the last argument of
 * older and older history entries.  The keymap's one piece of state is
 * the index of the entry the last fetch took its argument from.
 */
module EmacsKeymap {
  import opened Common
  import opened Buffers
  import EditorRules
  import Cursors
  import Terms
  import opened EditorModel
  import opened Keymaps
  import Editors

  type Span = EditorRules.Span

  // ---------------------------------------------------------------------
  // Moving by words

  /** `EmacsMoveDir`. */
  datatype Direction = Backward | Forward

  /** Every index a cursor position names is an index of the words. */
  predicate Indexes(pos: Cursors.CursorPosition, n: nat)
  {
    match pos
    case InWord(i) => i < n
    case OnWordLeftEdge(i) => i < n
    case OnWordRightEdge(i) => i < n
    case InSpace(l, r) => (l.Some? ==> l.value < n) && (r.Some? ==> r.value < n)
  }

  /**
   * `emacs_move_word`'s choice of word: the word the cursor is in; on a
   * left edge the word before it when going back; on a right edge the
   * word after it when going forward; in a space the nearest word on
   * that side, if any.
   */
  function WordIndex(words: seq<Span>, pos: Cursors.CursorPosition, dir: Direction): (i: Option<nat>)
    requires Indexes(pos, |words|)
    ensures i.Some? ==> i.value < |words|
  {
    match pos
    case InWord(i) => Some(i)
    case OnWordLeftEdge(i) => Some(if i > 0 && dir == Backward then i - 1 else i)
    case OnWordRightEdge(i) => Some(if i < |words| - 1 && dir == Forward then i + 1 else i)
    case InSpace(left, right) => if dir == Backward then left else right
  }

  /** The place `emacs_move_word` moves to: the start of the word it chose going back, its end going forward. */
  function WordTarget(words: seq<Span>, c: nat, dir: Direction): (r: Option<nat>)
    requires Cursors.Spaced(words)
    ensures r.Some? ==> exists j | 0 <= j < |words| :: r.value == words[j].0 || r.value == words[j].1
  {
    PositionIndexes(c, words);
    match WordIndex(words, Cursors.Position(c, words), dir)
    case None => None
    case Some(i) => Some(if dir == Backward then words[i].0 else words[i].1)
  }

  /** `CursorPosition::get` names only indexes of the words. */
  lemma PositionIndexes(c: nat, words: seq<Span>)
    requires Cursors.Spaced(words)
    ensures Indexes(Cursors.Position(c, words), |words|)
  {
    Cursors.PositionTable(c, words);
  }

  /** Along spaced words, each word ends before the next one starts, so starts and ends both increase. */
  lemma Increasing(words: seq<Span>)
    requires Cursors.Spaced(words)
    ensures forall i, j | 0 <= i < j < |words| :: words[i].1 < words[j].0
    ensures forall i | 0 <= i < |words| :: words[i].0 < words[i].1
  {
    forall i, j | 0 <= i < j < |words| ensures words[i].1 < words[j].0 {
      Cursors.OrderedApart(words, i, j);
    }
  }

  /**
   * Going back: the nearest word start before the cursor, or the cursor
   * itself when it is on the first word's start; none when no word
   * starts at or before the cursor.
   */
  lemma BackwardTarget(words: seq<Span>, c: nat)
    requires Cursors.Spaced(words)
    ensures var r := WordTarget(words, c, Backward); r.Some? <==> words != [] && words[0].0 <= c
    ensures var r := WordTarget(words, c, Backward);
      r.Some? ==> r.value <= c && exists j | 0 <= j < |words| :: words[j].0 == r.value
    ensures var r := WordTarget(words, c, Backward);
      r.Some? ==> forall j | 0 <= j < |words| && words[j].0 < c :: words[j].0 <= r.value
    ensures var r := WordTarget(words, c, Backward);
      r.Some? && (exists j | 0 <= j < |words| :: words[j].0 < c) ==> r.value < c
  {
    Cursors.PositionTable(c, words);
    Increasing(words);
    var pos := Cursors.Position(c, words);
    var r := WordTarget(words, c, Backward);
    match pos {
      case InWord(i) =>
        assert r == Some(words[i].0);
      case OnWordLeftEdge(i) =>
        if i > 0 {
          assert r == Some(words[i - 1].0);
        } else {
          assert r == Some(c);
        }
      case OnWordRightEdge(i) =>
        assert r == Some(words[i].0);
      case InSpace(left, right) =>
        if left.Some? {
          assert r == Some(words[left.value].0);
        }
    }
  }

  /**
   * Going forward: the nearest word end after the cursor, or the cursor
   * itself when it is on the last word's end; none when no word ends at
   * or after the cursor.
   */
  lemma ForwardTarget(words: seq<Span>, c: nat)
    requires Cursors.Spaced(words)
    ensures var r := WordTarget(words, c, Forward); r.Some? <==> words != [] && c <= words[|words| - 1].1
    ensures var r := WordTarget(words, c, Forward);
      r.Some? ==> c <= r.value && exists j | 0 <= j < |words| :: words[j].1 == r.value
    ensures var r := WordTarget(words, c, Forward);
      r.Some? ==> forall j | 0 <= j < |words| && c < words[j].1 :: r.value <= words[j].1
    ensures var r := WordTarget(words, c, Forward);
      r.Some? && (exists j | 0 <= j < |words| :: c < words[j].1) ==> c < r.value
  {
    Cursors.PositionTable(c, words);
    Increasing(words);
    var pos := Cursors.Position(c, words);
    var r := WordTarget(words, c, Forward);
    match pos {
      case InWord(i) =>
        assert r == Some(words[i].1);
      case OnWordLeftEdge(i) =>
        assert r == Some(words[i].1);
      case OnWordRightEdge(i) =>
        if i < |words| - 1 {
          assert r == Some(words[i + 1].1);
        } else {
          assert r == Some(c);
        }
      case InSpace(left, right) =>
        if right.Some? {
          assert r == Some(words[right.value].1);
        }
    }
  }

  /** `emacs_move_word`: to the target on the default divider's words; with none, nothing happens. */
  function MoveWord(s: EditorState, dir: Direction): (r: EditorState)
    requires Valid(s)
    ensures Valid(r) && Keeps(s, r) && Cur(r) == Cur(s) && r.hint == s.hint
    ensures Cursors.Spaced(EditorRules.Words(CurText(s))) && var p := WordTarget(EditorRules.Words(CurText(s)), s.cursor, dir);
      (p.None? ==> r == s) && (p.Some? ==> r.cursor == Terms.DisplayCursor(p.value, |CurText(s)|, s.noEol))
  {
    var words := EditorRules.Words(CurText(s));
    Cursors.DividedWordsAreSpaced(CurText(s));
    EditorRules.WordsAreWords(CurText(s));
    match WordTarget(words, s.cursor, dir)
    case None => s
    case Some(p) =>
      assert p <= |CurText(s)|;
      MoveTo(s, p)
  }

  /** `emacs_move_word` on the editor. */
  method MoveWordOn(ed: Editors.Editor, dir: Direction)
    requires ed.Valid()
    modifies ed
    ensures ed.Valid() && ed.State() == MoveWord(old(ed.State()), dir)
  {
    var words, pos := ed.GetWordsAndCursorPosition();
    Cursors.DividedWordsAreSpaced(ed.Line());
    PositionIndexes(ed.cursor, words);
    var i := WordIndex(words, pos, dir);
    if i.Some? {
      var (start, end) := words[i.value];
      ed.MoveCursorTo(if dir == Backward then start else end);
    }
  }

  // ---------------------------------------------------------------------
  // Fetching the last argument

  /** The fetch index names an entry of the history. */
  predicate InRange(s: EditorState, idx: Option<nat>)
  {
    idx.Some? ==> idx.value < |s.items|
  }

  /**
   * `handle_last_arg_fetch` (Alt-.): nothing on an empty history or once
   * the oldest entry was used.  Otherwise the entry is the one before the
   * last one used, or, on a first press, the recalled entry or else the
   * newest; a repeated press first deletes the last argument of the text
   * (what the previous press inserted), then the entry's last argument is
   * inserted at the cursor.
   */
  function LastArgFetch(s: EditorState, idx: Option<nat>): (p: (EditorState, Option<nat>))
    requires Valid(s) && InRange(s, idx)
    ensures Valid(p.0) && Keeps(s, p.0) && InRange(p.0, p.1)
    ensures s.items == [] || idx == Some(0) ==> p == (s, idx)
    ensures s.items != [] && idx != Some(0) ==>
      p.1.Some? && (idx.Some? ==> p.1.value + 1 == idx.value) &&
      (idx.None? && s.curHistoryLoc.None? ==> p.1.value + 1 == |s.items|)
  {
    if s.items == [] || idx == Some(0) then (s, idx)
    else
      var i := FetchEntry(s, idx);
      var cleared := if idx.Some? then DropLastArg(s) else s;
      (InsertLastArg(cleared, s.items[i].buffer), Some(i))
  }

  /** The entry a fetch takes: the one before the last one used, else the recalled entry, else the newest. */
  function FetchEntry(s: EditorState, idx: Option<nat>): (i: nat)
    requires Valid(s) && InRange(s, idx) && s.items != [] && idx != Some(0)
    ensures i < |s.items|
    ensures idx.Some? ==> i + 1 == idx.value
    ensures idx.None? && s.curHistoryLoc.None? ==> i + 1 == |s.items|
  {
    if idx.Some? then idx.value - 1
    else if s.curHistoryLoc.Some? then s.curHistoryLoc.value else |s.items| - 1
  }

  /** A repeated fetch takes back the previous one: up to the end, from the start of the text's last argument. */
  function DropLastArg(s: EditorState): (r: EditorState)
    requires Valid(s)
    ensures Valid(r) && Keeps(s, r) && r.curHistoryLoc == s.curHistoryLoc
    ensures LastArg(CurText(s)).None? ==> r == s
  {
    if LastArg(CurText(s)).None? then s else DeleteUntil(s, ArgStart(CurText(s)))
  }

  /** Where the last argument of a text starts. */
  function ArgStart(t: Text): (k: nat)
    requires LastArg(t).Some?
    ensures k + |LastArg(t).value| == |t|
  {
    |t| - |LastArg(t).value|
  }

  /** With the cursor at the end, dropping the last argument cuts it off the text and leaves the cursor at the new end. */
  lemma DroppedAtEnd(s: EditorState)
    requires Valid(s) && LastArg(CurText(s)).Some? && s.cursor == |CurText(s)|
    ensures var r := DropLastArg(s);
      CurText(r) == CurText(s)[..ArgStart(CurText(s))] &&
      r.cursor == Terms.DisplayCursor(|CurText(r)|, |CurText(r)|, s.noEol)
  {
    var t := CurText(s);
    assert t[|t|..] == [];
    assert t[..ArgStart(t)] + t[|t|..] == t[..ArgStart(t)];
  }

  /** The entry's last argument, if it has one, inserted at the cursor. */
  function InsertLastArg(s: EditorState, entry: Text): (r: EditorState)
    requires Valid(s)
    ensures Valid(r) && Keeps(s, r) && r.curHistoryLoc == s.curHistoryLoc
    ensures LastArg(entry).None? ==> r == s
    ensures LastArg(entry).Some? ==>
      CurText(r) == CurText(s)[..s.cursor] + LastArg(entry).value + CurText(s)[s.cursor..]
  {
    match LastArg(entry)
    case None => s
    case Some(a) => InsertChars(s, a)
  }

  /**
   * A first fetch at the end of a line, with no entry recalled, appends
   * the newest entry's last argument.
   */
  lemma FirstFetch(s: EditorState)
    requires Valid(s) && !s.noEol && s.cursor == |CurText(s)| && s.curHistoryLoc.None? && s.items != []
    ensures LastArgFetch(s, None).1 == Some(|s.items| - 1)
    ensures LastArgFetch(s, None).0 == InsertLastArg(s, s.items[|s.items| - 1].buffer)
    ensures var a := LastArgFetch(s, None).0;
      CurText(a) == CurText(s) + ArgOf(s.items[|s.items| - 1].buffer) && a.cursor == |CurText(a)| && !a.noEol
  {
    FirstFetchSteps(s);
    AppendedAtEnd(s, s.items[|s.items| - 1].buffer);
  }

  /** A first fetch with no entry recalled takes the newest entry. */
  lemma FirstFetchSteps(s: EditorState)
    requires Valid(s) && s.curHistoryLoc.None? && s.items != []
    ensures LastArgFetch(s, None).1 == Some(|s.items| - 1)
    ensures LastArgFetch(s, None).0 == InsertLastArg(s, s.items[|s.items| - 1].buffer)
  {
  }

  /**
   * Two fetches in a row at the end of a line that is empty or ends in
   * whitespace: the second replaces what the first appended, the newest
   * entry's last argument, by the last argument of the entry before.
   */
  lemma FetchReplacesFetch(s: EditorState)
    requires Valid(s) && !s.noEol && s.cursor == |CurText(s)| && s.curHistoryLoc.None? && |s.items| >= 2
    requires CurText(s) == [] || IsWhitespace(CurText(s)[|CurText(s)| - 1])
    requires LastArg(s.items[|s.items| - 1].buffer).Some?
    ensures var p := LastArgFetch(s, None); var q := LastArgFetch(p.0, p.1);
      q.1 == Some(|s.items| - 2) && CurText(q.0) == CurText(s) + ArgOf(s.items[|s.items| - 2].buffer)
  {
    var n := |s.items|;
    var e := s.items[n - 1].buffer;
    var x := ArgOf(e);
    var a := InsertLastArg(s, e);
    AppendedAtEnd(s, e);
    SecondFetch(a, CurText(s), x, n - 1);
    FirstFetchSteps(s);
  }

  /**
   * A repeated fetch, with the cursor at the end of a text that is `t`
   * followed by the argument `x`, replaces `x` by the last argument of
   * the entry before the one last used.
   */
  lemma SecondFetch(a: EditorState, t: Text, x: Text, k: nat)
    requires Valid(a) && !a.noEol && IsArg(x) && 0 < k < |a.items|
    requires CurText(a) == t + x && a.cursor == |t + x|
    requires t == [] || IsWhitespace(t[|t| - 1])
    ensures LastArgFetch(a, Some(k)).1 == Some(k - 1)
    ensures CurText(LastArgFetch(a, Some(k)).0) == t + ArgOf(a.items[k - 1].buffer)
  {
    var e := a.items[k - 1].buffer;
    FetchAgain(a, k);
    var d := DropLastArg(a);
    DropAppended(a, t, x);
    assert Valid(d) && !d.noEol && d.cursor == |CurText(d)| && CurText(d) == t;
    AppendedAtEnd(d, e);
  }

  /** The last argument of an entry, empty when it has none. */
  function ArgOf(entry: Text): (a: Text)
    ensures LastArg(entry).Some? ==> a == LastArg(entry).value
    ensures LastArg(entry).None? ==> a == []
  {
    match LastArg(entry)
    case Some(x) => x
    case None => []
  }

  /** A repeated fetch, before the oldest entry is reached, as its two steps. */
  lemma FetchAgain(s: EditorState, k: nat)
    requires Valid(s) && 0 < k < |s.items|
    ensures LastArgFetch(s, Some(k)).0 == InsertLastArg(DropLastArg(s), s.items[k - 1].buffer)
    ensures LastArgFetch(s, Some(k)).1 == Some(k - 1)
  {
  }

  /** Inserting an entry's last argument at the end of the line appends it and leaves the cursor after it. */
  lemma AppendedAtEnd(s: EditorState, entry: Text)
    requires Valid(s) && !s.noEol && s.cursor == |CurText(s)|
    ensures var a := InsertLastArg(s, entry);
      CurText(a) == CurText(s) + ArgOf(entry) && a.cursor == |CurText(a)| && !a.noEol && a.items == s.items &&
      a.curHistoryLoc == s.curHistoryLoc
  {
    var t := CurText(s);
    match LastArg(entry)
    case None =>
      assert InsertLastArg(s, entry) == s;
    case Some(x) =>
      var a := InsertChars(s, x);
      assert InsertLastArg(s, entry) == a;
      assert t[..s.cursor] + x + t[s.cursor..] == t + x;
      assert a.cursor == Terms.DisplayCursor(|t + x|, |t + x|, false);
  }

  /**
   * With the cursor at the end of a text that is `t` followed by the
   * argument `x` after a break, dropping the last argument drops `x`.
   */
  lemma DropAppended(a: EditorState, t: Text, x: Text)
    requires Valid(a) && !a.noEol && IsArg(x)
    requires CurText(a) == t + x && a.cursor == |t + x|
    requires t == [] || IsWhitespace(t[|t| - 1])
    ensures var d := DropLastArg(a);
      CurText(d) == t && d.cursor == |t| && !d.noEol && d.items == a.items && d.curHistoryLoc == a.curHistoryLoc
  {
    assert t == [] || !IsWordChar(t[|t| - 1]);
    LastArgAppended(t, x);
    assert (t + x)[..|t + x| - |x|] == t;
    DroppedAtEnd(a);
  }

  // ---------------------------------------------------------------------
  // The key handlers, as functions of the editor and the fetch index

  /** The Ctrl keys that move the cursor or walk the history, and Ctrl-l. */
  predicate IsCtrlMove(c: char)
  {
    c == 'l' || c == 'a' || c == 'e' || c == 'b' || c == 'f' || c == 'p' || c == 'n'
  }

  /** The Ctrl keys that edit the text. */
  predicate IsCtrlEdit(c: char)
  {
    c == 'd' || c == 'u' || c == 'k' || c == 'w' || c == 'x'
  }

  /**
   * `handle_ctrl_key`: Ctrl-l clears the screen, Ctrl-a and Ctrl-e go to
   * the start and the end, Ctrl-b and Ctrl-f step, Ctrl-d deletes under
   * the cursor, Ctrl-p and Ctrl-n walk the history, Ctrl-u and Ctrl-k
   * delete before and after the cursor, Ctrl-w deletes the word before
   * it, Ctrl-x undoes; any other Ctrl key does nothing.
   */
  function CtrlKey(s: EditorState, c: char): (r: EditorState)
    requires Valid(s)
    ensures Valid(r) && Keeps(s, r)
    ensures !IsCtrlMove(c) && !IsCtrlEdit(c) ==> r == s
  {
    if IsCtrlMove(c) then CtrlMove(s, c)
    else if IsCtrlEdit(c) then CtrlEdit(s, c)
    else s
  }

  /** The Ctrl keys that leave the text alone, but Ctrl-p and Ctrl-n, which recall an entry. */
  function CtrlMove(s: EditorState, c: char): (r: EditorState)
    requires Valid(s) && IsCtrlMove(c)
    ensures Valid(r) && Keeps(s, r)
    ensures c == 'a' ==> Cur(r) == Cur(s) && r.cursor == 0
    ensures c == 'e' ==> Cur(r) == Cur(s) && r.cursor == Terms.DisplayCursor(|CurText(s)|, |CurText(s)|, s.noEol)
    ensures c == 'l' ==> Cur(r) == Cur(s) && !IsSearch(r)
  {
    match c
    case 'l' => Clear(s)
    case 'a' => MoveToStart(s)
    case 'e' => MoveToEnd(s)
    case 'b' => MoveLeft(s, 1)
    case 'f' => MoveRight(s, 1)
    case 'p' => MoveUp(s)
    case 'n' => MoveDown(s)
  }

  /** The Ctrl keys that edit the text. */
  function CtrlEdit(s: EditorState, c: char): (r: EditorState)
    requires Valid(s) && IsCtrlEdit(c)
    ensures Valid(r) && Keeps(s, r)
    ensures c == 'u' ==> CurText(r) == CurText(s)[s.cursor..] && r.cursor == 0
    ensures c == 'k' ==> CurText(r) == CurText(s)[..s.cursor]
    ensures c == 'd' && s.cursor < |CurText(s)| ==> CurText(r) == CurText(s)[..s.cursor] + CurText(s)[s.cursor + 1..]
  {
    match c
    case 'd' => DeleteAfter(s)
    case 'u' => DeleteAllBefore(s)
    case 'k' => DeleteAllAfter(s)
    case 'w' => DeleteWord(s, true)
    case 'x' => UndoKey(s)
  }

  /** Ctrl-x: `undo`, then to the end of the line when something was undone, a redraw otherwise. */
  function UndoKey(s: EditorState): (r: EditorState)
    requires Valid(s)
    ensures Valid(r) && Keeps(s, r) && Cur(r) == Cur(Undo(s).0)
  {
    var (u, did) := Undo(s);
    if did then MoveToEnd(u) else Redisplay(u)
  }

  /**
   * `handle_alt_key`: Alt-< and Alt-> go to the oldest entry and back to
   * the new line, Alt-Backspace deletes the word before the cursor,
   * Alt-f and Alt-b move by words, Alt-r reverts the text, Alt-. fetches
   * the last argument; any other Alt key does nothing.  Only Alt-.
   * changes the fetch index.
   */
  function AltKey(s: EditorState, idx: Option<nat>, c: char): (p: (EditorState, Option<nat>))
    requires Valid(s) && InRange(s, idx)
    ensures Valid(p.0) && Keeps(s, p.0) && InRange(p.0, p.1)
    ensures c != '.' ==> p.1 == idx
  {
    if c == '.' then LastArgFetch(s, idx) else (AltEdit(s, c), idx)
  }

  /** The Alt keys other than Alt-. */
  function AltEdit(s: EditorState, c: char): (r: EditorState)
    requires Valid(s)
    ensures Valid(r) && Keeps(s, r)
    ensures c == 'f' || c == 'b' ==> Cur(r) == Cur(s)
    ensures c == 'r' ==> Cur(r) == Reverted(Cur(s)).0
    ensures c != '<' && c != '>' && c != '\U{7F}' && c != 'f' && c != 'b' && c != 'r' ==> r == s
  {
    match c
    case '<' => MoveToStartOfHistory(s)
    case '>' => MoveToEndOfHistory(s)
    case '\U{7F}' => DeleteWord(s, true)
    case 'f' => MoveWord(s, Forward)
    case 'b' => MoveWord(s, Backward)
    case 'r' => Revert(s).0
    case _ => s
  }

  /**
   * The keys without a modifier other than characters: the arrows,
   * Home, End, Backspace and Delete call the matching editor operation;
   * Esc, Null and unbound keys do nothing.
   */
  function SpecialKey(s: EditorState, key: Key): (r: EditorState)
    requires Valid(s) && !(key.Char? || key.Ctrl? || key.Alt?)
    ensures Valid(r) && Keeps(s, r)
    ensures key.Esc? || key.Null? || key.Unbound? ==> r == s
  {
    if key.Backspace? || key.Delete? then SpecialDelete(s, key)
    else if key.Esc? || key.Null? || key.Unbound? then s
    else SpecialMove(s, key)
  }

  /** The arrows, Home and End. */
  function SpecialMove(s: EditorState, key: Key): (r: EditorState)
    requires Valid(s) && (key.Left? || key.Right? || key.Up? || key.Down? || key.Home? || key.End?)
    ensures Valid(r) && Keeps(s, r)
    ensures key == Home ==> Cur(r) == Cur(s) && r.cursor == 0
    ensures key == Left ==> Cur(r) == Cur(s) && r.cursor == Terms.DisplayCursor(s.cursor - Min(1, s.cursor), |CurText(s)|, s.noEol)
    ensures key == Right ==>
      Cur(r) == Cur(s) && r.cursor == Terms.DisplayCursor(s.cursor + Min(1, |CurText(s)| - s.cursor), |CurText(s)|, s.noEol)
  {
    match key
    case Left => MoveLeft(s, 1)
    case Right => MoveRight(s, 1)
    case Up => MoveUp(s)
    case Down => MoveDown(s)
    case Home => MoveToStart(s)
    case End => MoveToEnd(s)
  }

  /** Backspace and Delete. */
  function SpecialDelete(s: EditorState, key: Key): (r: EditorState)
    requires Valid(s) && (key.Backspace? || key.Delete?)
    ensures Valid(r) && Keeps(s, r)
    ensures key == Backspace && s.cursor > 0 ==> CurText(r) == CurText(s)[..s.cursor - 1] + CurText(s)[s.cursor..]
    ensures key == Delete && s.cursor < |CurText(s)| ==> CurText(r) == CurText(s)[..s.cursor] + CurText(s)[s.cursor + 1..]
  {
    if key.Backspace? then DeleteBefore(s) else DeleteAfter(s)
  }

  /**
   * `handle_key_core`: every key but Alt-. forgets the fetch index; a
   * plain character is typed in at the cursor.
   */
  function Core(s: EditorState, idx: Option<nat>, key: Key): (p: (EditorState, Option<nat>))
    requires Valid(s) && InRange(s, idx)
    ensures Valid(p.0) && Keeps(s, p.0) && InRange(p.0, p.1)
    ensures key != Alt('.') ==> p.1 == None
  {
    if key.Alt? then AltKey(s, if key.c == '.' then idx else None, key.c)
    else (Plain(s, key), None)
  }

  /** The keys without Alt: a plain character is typed in at the cursor. */
  function Plain(s: EditorState, key: Key): (r: EditorState)
    requires Valid(s) && !key.Alt?
    ensures Valid(r) && Keeps(s, r)
    ensures key.Char? ==> CurText(r) == CurText(s)[..s.cursor] + [key.c] + CurText(s)[s.cursor..]
  {
    if key.Char? then InsertChars(s, [key.c])
    else if key.Ctrl? then CtrlKey(s, key.c)
    else SpecialKey(s, key)
  }

  /**
   * `handle_key` with the Emacs keymap: the editor after the key, the
   * fetch index and the result.  A key the shared dispatch handles
   * leaves the fetch index alone; a key the keymap handles dismisses the
   * completion hint afterwards.
   */
  function OnKey(s: EditorState, idx: Option<nat>, key: Key, handler: Text -> seq<Text>): (p: (EditorState, Option<nat>, Outcome))
    requires Valid(s) && InRange(s, idx)
    ensures Valid(p.0) && Keeps(s, p.0) && InRange(p.0, p.1)
    ensures p.2 == Done(true) <==> key == Char('\n') && HandleNewline(s).1
    ensures p.2 == Failed(Interrupted) <==> key == Ctrl('c')
    ensures p.2 == Failed(UnexpectedEof) <==> key == Ctrl('d') && CurText(s) == []
    ensures key == Ctrl('h') ==> p.0 == Core(s, idx, Backspace).0.(hint := None)
  {
    var r := RouteKey(key, CurText(s) == [], s.autosuggestion.Some?, AtEndOfLine(s));
    if r.ToKeymap? then
      var (t, i) := Core(s, idx, r.key);
      HintDropped(t);
      (t.(hint := None), i, Done(false))
    else
      var (t, out) := Handled(s, r, handler);
      (t, idx, out)
  }

  /** A repeated fetch's deletion, on the editor. */
  method DropLastArgOn(ed: Editors.Editor)
    requires ed.Valid()
    modifies ed, ed.newBuf, ed.histBuf
    ensures ed.Valid() && ed.State() == DropLastArg(old(ed.State()))
  {
    var t := ed.Line();
    if LastArg(t).Some? {
      ed.DeleteUntil(ArgStart(t));
    }
  }

  /** A fetch's insertion, on the editor. */
  method InsertLastArgOn(ed: Editors.Editor, entry: Text)
    requires ed.Valid()
    modifies ed, ed.newBuf, ed.histBuf
    ensures ed.Valid() && ed.State() == InsertLastArg(old(ed.State()), entry)
  {
    var arg := LastArg(entry);
    if arg.Some? {
      ed.InsertCharsAfterCursor(arg.value);
    }
  }

  /** The Ctrl keys that move, on the editor. */
  method CtrlMoveOn(c: char, ed: Editors.Editor)
    requires ed.Valid() && IsCtrlMove(c)
    modifies ed, ed.newBuf, ed.histBuf
    ensures ed.Valid() && ed.State() == CtrlMove(old(ed.State()), c)
  {
    match c {
      case 'l' => ed.Clear();
      case 'a' => ed.MoveCursorToStartOfLine();
      case 'e' => ed.MoveCursorToEndOfLine();
      case 'b' => ed.MoveCursorLeft(1);
      case 'f' => ed.MoveCursorRight(1);
      case 'p' => ed.MoveUp();
      case 'n' => ed.MoveDown();
    }
  }

  /** The Ctrl keys that edit, on the editor. */
  method CtrlEditOn(c: char, ed: Editors.Editor)
    requires ed.Valid() && IsCtrlEdit(c)
    modifies ed, ed.newBuf, ed.histBuf
    ensures ed.Valid() && ed.State() == CtrlEdit(old(ed.State()), c)
  {
    match c {
      case 'd' => ed.DeleteAfterCursor();
      case 'u' => ed.DeleteAllBeforeCursor();
      case 'k' => ed.DeleteAllAfterCursor();
      case 'w' => ed.DeleteWordBeforeCursor(true);
      case 'x' => UndoKeyOn(ed);
    }
  }

  /** Ctrl-x, on the editor. */
  method UndoKeyOn(ed: Editors.Editor)
    requires ed.Valid()
    modifies ed, ed.newBuf, ed.histBuf
    ensures ed.Valid() && ed.State() == UndoKey(old(ed.State()))
  {
    ghost var s := ed.State();
    var did := ed.Undo();
    ghost var u := ed.State();
    assert (u, did) == Undo(s);
    if did {
      ed.MoveCursorToEndOfLine();
      assert ed.State() == MoveToEnd(u);
    } else {
      ed.Display();
      assert ed.State() == Redisplay(u);
    }
  }

  /** The Alt keys other than Alt-., on the editor. */
  method AltEditOn(c: char, ed: Editors.Editor)
    requires ed.Valid()
    modifies ed, ed.newBuf, ed.histBuf
    ensures ed.Valid() && ed.State() == AltEdit(old(ed.State()), c)
  {
    match c {
      case '<' => ed.MoveToStartOfHistory();
      case '>' => ed.MoveToEndOfHistory();
      case '\U{7F}' => ed.DeleteWordBeforeCursor(true);
      case 'f' => MoveWordOn(ed, Forward);
      case 'b' => MoveWordOn(ed, Backward);
      case 'r' => var _ := ed.Revert();
      case _ =>
    }
  }

  /** The arrows, Home and End, on the editor. */
  method SpecialMoveOn(key: Key, ed: Editors.Editor)
    requires ed.Valid() && (key.Left? || key.Right? || key.Up? || key.Down? || key.Home? || key.End?)
    modifies ed, ed.newBuf, ed.histBuf
    ensures ed.Valid() && ed.State() == SpecialMove(old(ed.State()), key)
  {
    match key {
      case Left => ed.MoveCursorLeft(1);
      case Right => ed.MoveCursorRight(1);
      case Up => ed.MoveUp();
      case Down => ed.MoveDown();
      case Home => ed.MoveCursorToStartOfLine();
      case End => ed.MoveCursorToEndOfLine();
    }
  }

  /** `handle_key` with the Emacs keymap, as its two routes. */
  lemma OnKeyRoutes(s: EditorState, idx: Option<nat>, key: Key, handler: Text -> seq<Text>, r: Route)
    requires Valid(s) && InRange(s, idx)
    requires r == RouteKey(key, CurText(s) == [], s.autosuggestion.Some?, AtEndOfLine(s))
    ensures r.ToKeymap? ==>
      OnKey(s, idx, key, handler) == (Core(s, idx, r.key).0.(hint := None), Core(s, idx, r.key).1, Done(false))
    ensures !r.ToKeymap? ==> OnKey(s, idx, key, handler) == (Handled(s, r, handler).0, idx, Handled(s, r, handler).1)
  {
  }

  // ---------------------------------------------------------------------
  // The keymap

  class Emacs {
    var lastArgFetchIndex: Option<nat>

    /** `Emacs::new`: no fetch yet. */
    constructor ()
      ensures lastArgFetchIndex.None?
    {
      lastArgFetchIndex := None;
    }

    /** The fetch index names an entry of the editor's history. */
    predicate Fits(ed: Editors.Editor)
      reads this, ed, ed.newBuf, ed.histBuf, ed.history
    {
      InRange(ed.State(), lastArgFetchIndex)
    }

    /** `init`: a new line starts without a fetch. */
    method Init()
      modifies this
      ensures lastArgFetchIndex.None?
    {
      lastArgFetchIndex := None;
    }

    /** `handle_key`. */
    method HandleKey(key: Key, ed: Editors.Editor, handler: Text -> seq<Text>) returns (out: Outcome)
      requires ed.Valid() && Fits(ed)
      modifies this, ed, ed.newBuf, ed.histBuf
      ensures ed.Valid() && Fits(ed)
      ensures (ed.State(), lastArgFetchIndex, out) == OnKey(old(ed.State()), old(lastArgFetchIndex), key, handler)
    {
      var r := RouteOn(ed, key);
      if r.ToKeymap? {
        KeymapRoute(key, ed, handler, r);
        out := Done(false);
      } else {
        out := SharedRoute(key, ed, handler, r);
      }
    }

    /** `handle_key` on a key the keymap handles. */
    method KeymapRoute(key: Key, ed: Editors.Editor, handler: Text -> seq<Text>, r: Route)
      requires ed.Valid() && Fits(ed)
      requires r == RouteKey(key, CurText(ed.State()) == [], ed.State().autosuggestion.Some?, AtEndOfLine(ed.State()))
      requires r.ToKeymap?
      modifies this, ed, ed.newBuf, ed.histBuf
      ensures ed.Valid() && Fits(ed)
      ensures (ed.State(), lastArgFetchIndex, Done(false)) == OnKey(old(ed.State()), old(lastArgFetchIndex), key, handler)
    {
      OnKeyRoutes(ed.State(), lastArgFetchIndex, key, handler, r);
      ToKeymapOn(r.key, ed);
    }

    /** `handle_key` on a key the shared dispatch handles. */
    method SharedRoute(key: Key, ed: Editors.Editor, handler: Text -> seq<Text>, r: Route) returns (out: Outcome)
      requires ed.Valid() && Fits(ed)
      requires r == RouteKey(key, CurText(ed.State()) == [], ed.State().autosuggestion.Some?, AtEndOfLine(ed.State()))
      requires !r.ToKeymap?
      modifies ed, ed.newBuf, ed.histBuf
      ensures ed.Valid() && Fits(ed)
      ensures (ed.State(), lastArgFetchIndex, out) == OnKey(old(ed.State()), lastArgFetchIndex, key, handler)
    {
      OnKeyRoutes(ed.State(), lastArgFetchIndex, key, handler, r);
      out := Perform(ed, r, handler);
    }

    /** A key the keymap handles: `handle_key_core`, then the completion hint is dismissed. */
    method ToKeymapOn(key: Key, ed: Editors.Editor)
      requires ed.Valid() && Fits(ed)
      modifies this, ed, ed.newBuf, ed.histBuf
      ensures ed.Valid() && Fits(ed)
      ensures ed.State() == Core(old(ed.State()), old(lastArgFetchIndex), key).0.(hint := None)
      ensures lastArgFetchIndex == Core(old(ed.State()), old(lastArgFetchIndex), key).1
    {
      HandleKeyCore(key, ed);
      ed.SkipCompletionsHint();
    }

    /** `handle_key_core`. */
    method HandleKeyCore(key: Key, ed: Editors.Editor)
      requires ed.Valid() && Fits(ed)
      modifies this, ed, ed.newBuf, ed.histBuf
      ensures ed.Valid() && Fits(ed)
      ensures (ed.State(), lastArgFetchIndex) == Core(old(ed.State()), old(lastArgFetchIndex), key)
    {
      if key.Alt? {
        if key.c != '.' {
          lastArgFetchIndex := None;
        }
        HandleAltKey(key.c, ed);
      } else {
        lastArgFetchIndex := None;
        PlainOn(key, ed);
      }
    }

    /** The keys without Alt. */
    method PlainOn(key: Key, ed: Editors.Editor)
      requires ed.Valid() && !key.Alt?
      modifies ed, ed.newBuf, ed.histBuf
      ensures ed.Valid() && ed.State() == Plain(old(ed.State()), key)
    {
      if key.Char? {
        ed.InsertCharsAfterCursor([key.c]);
      } else if key.Ctrl? {
        HandleCtrlKey(key.c, ed);
      } else {
        HandleSpecialKey(key, ed);
      }
    }

    /** `handle_ctrl_key`. */
    method HandleCtrlKey(c: char, ed: Editors.Editor)
      requires ed.Valid()
      modifies ed, ed.newBuf, ed.histBuf
      ensures ed.Valid() && ed.State() == CtrlKey(old(ed.State()), c)
    {
      if IsCtrlMove(c) {
        CtrlMoveOn(c, ed);
      } else if IsCtrlEdit(c) {
        CtrlEditOn(c, ed);
      }
    }

    /** `handle_alt_key`. */
    method HandleAltKey(c: char, ed: Editors.Editor)
      requires ed.Valid() && Fits(ed)
      modifies this, ed, ed.newBuf, ed.histBuf
      ensures ed.Valid() && Fits(ed)
      ensures (ed.State(), lastArgFetchIndex) == AltKey(old(ed.State()), old(lastArgFetchIndex), c)
    {
      if c == '.' {
        HandleLastArgFetch(ed);
      } else {
        AltEditOn(c, ed);
      }
    }

    /** `handle_last_arg_fetch`. */
    method HandleLastArgFetch(ed: Editors.Editor)
      requires ed.Valid() && Fits(ed)
      modifies this, ed, ed.newBuf, ed.histBuf
      ensures ed.Valid() && Fits(ed)
      ensures (ed.State(), lastArgFetchIndex) == LastArgFetch(old(ed.State()), old(lastArgFetchIndex))
    {
      if |ed.history.buffers| == 0 || lastArgFetchIndex == Some(0) {
        return;
      }
      var historyIndex: nat;
      if lastArgFetchIndex.Some? {
        historyIndex := lastArgFetchIndex.value - 1;
      } else if ed.curHistoryLoc.Some? {
        historyIndex := ed.curHistoryLoc.value;
      } else {
        historyIndex := |ed.history.buffers| - 1;
      }
      assert historyIndex == FetchEntry(ed.State(), lastArgFetchIndex);
      var entry := ed.history.At(historyIndex);
      if lastArgFetchIndex.Some? {
        DropLastArgOn(ed);
      }
      InsertLastArgOn(ed, entry);
      lastArgFetchIndex := Some(historyIndex);
    }

    /** The keys without a modifier other than characters. */
    method HandleSpecialKey(key: Key, ed: Editors.Editor)
      requires ed.Valid() && !(key.Char? || key.Ctrl? || key.Alt?)
      modifies ed, ed.newBuf, ed.histBuf
      ensures ed.Valid() && ed.State() == SpecialKey(old(ed.State()), key)
    {
      if key.Backspace? {
        ed.DeleteBeforeCursor();
      } else if key.Delete? {
        ed.DeleteAfterCursor();
      } else if !(key.Esc? || key.Null? || key.Unbound?) {
        SpecialMoveOn(key, ed);
      }
    }
  }
}
