/**
 * The keys the keymaps read, and the handling every keymap shares
 * (`KeyMap::handle_key`): Ctrl-h is read as Backspace; Ctrl-c, and
 * Ctrl-d on an empty line, end the line with an error; Tab completes;
 * Enter hands the line to `handle_newline`; Ctrl-r and Ctrl-s search;
 * Ctrl-f, and Right at the end of the line, accept a shown
 * autosuggestion.  Every other key goes to the keymap's own handler,
 * after which the completion hint is dismissed.
 */
module Keymaps {
  import opened Common
  import opened EditorModel
  import Editors

  /**
   * A key press: a character, possibly with Ctrl or Alt, or one of the
   * special keys the keymaps bind.  `Unbound` stands for every other key
   * (function keys, paging keys, keys with other modifiers), which no
   * keymap acts on.
   */
  datatype Key =
    | Char(c: char)
    | Ctrl(c: char)
    | Alt(c: char)
    | Left | Right | Up | Down | Home | End
    | Backspace | Delete | Esc | Null | Unbound

  /** The two errors `handle_key` ends a line with. */
  datatype KeyError = Interrupted | UnexpectedEof

  /** What `handle_key` returns: whether the line is done, or the error. */
  datatype Outcome = Done(done: bool) | Failed(error: KeyError)

  /** Where `handle_key` sends a key. */
  datatype Route =
    | Interrupt
    | Eof
    | Complete
    | Newline
    | Accept
    | SearchBack
    | SearchForward
    | ToKeymap(key: Key)

  /**
   * The dispatch of `handle_key`, given whether the text is empty,
   * whether an autosuggestion is shown and whether the cursor is at the
   * end of the line.  Ctrl-h reaches the keymap as Backspace.
   */
  function RouteKey(key: Key, isEmpty: bool, showing: bool, atEnd: bool): (r: Route)
    ensures r == Interrupt <==> key == Ctrl('c')
    ensures r == Eof <==> key == Ctrl('d') && isEmpty
    ensures r == Complete <==> key == Char('\t')
    ensures r == Newline <==> key == Char('\n')
    ensures r == Accept <==> showing && (key == Ctrl('f') || (key == Right && atEnd))
    ensures r == SearchBack <==> key == Ctrl('r')
    ensures r == SearchForward <==> key == Ctrl('s')
    ensures key == Ctrl('h') ==> r == ToKeymap(Backspace)
    ensures key == Ctrl('d') && !isEmpty ==> r == ToKeymap(key)
    ensures r.ToKeymap? ==> r.key == key || (key == Ctrl('h') && r.key == Backspace)
  {
    var k := if key == Ctrl('h') then Backspace else key;
    if k == Ctrl('c') then Interrupt
    else if k == Ctrl('d') && isEmpty then Eof
    else if k == Char('\t') then Complete
    else if k == Char('\n') then Newline
    else if k == Ctrl('f') && showing then Accept
    else if k == Ctrl('r') then SearchBack
    else if k == Ctrl('s') then SearchForward
    else if k == Right && showing && atEnd then Accept
    else ToKeymap(k)
  }

  /**
   * `handle_key` on a key it handles itself: the editor after it and the
   * result.  Ctrl-c and Ctrl-d end the line as Enter does, and then fail;
   * the line is done only on Enter, when `handle_newline` says so.
   */
  function Handled(s: EditorState, r: Route, handler: Text -> seq<Text>): (p: (EditorState, Outcome))
    requires Valid(s) && !r.ToKeymap?
    ensures Valid(p.0) && Keeps(s, p.0)
    ensures p.1 == Failed(Interrupted) <==> r == Interrupt
    ensures p.1 == Failed(UnexpectedEof) <==> r == Eof
    ensures p.1 == Done(true) <==> r == Newline && HandleNewline(s).1
    ensures r.Interrupt? || r.Eof? || r.Newline? ==> !IsSearch(p.0) && p.0.hint.None?
    ensures r.Accept? && s.autosuggestion.Some? ==> CurText(p.0) == s.autosuggestion.value && !IsSearch(p.0)
    ensures r.SearchBack? || r.SearchForward? ==> IsSearch(p.0) && CurText(p.0) == NewText(s)
  {
    if r.Interrupt? || r.Eof? || r.Newline? then Ended(s, r)
    else (EditedBy(s, r, handler), Done(false))
  }

  /** Ctrl-c, Ctrl-d and Enter: `handle_newline`, then the error or whether the line is done. */
  function Ended(s: EditorState, r: Route): (p: (EditorState, Outcome))
    requires Valid(s) && (r.Interrupt? || r.Eof? || r.Newline?)
    ensures Valid(p.0) && Keeps(s, p.0) && !IsSearch(p.0) && p.0.hint.None?
    ensures r.Interrupt? ==> p.1 == Failed(Interrupted)
    ensures r.Eof? ==> p.1 == Failed(UnexpectedEof)
    ensures r.Newline? ==> p.1 == Done(HandleNewline(s).1)
  {
    var (t, done) := HandleNewline(s);
    (t, if r.Interrupt? then Failed(Interrupted) else if r.Eof? then Failed(UnexpectedEof) else Done(done))
  }

  /** Tab, the search keys and the accepting keys: the editor after them. */
  function EditedBy(s: EditorState, r: Route, handler: Text -> seq<Text>): (t: EditorState)
    requires Valid(s) && (r.Complete? || r.Accept? || r.SearchBack? || r.SearchForward?)
    ensures Valid(t) && Keeps(s, t)
    ensures r.Accept? && s.autosuggestion.Some? ==> CurText(t) == s.autosuggestion.value && !IsSearch(t)
    ensures r.SearchBack? || r.SearchForward? ==> IsSearch(t) && CurText(t) == NewText(s)
  {
    match r
    case Complete => EditorModel.Complete(s, handler)
    case Accept => AcceptAutosuggestion(s)
    case SearchBack => Search(s, false)
    case SearchForward => Search(s, true)
  }

  /**
   * A shown autosuggestion implies a non-empty text, so the test for the
   * end of the line that guards Right cannot underflow there.
   */
  lemma ShowingHasText(s: EditorState)
    requires Valid(s) && s.autosuggestion.Some?
    ensures CurText(s) != [] && AtEndOfLineAsWritten(s) == Some(AtEndOfLine(s))
  {
    assert !s.histBufValid && NewText(s) != [];
  }

  /** `handle_key` on a key it handles itself. */
  method Perform(ed: Editors.Editor, r: Route, handler: Text -> seq<Text>) returns (out: Outcome)
    requires ed.Valid() && !r.ToKeymap?
    modifies ed, ed.newBuf, ed.histBuf
    ensures ed.Valid() && (ed.State(), out) == Handled(old(ed.State()), r, handler)
  {
    if r.Interrupt? || r.Eof? || r.Newline? {
      var done := ed.HandleNewline();
      out := if r.Interrupt? then Failed(Interrupted) else if r.Eof? then Failed(UnexpectedEof) else Done(done);
    } else {
      PerformEdit(ed, r, handler);
      out := Done(false);
    }
  }

  /** Tab, the search keys and the accepting keys. */
  method PerformEdit(ed: Editors.Editor, r: Route, handler: Text -> seq<Text>)
    requires ed.Valid() && (r.Complete? || r.Accept? || r.SearchBack? || r.SearchForward?)
    modifies ed, ed.newBuf, ed.histBuf
    ensures ed.Valid() && ed.State() == EditedBy(old(ed.State()), r, handler)
  {
    match r {
      case Complete => ed.Complete(handler);
      case Accept => ed.AcceptAutosuggestion();
      case SearchBack => ed.Search(false);
      case SearchForward => ed.Search(true);
    }
  }

  /** The route `handle_key` takes on the editor as it is. */
  method RouteOn(ed: Editors.Editor, key: Key) returns (r: Route)
    requires ed.Valid()
    ensures r == RouteKey(key, CurText(ed.State()) == [], ed.State().autosuggestion.Some?, AtEndOfLine(ed.State()))
  {
    var showing := ed.autosuggestion.Some?;
    var atEnd := false;
    if showing {
      ShowingHasText(ed.State());
      atEnd := ed.CursorIsAtEndOfLine();
    }
    r := RouteKey(key, |ed.Line()| == 0, showing, atEnd);
  }
}
