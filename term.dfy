/**
 * The newer terminal writer: the same layout arithmetic as `Terminals`,
 * measured after the cursor has been adjusted for display, with the
 * colouring cache and the cursor-row bookkeeping of its own.  The
 * terminal width is a parameter.
 */
module Terms {
  import opened Common
  import opened Buffers
  import Cursors
  import Util
  import opened Terminals

  class Term {
    /** The row of the cursor, counted from the prompt's row as 1. */
    var termCursorLine: nat
    var colorLines: ColorCache
    var hasClosure: bool
    var useClosure: bool

    /** `Term::new`. */
    constructor (hasClosure: bool)
      ensures termCursorLine == 1 && colorLines == NoCache && this.hasClosure == hasClosure && useClosure
    {
      termCursorLine := 1;
      colorLines := NoCache;
      this.hasClosure := hasClosure;
      useClosure := true;
    }

    /** `use_closure`. */
    method UseClosure(on: bool)
      modifies this`useClosure
      ensures useClosure == on
    {
      useClosure := on;
    }

    predicate CacheAgrees(paint: Text -> Text)
      reads this
    {
      colorLines.Cached? ==> colorLines.colored == paint(colorLines.line)
    }

    /** `colorize`: the same cache rule as the older writer's. */
    method Colorize(line: Text, paint: Text -> Text) returns (r: Text)
      modifies this`colorLines
      ensures hasClosure && useClosure ==> r == paint(line) && colorLines == Cached(line, paint(line))
      ensures !(hasClosure && useClosure) ==> colorLines == old(colorLines)
      ensures hasClosure && !useClosure && colorLines.Cached? && colorLines.line <= line ==>
        r == colorLines.colored + line[|colorLines.line|..]
      ensures !(hasClosure && !useClosure && colorLines.Cached? && colorLines.line <= line) && !(hasClosure && useClosure) ==>
        r == line
      ensures old(CacheAgrees(paint)) ==> CacheAgrees(paint)
    {
      if hasClosure && useClosure {
        r := paint(line);
        colorLines := Cached(line, r);
      } else if hasClosure && colorLines.Cached? && colorLines.line <= line {
        r := colorLines.colored + line[|colorLines.line|..];
      } else {
        r := line;
      }
    }

    /** `clear`. */
    method Clear()
      modifies this`termCursorLine
      ensures termCursorLine == 1
    {
      termCursorLine := 1;
    }

    /**
     * `display`'s measurements and cursor placement.  The cursor is a copy,
     * adjusted for display before anything is measured; the caller's
     * cursor is untouched.  No move comes back when the cursor's row lies
     * below the last row, where `display` reaches `unreachable!()`; that
     * never happens while the buffer occurs in the autosuggestion.
     */
    method Display(buf: Buffer, prompt: Text, cursor: Cursors.Cursor, autosuggestion: Option<Text>,
                   completionLines: nat, noEol: bool, width: nat) returns (m: Metrics, mv: Option<CursorMove>)
      requires width > 0
      modifies this`termCursorLine
      ensures var at := DisplayCursor(cursor.currGrapheme, |buf.data|, noEol);
        at <= |buf.data| &&
        m.width == width && m.promptWidth == Util.LastPromptLineWidth(prompt) &&
        m.newTotalWidth == TotalWidth(m.promptWidth, LineWidths(Shown(buf.data, autosuggestion)), width) &&
        m.newTotalWidthToCursor == TotalWidth(m.promptWidth, LineWidths(ShownToCursor(buf.data, at, autosuggestion)), width)
      ensures mv.Some? <==> Placeable(m)
      ensures mv.Some? ==> mv.value == MoveToCursor(m)
      ensures autosuggestion.None? || Occurs(buf.data, autosuggestion.value) ==> Valid(m) && mv.Some?
      ensures termCursorLine == Row(m.newTotalWidthToCursor, width) + completionLines
    {
      var at := AdjustedCopy(buf, cursor, noEol);
      m := NewMetrics(prompt, buf.data, at, autosuggestion, width);
      if Placeable(m) {
        mv := Some(MoveToCursor(m));
      } else {
        mv := None;
      }
      if autosuggestion.None? || Occurs(buf.data, autosuggestion.value) {
        ValidPlaceable(m);
      }
      termCursorLine := Row(m.newTotalWidthToCursor, m.width) + completionLines;
    }
  }

  /** `pre_display_adjustment` on a copy of the cursor, in the mode given. */
  method AdjustedCopy(buf: Buffer, cursor: Cursors.Cursor, noEol: bool) returns (at: nat)
    ensures at == DisplayCursor(cursor.currGrapheme, |buf.data|, noEol)
  {
    var copy := new Cursors.Cursor.NewWithDivider(cursor.rules);
    copy.currGrapheme := cursor.currGrapheme;
    copy.SetNoEol(noEol);
    copy.PreDisplayAdjustment(buf);
    at := copy.currGrapheme;
  }

  /** Where `pre_display_adjustment` leaves a cursor: clamped, and off the end in no-eol mode. */
  function DisplayCursor(cur: nat, len: nat, noEol: bool): (r: nat)
    ensures r <= len
    ensures noEol && len > 0 ==> r < len
    ensures cur < len ==> r == cur
  {
    if noEol && len > 0 && cur >= len then len - 1 else Min(cur, len)
  }
}
