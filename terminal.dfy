/**
 * The layout arithmetic behind redrawing the line: how many terminal
 * cells the prompt and the buffer lines take when the terminal wraps at
 * `width` columns, which row the cursor is on, and how far the terminal
 * cursor has to move up and sideways after the text is written.  The
 * terminal width is a parameter; the escape sequences written are not
 * modelled, only the counts they encode.
 */
module Terminals {
  import opened Common
  import Buffers
  import Util
  import Prompts

  // Arithmetic on row lengths.

  lemma MulCancel(a: nat, b: nat, w: nat)
    requires a * w < b * w
    ensures a < b
  {
  }

  /** The quotient is the one multiple of `w` that brackets `x`. */
  lemma DivUnique(x: nat, w: nat, q: nat)
    requires w > 0 && q * w <= x < q * w + w
    ensures x / w == q
  {
    var d := x / w;
    assert d * w + x % w == x;
    assert (q + 1) * w == q * w + w;
    assert (d + 1) * w == d * w + w;
    MulCancel(d, q + 1, w);
    MulCancel(q, d + 1, w);
  }

  lemma MultipleMod(k: nat, w: nat)
    requires w > 0
    ensures (k * w) / w == k && (k * w) % w == 0
  {
    DivUnique(k * w, w, k);
    assert (k * w) / w * w + (k * w) % w == k * w;
  }

  lemma DivMonotone(x: nat, y: nat, d: nat)
    requires d > 0 && x <= y
    ensures x / d <= y / d
  {
    assert x / d * d <= x;
    assert y < y / d * d + d == (y / d + 1) * d;
    MulCancel(x / d, y / d + 1, d);
  }

  lemma MulMonotone(a: nat, b: nat, w: nat)
    requires a <= b
    ensures a * w <= b * w
  {
  }

  lemma DivPlusOne(x: nat, w: nat)
    requires w > 0
    ensures (x + w) / w == x / w + 1
  {
    assert x / w * w + x % w == x;
    assert (x / w + 1) * w == x / w * w + w;
    DivUnique(x + w, w, x / w + 1);
  }

  /** The smallest multiple of `width` that is at least `total`. */
  function RoundUp(total: nat, width: nat): (r: nat)
    requires width > 0
    ensures r % width == 0 && total <= r < total + width
    ensures total % width == 0 ==> r == total
  {
    if total % width != 0 then
      var q := total / width;
      assert q * width + total % width == total;
      assert (q + 1) * width == q * width + width;
      MultipleMod(q + 1, width);
      (q + 1) * width
    else total
  }

  lemma RoundUpMonotone(x: nat, y: nat, width: nat)
    requires width > 0 && x <= y
    ensures RoundUp(x, width) <= RoundUp(y, width)
  {
    var rx := RoundUp(x, width);
    var ry := RoundUp(y, width);
    var kx := rx / width;
    var ky := ry / width;
    DivMod(rx, width);
    DivMod(ry, width);
    MulSub(ky + 1, 1, width);
    MulCancel(kx, ky + 1, width);
    MulMonotone(kx, ky, width);
  }

  /**
   * The cells taken by the lines with the given widths, each line preceded
   * by the prompt's width, every line after the first starting on a fresh
   * row.
   */
  function TotalWidth(promptWidth: nat, widths: seq<nat>, width: nat): nat
    requires width > 0
    decreases |widths|
  {
    if widths == [] then 0
    else RoundUp(TotalWidth(promptWidth, widths[..|widths| - 1], width), width) + promptWidth + widths[|widths| - 1]
  }

  /** `Metrics::calc_width` (and `Term::calc_width`, the same loop). */
  method CalcWidth(promptWidth: nat, bufWidths: seq<nat>, terminalWidth: nat) returns (total: nat)
    requires terminalWidth > 0
    ensures total == TotalWidth(promptWidth, bufWidths, terminalWidth)
  {
    total := 0;
    for i := 0 to |bufWidths|
      invariant total == TotalWidth(promptWidth, bufWidths[..i], terminalWidth)
    {
      TotalWidthSnoc(promptWidth, bufWidths, i, terminalWidth);
      var rounded := total;
      if total % terminalWidth != 0 {
        rounded := ((total / terminalWidth) + 1) * terminalWidth;
      }
      assert rounded == RoundUp(total, terminalWidth);
      total := rounded + promptWidth + bufWidths[i];
    }
    assert bufWidths[..|bufWidths|] == bufWidths;
  }

  /** One more line starts on the next row boundary and adds the prompt and its width. */
  lemma TotalWidthSnoc(promptWidth: nat, widths: seq<nat>, i: nat, width: nat)
    requires width > 0 && i < |widths|
    ensures TotalWidth(promptWidth, widths[..i + 1], width) ==
      RoundUp(TotalWidth(promptWidth, widths[..i], width), width) + promptWidth + widths[i]
  {
    assert widths[..i + 1][..i] == widths[..i];
  }

  /**
   * No lines take no cells, one line takes the prompt plus its width, and
   * each further line begins at a row boundary.
   */
  lemma TotalWidthShape(promptWidth: nat, widths: seq<nat>, width: nat)
    requires width > 0
    ensures widths == [] ==> TotalWidth(promptWidth, widths, width) == 0
    ensures |widths| == 1 ==> TotalWidth(promptWidth, widths, width) == promptWidth + widths[0]
    ensures |widths| > 1 ==>
      var before := TotalWidth(promptWidth, widths[..|widths| - 1], width);
      var start := TotalWidth(promptWidth, widths, width) - promptWidth - widths[|widths| - 1];
      start % width == 0 && before <= start < before + width
  {
    if |widths| == 1 {
      assert widths[..0] == [];
    }
  }

  /** `a` is no wider than `b` line by line and has no more lines. */
  predicate Dominated(a: seq<nat>, b: seq<nat>)
  {
    |a| <= |b| && forall i | 0 <= i < |a| :: a[i] <= b[i]
  }

  /** Fewer, narrower lines never take more cells. */
  lemma {:induction false} TotalWidthMonotone(promptWidth: nat, a: seq<nat>, b: seq<nat>, width: nat)
    requires width > 0 && Dominated(a, b)
    ensures TotalWidth(promptWidth, a, width) <= TotalWidth(promptWidth, b, width)
    decreases |b|
  {
    if |b| > 0 {
      var b' := b[..|b| - 1];
      if |a| == |b| {
        var a' := a[..|a| - 1];
        TotalWidthMonotone(promptWidth, a', b', width);
        RoundUpMonotone(TotalWidth(promptWidth, a', width), TotalWidth(promptWidth, b', width), width);
      } else {
        TotalWidthMonotone(promptWidth, a, b', width);
      }
    }
  }

  /** The width of each '\n'-separated line of `s`. */
  function LineWidths(s: Text): (r: seq<nat>)
    ensures |r| == |Buffers.Lines(s)|
    ensures forall i | 0 <= i < |r| :: r[i] == |Buffers.Lines(s)[i]|
  {
    var lines := Buffers.Lines(s);
    seq(|lines|, i requires 0 <= i < |lines| => |lines[i]|)
  }

  /** The lines of a prefix of a text are no more and no wider than those of the text. */
  lemma {:induction false} PrefixLinesDominated(s: Text, c: nat)
    requires c <= |s|
    ensures Dominated(LineWidths(s[..c]), LineWidths(s))
    decreases |s|
  {
    if c > 0 {
      var p := s[..c];
      assert p[1..] == s[1..][..c - 1];
      PrefixLinesDominated(s[1..], c - 1);
      LineWidthsStep(p);
      LineWidthsStep(s);
      StepDominated(s[0] == '\n', LineWidths(p[1..]), LineWidths(s[1..]));
    } else {
      assert LineWidths(s[..0]) == [0];
    }
  }

  /** The line widths of a text, from those of its tail and whether it starts with a line break. */
  function WidthsStep(newline: bool, rest: seq<nat>): seq<nat>
    requires rest != []
  {
    if newline then [0] + rest else [rest[0] + 1] + rest[1..]
  }

  /** A line break in front adds an empty line; any other unit widens the first line by one. */
  lemma LineWidthsStep(s: Text)
    requires s != []
    ensures LineWidths(s) == WidthsStep(s[0] == '\n', LineWidths(s[1..]))
  {
    var rest := Buffers.Lines(s[1..]);
    if s[0] == '\n' {
      assert Buffers.Lines(s) == [[]] + rest;
    } else {
      assert Buffers.Lines(s) == [[s[0]] + rest[0]] + rest[1..];
    }
  }

  /** Taking the same step from dominated widths keeps them dominated. */
  lemma StepDominated(newline: bool, a: seq<nat>, b: seq<nat>)
    requires a != [] && Dominated(a, b)
    ensures Dominated(WidthsStep(newline, a), WidthsStep(newline, b))
  {
  }

  /** What a redraw measures: widths of everything and of everything up to the cursor. */
  datatype Metrics = Metrics(width: nat, promptWidth: nat, newTotalWidth: nat, newTotalWidthToCursor: nat, newNumLines: nat)

  /** Rows are 1-based: the row holding cell `cells` (the cell just after them). */
  function Row(cells: nat, width: nat): (r: nat)
    requires width > 0
    ensures r >= 1
  {
    (cells + width) / width
  }

  /** The measurements a redraw can use: the cursor lies within the text drawn. */
  predicate Valid(m: Metrics)
  {
    m.width > 0 && m.newTotalWidthToCursor <= m.newTotalWidth && m.newNumLines == Row(m.newTotalWidth, m.width)
  }

  /**
   * `Metrics::new` with the terminal width passed in: the whole buffer (or
   * the autosuggestion that extends it) and the part before the cursor.
   */
  method NewMetrics(prompt: Text, buf: Text, cursor: nat, autosuggestion: Option<Text>, width: nat) returns (m: Metrics)
    requires width > 0 && cursor <= |buf|
    ensures m.width == width && m.promptWidth == Util.LastPromptLineWidth(prompt)
    ensures m.newTotalWidth == TotalWidth(m.promptWidth, LineWidths(Shown(buf, autosuggestion)), width)
    ensures m.newTotalWidthToCursor == TotalWidth(m.promptWidth, LineWidths(ShownToCursor(buf, cursor, autosuggestion)), width)
    ensures m.newNumLines == Row(m.newTotalWidth, width)
    ensures autosuggestion.None? || Occurs(buf, autosuggestion.value) ==> Valid(m)
  {
    var promptWidth := Util.LastPromptLineWidth(prompt);
    var total := CalcWidth(promptWidth, LineWidths(Shown(buf, autosuggestion)), width);
    var totalToCursor := CalcWidth(promptWidth, LineWidths(ShownToCursor(buf, cursor, autosuggestion)), width);
    m := Metrics(width, promptWidth, total, totalToCursor, Row(total, width));
    if autosuggestion.None? || Occurs(buf, autosuggestion.value) {
      CursorWithinShown(promptWidth, buf, cursor, autosuggestion, width);
    }
  }

  /** The text drawn: the autosuggestion when there is one (it extends the buffer). */
  function Shown(buf: Text, autosuggestion: Option<Text>): Text
  {
    if autosuggestion.Some? then autosuggestion.value else buf
  }

  /** The text drawn before the cursor; a cursor past the autosuggestion measures the buffer. */
  function ShownToCursor(buf: Text, cursor: nat, autosuggestion: Option<Text>): Text
    requires cursor <= |buf|
  {
    if autosuggestion.Some? && cursor < |autosuggestion.value| then autosuggestion.value[..cursor] else buf[..cursor]
  }

  /** When the buffer occurs in the autosuggestion, the text before the cursor never takes more cells than the whole. */
  lemma CursorWithinShown(promptWidth: nat, buf: Text, cursor: nat, autosuggestion: Option<Text>, width: nat)
    requires width > 0 && cursor <= |buf|
    requires autosuggestion.None? || Occurs(buf, autosuggestion.value)
    ensures TotalWidth(promptWidth, LineWidths(ShownToCursor(buf, cursor, autosuggestion)), width) <=
            TotalWidth(promptWidth, LineWidths(Shown(buf, autosuggestion)), width)
  {
    var shown := Shown(buf, autosuggestion);
    ShownPrefix(buf, cursor, autosuggestion);
    PrefixLinesDominated(shown, cursor);
    TotalWidthMonotone(promptWidth, LineWidths(shown[..cursor]), LineWidths(shown), width);
  }

  /** The text drawn before the cursor is a prefix of all the drawn text when the autosuggestion contains the text. */
  lemma ShownPrefix(buf: Text, cursor: nat, sugg: Option<Text>)
    requires cursor <= |buf|
    requires sugg.None? || Occurs(buf, sugg.value)
    ensures cursor <= |Shown(buf, sugg)|
    ensures ShownToCursor(buf, cursor, sugg) == Shown(buf, sugg)[..cursor]
  {
    if sugg.Some? && cursor >= |sugg.value| {
      OccursAsLong(buf, sugg.value);
    }
  }

  /** A text found in another at least as long as it is that other text. */
  lemma OccursAsLong(t: Text, s: Text)
    requires Occurs(t, s) && |t| >= |s|
    ensures t == s
  {
    var i :| 0 <= i <= |s| - |t| && OccursAt(t, s, i);
    assert s[0..|t|] == s;
  }

  /** `max_x_dimensions`: the text fills its last row exactly. */
  function MaxXDimensions(m: Metrics): (r: bool)
    requires m.width > 0
  {
    m.newTotalWidth % m.width == 0
  }

  /** A full last row pushes the terminal cursor onto a new row: the rows used are one more than the filled ones. */
  lemma NumLinesCountsRows(m: Metrics)
    requires Valid(m)
    ensures m.newNumLines >= 1
    ensures MaxXDimensions(m) ==> m.newNumLines * m.width == m.newTotalWidth + m.width
    ensures !MaxXDimensions(m) ==> (m.newNumLines - 1) * m.width < m.newTotalWidth < m.newNumLines * m.width
  {
    var t := m.newTotalWidth;
    var w := m.width;
    DivPlusOne(t, w);
    assert t / w * w + t % w == t;
    assert m.newNumLines * w == t / w * w + w;
    assert (m.newNumLines - 1) * w == t / w * w;
  }

  /** How `display` moves the terminal cursor from the end of the text to the cursor. */
  datatype CursorMove = CursorMove(up: nat, left: int)

  /**
   * The measurements `display` can place the cursor for: the cursor's row
   * is not below the last row, so the row difference is never negative
   * (the case `display` marks unreachable).
   */
  predicate Placeable(m: Metrics)
  {
    m.width > 0 && m.newNumLines == Row(m.newTotalWidth, m.width) && Row(m.newTotalWidthToCursor, m.width) <= m.newNumLines
  }

  /** Valid measurements are placeable; the converse fails only when the cursor's extra cells stay on the last row. */
  lemma ValidPlaceable(m: Metrics)
    requires Valid(m)
    ensures Placeable(m)
    ensures MoveToCursor(m).up == m.newNumLines - Row(m.newTotalWidthToCursor, m.width)
  {
    RowMonotone(m.newTotalWidthToCursor, m.newTotalWidth, m.width);
  }

  /** The row difference and column correction `display` computes. */
  function MoveToCursor(m: Metrics): (r: CursorMove)
    requires Placeable(m)
  {
    var line := Row(m.newTotalWidthToCursor, m.width);
    var up := m.newNumLines - line;
    CursorMove(up, m.newTotalWidth - m.newTotalWidthToCursor - up * m.width)
  }

  /**
   * Moving up the row difference and left the column correction lands on
   * the cursor's cell: the correction is the difference of the two
   * columns, so it is always less than a row.
   */
  lemma MoveLandsOnCursor(m: Metrics)
    requires Placeable(m)
    ensures var mv := MoveToCursor(m);
      mv.up == m.newTotalWidth / m.width - m.newTotalWidthToCursor / m.width &&
      mv.left == m.newTotalWidth % m.width - m.newTotalWidthToCursor % m.width &&
      -(m.width as int) < mv.left < m.width
  {
    var w := m.width;
    var t := m.newTotalWidth;
    var c := m.newTotalWidthToCursor;
    DivPlusOne(t, w);
    DivPlusOne(c, w);
    DivMod(t, w);
    DivMod(c, w);
    MulSub(t / w, c / w, w);
  }

  lemma DivMod(x: nat, w: nat)
    requires w > 0
    ensures x == x / w * w + x % w && 0 <= x % w < w
  {
  }

  lemma MulSub(a: int, b: int, w: int)
    ensures (a - b) * w == a * w - b * w
  {
  }

  /** A `colorize` cache: the last line coloured and its coloured form. */
  datatype ColorCache = NoCache | Cached(line: Text, colored: Text)

  class Terminal {
    /** The row of the cursor, counted from the prompt's row as 1. */
    var termCursorLine: nat
    var colorLines: ColorCache
    var hasClosure: bool
    var useClosure: bool

    /** `Terminal::new`. */
    constructor (hasClosure: bool)
      ensures termCursorLine == 1 && colorLines == NoCache && this.hasClosure == hasClosure && useClosure
    {
      termCursorLine := 1;
      colorLines := NoCache;
      this.hasClosure := hasClosure;
      useClosure := true;
    }

    /** `use_closure`. */
    method UseClosure(on: bool)
      modifies this`useClosure
      ensures useClosure == on
    {
      useClosure := on;
    }

    /** Every cached line is coloured as the closure colours it. */
    predicate CacheAgrees(paint: Text -> Text)
      reads this
    {
      colorLines.Cached? ==> colorLines.colored == paint(colorLines.line)
    }

    /**
     * `colorize`, with the closure as `paint`: an enabled closure colours
     * the line and caches it; a disabled one reuses the cached colouring
     * when the line extends the cached line, and otherwise leaves the line
     * plain.
     */
    method Colorize(line: Text, paint: Text -> Text) returns (r: Text)
      modifies this`colorLines
      ensures hasClosure && useClosure ==> r == paint(line) && colorLines == Cached(line, paint(line))
      ensures !(hasClosure && useClosure) ==> colorLines == old(colorLines)
      ensures hasClosure && !useClosure && colorLines.Cached? && colorLines.line <= line ==>
        r == colorLines.colored + line[|colorLines.line|..]
      ensures !(hasClosure && !useClosure && colorLines.Cached? && colorLines.line <= line) && !(hasClosure && useClosure) ==>
        r == line
      ensures old(CacheAgrees(paint)) ==> CacheAgrees(paint)
    {
      if hasClosure && useClosure {
        r := paint(line);
        colorLines := Cached(line, r);
      } else if hasClosure && colorLines.Cached? && colorLines.line <= line {
        r := colorLines.colored + line[|colorLines.line|..];
      } else {
        r := line;
      }
    }

    /** `clear`: the cursor is back on the prompt's row. */
    method Clear()
      modifies this`termCursorLine
      ensures termCursorLine == 1
    {
      termCursorLine := 1;
    }

    /**
     * `display`'s cursor placement: the terminal cursor goes from the end
     * of the text to the cursor's row and column, then the completion
     * list's rows are counted in.
     */
    method Display(m: Metrics, completionLines: nat) returns (mv: CursorMove)
      requires Placeable(m)
      modifies this`termCursorLine
      ensures mv == MoveToCursor(m)
      ensures termCursorLine == Row(m.newTotalWidthToCursor, m.width) + completionLines
    {
      termCursorLine := (m.newTotalWidthToCursor + m.width) / m.width;
      var lineDiff: int := m.newNumLines - termCursorLine;
      if lineDiff < 0 {
        assert false;
      }
      var colDiff := m.newTotalWidth - m.newTotalWidthToCursor - lineDiff * m.width;
      mv := CursorMove(lineDiff, colDiff);
      termCursorLine := termCursorLine + completionLines;
    }
  }

  lemma RowMonotone(x: nat, y: nat, width: nat)
    requires width > 0 && x <= y
    ensures Row(x, width) <= Row(y, width)
  {
    DivMonotone(x + width, y + width, width);
  }

  /** `make_prompt`: only the text after the prompt's last '\n' stays as the prompt. */
  function MakePrompt(p: Prompts.Prompt): (r: Prompts.Prompt)
    ensures r.prefix == p.prefix && r.suffix == p.suffix
    ensures '\n' !in r.prompt
    ensures |r.prompt| <= |p.prompt| && r.prompt == p.prompt[|p.prompt| - |r.prompt|..]
    ensures '\n' !in p.prompt ==> r.prompt == p.prompt
    ensures '\n' in p.prompt ==> |r.prompt| < |p.prompt| && p.prompt[|p.prompt| - |r.prompt| - 1] == '\n'
  {
    Util.HandlePromptSpec(p.prompt);
    Prompts.Prompt(p.prefix, Util.HandlePrompt(p.prompt), p.suffix)
  }
}
