# A verified model of the sl-liner line-editing core

sl-liner is a readline-style line editor for terminal programs. This project models its editing engine in Dafny and proves properties of the model:

- the grapheme text buffer with its undo/redo stacks, nested undo groups and yank register (`Buffers`);
- the grapheme cursor (`Cursors`) and the slice iterator over grapheme offsets (`GraphemeIters`);
- the in-memory history, with de-duplicating push, throwaway entries, size bounding, search contexts that collapse to `*`, and prefix and substring lookup (`Histories`);
- the editor, which owns a new-line buffer and a copy-on-write copy of a recalled entry. Its recall, incremental search, completion cycling, autosuggestion and newline handling are modelled twice: `EditorModel` and `EditorText` as functions on a state value, and `Editors.Editor` as a class whose methods update that state in place;
- the shared key pre-dispatch (`Keymaps`) and the two keymaps. The Emacs keymap is `EmacsKeymap`. The vi keymap, with its mode stack, saturating counts, word motions, character searches, replace, `~`, delete/change composition and `.` repeat, is split over `ViMotions`, `ViModel`, `ViProperties` and `ViKeymap`;
- the pure helpers: word splitting (`EditorRules`, `Context`), the longest common prefix and escape-code stripping (`Util`), the prefix completer (`Complete`), the prompt (`Prompts`), and the wrap and cursor-row arithmetic of the two renderers (`Terminals`, `Terms`).

Text is a sequence of grapheme units, `seq<char>` with one element per grapheme. Both buffer APIs of the source map onto that one sequence: the older character-indexed one used by `editor.rs` and `vi.rs`, and the newer grapheme-indexed one of `buffer.rs` and `cursor.rs`. Each stateful entity (`Buffer`, `Cursor`, `History`, `Editor`, `Terminal`, `Term`, `Emacs`, `Vi`) is a class. Each of its methods is proved to move its state exactly as a specification function says. The properties are proved about those functions. Examples: undo after insert restores the text, and redo replays it (with the insert's length counted in units, the corrected reading of src/buffer.rs:41 listed under Findings); walking up and then down the history returns to the same place; a `w` motion lands on a word start; `dw` deletes up to the next word; the vi mode stack never holds normal mode.

## Model

| member | source | states |
|---|---|---|
| Util.FindLongestCommonPrefix | src/util.rs:9-43 | no candidates, or an empty candidate among several, gives None; a single candidate is returned as it is; otherwise the result is a non-empty prefix of every candidate that no common prefix is longer than, and None means no non-empty common prefix exists |
| Util.PrefixOfAll | src/util.rs:27-33 | true exactly when every candidate starts with the prefix |
| Util.NoLongerCommonPrefix | src/util.rs:24-40 | when the shortest candidate cut to `end` is not common to all, no common prefix reaches length `end` (why shortening `end` one step at a time finds the longest) |
| Util.RemoveCodes | src/util.rs:52-78 | the cleaned text is the input itself when it holds no ESC, and otherwise the characters the four-state ANSI scanner keeps |
| Util.CleanedProperties | src/util.rs:52-78 | cleaning leaves text without ESC unchanged, leaves no ESC behind and only ever deletes characters, keeping their order |
| Util.StripWithoutEscIsIdentity | src/util.rs:59-62 | text with no ESC passes through the scanner whole |
| Util.StripHasNoEsc | src/util.rs:59-62 | an ESC is never emitted |
| Util.StripIsSubsequence | src/util.rs:57-72 | the scanner's output is a subsequence of its input, so never longer |
| Util.PlainCharKept | src/util.rs:59-62 | outside a control sequence an ordinary character is kept |
| Util.CsiDropped | src/util.rs:63-68 | `ESC [` and everything up to and including the first ASCII letter is dropped |
| Util.CsiBody | src/util.rs:68 | inside a CSI sequence nothing is kept until the first ASCII letter, after which scanning is back to normal |
| Util.OscDropped | src/util.rs:63-69 | `ESC ]` and everything up to and including BEL is dropped |
| Util.OscBody | src/util.rs:69 | inside an OSC sequence nothing is kept until BEL |
| Util.ShortEscapeDropped | src/util.rs:63-67 | ESC followed by any character other than `[` or `]` drops both |
| Util.LastIndexOfSpec | src/util.rs:82 | `rfind`: the index found holds the character and nothing after it does; nothing is found only when the character does not occur |
| Util.HandlePromptSpec | src/util.rs:81-88 | the last prompt line holds no newline, ends the prompt, starts right after the last newline, and is the whole prompt when there is no newline |
| Util.LastPromptLineWidth | src/util.rs:4-7 | the width is at most the last line's length, and equals it when the line holds no ESC |
| Complete.Completions | src/complete.rs:23-29 | every completion starts with the text, completions keep the stored order, and each stored string that starts with the text is offered exactly as many times as it is stored |
| Complete.EmptyQueryOffersAll | src/complete.rs:23-29 | completing the empty text offers every stored string, in order |
| Context.GetBufferWords | src/context.rs:17-46 | the loop over `word_start` and `just_had_backslash` returns exactly the words of `EditorRules.Words` |
| Context.TwoWords | src/context.rs:17-46 | "abc  abc", the text of the `test_get_cursor_position` cases in src/test.rs, divides into the words [0, 3) and [5, 8) |
| Context.EmptyHasNoWords | src/context.rs:41-45 | an empty buffer has no words |
| Prompts.From | src/prompt.rs:24-30 | a prompt made from a text has that text and neither prefix nor suffix |
| Prompts.ToString | src/prompt.rs:47-51 | the displayed prompt is the prefix, then the prompt text, then the suffix, each at its place, and just the text when neither is set |
| Prompts.FromDisplaysItself | src/prompt.rs:11-15 | a prompt built with `from` displays exactly its text, as in the documented example "prompt$ " |
| EditorRules.DivideWordsBySpace | src/editor_rules.rs:41-71 | the loop returns exactly `Words(text)`, the recursion it is read as |
| EditorRules.WordsFromAreWords | src/editor_rules.rs:48-68 | from any position, the words found are in order, each non-empty, opened by neither a space nor a backslash, ended by an unescaped space or the end, and free of unescaped spaces inside |
| EditorRules.ClosedWordFirst | src/editor_rules.rs:54-58 | closing the open word at an unescaped space keeps the words well formed |
| EditorRules.WordsFromCover | src/editor_rules.rs:48-68 | every unit from the open word on that is neither a space nor a backslash lies inside one of the words found |
| EditorRules.WordsAreWords | src/editor_rules.rs:41-71 | the words of a buffer are well formed, strictly ordered with a gap between them, and cover every unit that is neither a space nor a backslash |
| EditorRules.BlankHasNoWords | src/editor_rules.rs:41-71 | an empty buffer, or one of spaces only, has no words |
| EditorRules.BackslashRules | src/editor_rules.rs:49-55 | a backslash never opens a word and an escaped space never ends one |
| EditorRules.LastNonWsCharWasNotBackslash | src/editor_rules.rs:15-30 | true exactly when the text does not end in a backslash followed only by spaces |
| EditorRules.NewRules | src/editor_rules.rs:97-104 | the default rules hold the default word rule and the default newline rule |
| EditorRules.DivideWords | src/editor_rules.rs:144-152 | the default word rule divides by spaces as `Words` does, a custom rule by its own function |
| EditorRules.EvaluateOnNewline | src/editor_rules.rs:134-142 | the default newline rule evaluates unless the text ends in a backslash followed by spaces, a custom rule by its own function |
| Complete.Filter | src/complete.rs:24-28 | the strings kept all start with the text, keep their order, and are exactly the stored ones that start with it, each as often as stored |
| Util.LastIndexOf | src/util.rs:82 | `rfind` finds an index within the text; `Util.LastIndexOfSpec` states the rest |
| Keymaps.RouteKey | src/keymap/mod.rs:23-63 | Ctrl-h is read as Backspace; Ctrl-c interrupts; Ctrl-d is end of file exactly when the line is empty and otherwise reaches the keymap; Tab completes; Enter ends the line; Ctrl-r and Ctrl-s search; Ctrl-f, and Right at the end of the line, accept exactly when an autosuggestion is shown; every other key reaches the keymap unchanged |
| Keymaps.Handled | src/keymap/mod.rs:30-58 | the editor stays well formed; the result is the Interrupted error exactly for Ctrl-c, UnexpectedEof exactly for Ctrl-d on an empty line, and "done" exactly on Enter when `handle_newline` says so; the ending keys leave no search and no hint; accepting puts the autosuggestion in the buffer; the search keys start a search over the current text |
| Keymaps.Ended | src/keymap/mod.rs:31-43 | Ctrl-c, Ctrl-d and Enter run `handle_newline`, leaving neither a search nor a hint, and return the matching error, or whether the line is done |
| Keymaps.EditedBy | src/keymap/mod.rs:40-58 | Tab, the accepting keys and the search keys keep the editor well formed; accepting yields the autosuggestion's text; searching starts a search over the current text |
| Keymaps.ShowingHasText | src/editor.rs:869-876 | while an autosuggestion is shown the line is not empty, so the end-of-line test cannot underflow before Right is accepted |
| Keymaps.Perform | src/keymap/mod.rs:30-58 | on the editor object, a key handled by `handle_key` itself leaves the editor and returns the result `Handled` gives |
| Keymaps.PerformEdit | src/keymap/mod.rs:40-58 | on the editor object, Tab, the accepting keys and the search keys leave the state `EditedBy` gives |
| Keymaps.RouteOn | src/keymap/mod.rs:23-55 | the route is `RouteKey` applied to whether the line is empty, whether an autosuggestion is shown and whether the cursor is at the end of the line |
| Terms.Term.constructor | src/term.rs:31-44 | a new writer has its cursor on the prompt's row, nothing cached, the closure as given and the closure switched on |
| Terms.Term.UseClosure | src/term.rs:78-80 | switches the use of the colouring closure on or off and changes nothing else |
| Terms.Term.Colorize | src/term.rs:82-104 | with the closure in use the line is painted and cached; with it set but off, a cached line that prefixes the new one is reused and the rest appended plain; otherwise the line is returned as it is; a cache that agrees with the painter keeps agreeing |
| Terms.Term.Clear | src/term.rs:169-173 | the cursor row goes back to the prompt's row |
| Terms.Term.Display | src/term.rs:248-344 | the cursor is adjusted on a copy and then measured: total widths of prompt plus shown text, in full and up to the cursor, wrapped at the terminal width; a cursor move is produced exactly when the cursor's row is not below the last row, and always when the buffer occurs in the autosuggestion; the stored cursor row is the row of the cursor plus the completion lines |
| Terms.AdjustedCopy | src/term.rs:265 | the copied cursor ends where `DisplayCursor` says, and the caller's cursor is untouched |
| Terms.DisplayCursor | src/cursor.rs:249-262 | the adjusted cursor is never past the end, is strictly before the end in no-eol mode on a non-empty buffer, and is unchanged when already inside the text |
| Terminals.RoundUp | src/terminal.rs:68-70 | the step that moves a running total to the next row boundary: a multiple of the width, at least the total and less than a row beyond it, and the total itself when it already is one |
| Terminals.RoundUpMonotone | src/terminal.rs:68-70 | rounding up to the next row boundary never reverses the order of two totals |
| Terminals.CalcWidth | src/terminal.rs:63-76 | the loop's total is the cells `TotalWidth` assigns to the lines: each line starts on a fresh row after the first and adds the prompt and its width |
| Terminals.TotalWidthSnoc | src/terminal.rs:67-72 | one more line moves the total to the next row boundary and adds the prompt and the line's width |
| Terminals.TotalWidthShape | src/terminal.rs:63-76 | no lines take no cells, one line takes the prompt plus its width, and every further line begins at a row boundary less than a row after the previous lines end |
| Terminals.TotalWidthMonotone | src/terminal.rs:63-76 | fewer lines, each no wider, never take more cells |
| Terminals.LineWidths | src/buffer.rs:366-371 | one width per '\n'-separated line, each the length of that line |
| Terminals.PrefixLinesDominated | src/terminal.rs:34-41 | the lines of the text before the cursor are no more and no wider than the lines of the whole text |
| Terminals.LineWidthsStep | src/buffer.rs:366-371 | a leading line break adds an empty first line, any other unit widens the first line by one |
| Terminals.StepDominated | src/buffer.rs:366-371 | the same leading unit keeps one list of line widths dominated by another |
| Terminals.Row | src/terminal.rs:47 | rows are counted from 1: the row holding the cell after the given cells, never 0 |
| Terminals.NewMetrics | src/terminal.rs:19-56 | the measurements are the width, the last prompt line's width, the cells of the whole shown text and of the text before the cursor, and the row count; they are consistent (the cursor within the text) whenever there is no autosuggestion or the buffer occurs in it |
| Terminals.CursorWithinShown | src/terminal.rs:34-41 | when the buffer occurs in the autosuggestion, the text before the cursor never takes more cells than the whole shown text |
| Terminals.ShownPrefix | src/terminal.rs:29-41 | the text measured up to the cursor is the prefix of the shown text of the cursor's length |
| Terminals.OccursAsLong | src/buffer.rs:532-540 | a text found in another that is at least as long as it is that text |
| Terminals.NumLinesCountsRows | src/terminal.rs:47-60 | the rows used are at least one; a text that fills its last row gets one extra, empty row, and otherwise its last cell lies on the last row |
| Terminals.ValidPlaceable | src/terminal.rs:338-345 | consistent measurements never reach the `unreachable!()` case: the cursor's row is not below the last row, and the upward move is their difference |
| Terminals.MoveLandsOnCursor | src/terminal.rs:338-358 | moving up the row difference and left the column correction lands on the cursor: the move up is the difference of the rows, the move left the difference of the columns, which is always less than a row either way |
| Terminals.RowMonotone | src/terminal.rs:47 | more cells never lie on an earlier row |
| Terminals.MakePrompt | src/terminal.rs:117-142 | the prefix and suffix are kept, and the prompt becomes the part after its last '\n': a suffix of the old prompt with no '\n', the whole prompt when it had none, and preceded by a '\n' otherwise |
| Terminals.Terminal.constructor | src/terminal.rs:102-115 | a new writer has its cursor on the prompt's row, nothing cached, the closure as given and the closure switched on |
| Terminals.Terminal.UseClosure | src/terminal.rs:149-151 | switches the use of the colouring closure on or off and changes nothing else |
| Terminals.Terminal.Colorize | src/terminal.rs:153-175 | with the closure in use the line is painted and cached; with it set but off, a cached line that prefixes the new one is reused and the rest appended plain; otherwise the line is returned as it is; a cache that agrees with the painter keeps agreeing |
| Terminals.Terminal.Clear | src/terminal.rs:195-199 | the cursor row goes back to the prompt's row |
| Terminals.Terminal.Display | src/terminal.rs:329-365 | the move is the one `MoveToCursor` gives for the measurements, and the stored cursor row is the cursor's row plus the completion lines |
| Cursors.Get | src/cursor.rs:26-50 | the loop with its early returns gives the classification `Position` reads it as |
| Cursors.PositionFromTable | src/cursor.rs:37-49 | on spaced words, the scan from a word the cursor is right of finds the word whose left edge, right edge or inside holds the cursor, and otherwise the gap between the nearest words on either side |
| Cursors.LaterWordsRight | src/cursor.rs:45-46 | a cursor no further right than a word's end is left of every later word, so the scan may stop there |
| Cursors.OrderedApart | src/cursor.rs:37-49 | among spaced words, a later word starts after an earlier one ends |
| Cursors.PositionTable | src/cursor.rs:6-50 | on spaced words, the position is exactly the table the enum documents: the left edge, the right edge or the inside of the word touching the cursor, or the space between the nearest words on each side, with None where there is no word |
| Cursors.DividedWordsAreSpaced | src/editor_rules.rs:41-71 | the words of the default divider are spaced, so the position table applies to them |
| Cursors.PositionExamples | src/test.rs:25-45 | the ten cases of `test_get_cursor_position` on "hi", "abc  abc", " a", "a " and "" |
| Cursors.Cursor.NewWithDivider | src/cursor.rs:73-79 | a new cursor is at 0, not in no-eol mode, with the divider given |
| Cursors.Cursor.MoveCursorTo | src/cursor.rs:96-102 | the cursor goes to the position, clamped to the buffer's length |
| Cursors.Cursor.InsertAround | src/cursor.rs:85-94 | an empty or missing register changes nothing; otherwise the register (repeated `count` times) is pasted before the cursor or after the unit under it, and the cursor moves right by what was pasted, one less when pasting to the left, clamped to the end; the register is kept |
| Cursors.Cursor.GetWordsAndCursorPosition | src/cursor.rs:104-111 | the words the rules divide the buffer into, and the cursor's position among them |
| Cursors.Cursor.Reset | src/cursor.rs:113-116 | the buffer is emptied and the cursor is at 0 |
| Cursors.Cursor.DeleteUntilCursor | src/cursor.rs:118-121 | the units from `start` to the cursor are removed and the cursor moves back by what went, landing on `start` when it was after it |
| Cursors.Cursor.InsertCharsAfterCursor | src/cursor.rs:123-137 | the characters are inserted at the cursor, the cursor moves past them, and the text before and after the cursor is kept around them |
| Cursors.Cursor.DeleteBeforeCursor | src/cursor.rs:139-144 | at 0 nothing changes; otherwise the unit before the cursor is removed and the cursor moves back one |
| Cursors.Cursor.DeleteAfterCursor | src/cursor.rs:146-150 | at or past the end nothing changes; otherwise the unit after the cursor is removed and the cursor stays |
| Cursors.Cursor.DeleteAllBeforeCursor | src/cursor.rs:152-155 | everything before the cursor is removed and the cursor is at 0 |
| Cursors.Cursor.YankAllAfterCursor | src/cursor.rs:157-159 | the register holds the text from the cursor to the end |
| Cursors.Cursor.DeleteAllAfterCursor | src/cursor.rs:161-163 | the text is cut at the cursor |
| Cursors.Cursor.YankUntil | src/cursor.rs:165-170 | the register holds the text between the cursor and the position, whichever comes first, cut at the end of the buffer |
| Cursors.Cursor.DeleteUntilSilent | src/cursor.rs:172-178 | the text between the cursor and the position is removed without recording an action, and the cursor goes to the lower end |
| Cursors.Cursor.DeleteUntil | src/cursor.rs:180-186 | the text between the cursor and the position is removed, recorded, and the cursor goes to the lower end |
| Cursors.Cursor.YankUntilInclusive | src/cursor.rs:188-193 | as `YankUntil`, taking in the unit at the upper end too |
| Cursors.Cursor.DeleteUntilInclusive | src/cursor.rs:195-201 | as `DeleteUntil`, taking in the unit at the upper end too |
| Cursors.Cursor.MoveCursorLeft | src/cursor.rs:203-209 | the cursor moves left by `count`, stopping at 0 |
| Cursors.Cursor.MoveCursorRight | src/cursor.rs:211-218 | the cursor moves right by `count`, stopping at the end |
| Cursors.Cursor.MoveCursorToEndOfLine | src/cursor.rs:220-222 | the cursor is at the end of the buffer |
| Cursors.Cursor.IsAtBeginningOfWordOrLine | src/cursor.rs:224-234 | true exactly at 0, on an empty buffer, past the end, or just after whitespace |
| Cursors.Cursor.SetNoEol | src/cursor.rs:236-238 | sets the no-eol mode and nothing else |
| Cursors.Cursor.IsAtEndOfLine | src/cursor.rs:240-247 | true exactly at the end, or in no-eol mode on the last unit |
| Cursors.Cursor.PreDisplayAdjustment | src/cursor.rs:249-260 | the cursor is clamped into the buffer, stays where it was when inside it, and in no-eol mode on a non-empty buffer is moved back onto the last unit |
| Cursors.ClampThenReset | src/cursor.rs:269-279 | `test_clamp_if_pos_is_past_move`: moving to 100 in "01234" clamps to 5, and reset empties the buffer and returns to 0 |
| Cursors.YankAndPaste | src/cursor.rs:397-408 | `test_yank_and_paste`: yanking from position 6 of "hello hello" and pasting to the right gives "hello hhelloello" with the cursor at 11 |
| Cursors.ClampForDisplay | src/cursor.rs:386-395 | `test_clamp_pre_display_adjustments`: a cursor at 8 over "hello" is clamped to 5, and to 4 in no-eol mode |
| GraphemeIters.BoundsIncrease | src/grapheme_iter.rs:2-9 | grapheme boundaries strictly increase, so every grapheme spans at least one byte |
| GraphemeIters.UnitBytes | src/grapheme_iter.rs:60-72 | a grapheme runs from its offset to the next offset, the last one to the end of the data |
| GraphemeIters.UnitsConcat | src/grapheme_iter.rs:75-83 | joining graphemes `lo` to `hi` gives back exactly the bytes between their boundaries |
| GraphemeIters.IterationMatchesSlice | src/grapheme_iter.rs:41-58 | the graphemes of a range, joined, are the bytes the range spans, and all of them are the whole data |
| GraphemeIters.GraphemeIter.Default | src/grapheme_iter.rs:11-22 | the default iterator has nothing left, length 0, an empty slice and no grapheme at any index |
| GraphemeIters.GraphemeIter.constructor | src/grapheme_iter.rs:25-39 | a new iterator over `[curr, max)` has those graphemes left, in order, and length `max - curr` |
| GraphemeIters.GraphemeIter.Len | src/grapheme_iter.rs:152-160 | `len()` is the number of graphemes not yet yielded from either end |
| GraphemeIters.GraphemeIter.Slice | src/grapheme_iter.rs:41-58 | the bytes of the whole range, whatever has been iterated, equal to its graphemes joined |
| GraphemeIters.GraphemeIter.Get | src/grapheme_iter.rs:60-72 | grapheme `idx` of the data for an index inside the range, None at or past its end |
| GraphemeIters.GraphemeIter.Next | src/grapheme_iter.rs:88-111 | the first remaining grapheme is yielded and removed from the front; nothing is yielded once nothing remains; the back is untouched |
| GraphemeIters.GraphemeIter.NextBack | src/grapheme_iter.rs:115-149 | the last remaining grapheme is yielded and removed from the back; nothing is yielded once nothing remains; the front is untouched |
| GraphemeIters.GraphemeIter.IntoString | src/grapheme_iter.rs:75-83 | draining the iterator from the front yields the remaining graphemes joined, and leaves nothing remaining |
| GraphemeIters.NextAfterBackExhaustedRepeats | src/grapheme_iter.rs:88-90 | on the sample, after `next_back()` has taken the only grapheme of `[0, 1)`, the written `next()` yields it a second time, while nothing remains |
| GraphemeIters.GetLastOfShortRange | src/grapheme_iter.rs:60-65 | on the range `[0, 6)` of the sample, the written `get(5)` returns "45" where grapheme 5 is "4" |
| GraphemeIters.SliceOfEmptyEndRange | src/grapheme_iter.rs:41-46 | on the empty range at the end of the sample, the written `slice()` indexes past the offsets where the empty slice is meant |
| GraphemeIters.AsWrittenAgreesElsewhere | src/grapheme_iter.rs:41-72 | away from those cases the written `slice()` and `get()` agree with the corrected ones |
| Buffers.InsertRawText | src/buffer.rs:503-515 | the text grows by exactly the inserted length: the insert goes before unit `start`, or at the end when `start` is at or past it |
| Buffers.RemovedRange | src/buffer.rs:465-501 | nothing is removed from an empty text, for an empty request or from a start past the end; otherwise `[start, min(end, len))` |
| Buffers.UndoPos | src/buffer.rs:38-51 | undoing reports a position for every action except the group markers |
| Buffers.UndoAfterDo | src/buffer.rs:18-51 | undoing an action that describes exactly what it did restores the text it was done on |
| Buffers.Utf8Width | src/buffer.rs:41 | a character takes one to four bytes in UTF-8, one exactly when it is ASCII |
| Buffers.Utf8LenBounds | src/buffer.rs:41 | `str::len` of a text is at least its number of units, and equal to it exactly when the text is ASCII |
| Buffers.UndoTextAsWritten | src/buffer.rs:38-51 | `Action::undo` as written: an insert is undone by removing up to `start + text.len()`, its byte length read as a unit index; the other actions are undone as `UndoText` undoes them |
| Buffers.UndoAsWrittenAgreesOnAscii | src/buffer.rs:38-43 | on ASCII inserts the written undo and the corrected `UndoText` agree |
| Buffers.UndoAsWrittenRemovesMore | src/buffer.rs:38-43 | the written undo of a non-ASCII insert followed by more text leaves a shorter text than the one the insert was done on |
| Buffers.PushKeepsTracks | src/buffer.rs:225-228 | recording an exact action and clearing the redo stack keeps the history explaining the text |
| Buffers.MarkerKeepsChain | src/buffer.rs:150-156 | group markers change no text, so one can be recorded anywhere without breaking the history |
| Buffers.FirstUndoPos | src/buffer.rs:158-184 | the position `undo` reports is None exactly when only group markers were undone |
| Buffers.UndoStopAt | src/buffer.rs:164-181 | the scan of the undo stack always pops at least one action when there is one |
| Buffers.UndoCut | src/buffer.rs:158-184 | one `undo` leaves a shorter undo stack whenever it is not empty |
| Buffers.RedoStopAt | src/buffer.rs:193-210 | the scan of the redo stack always pops at least one action when there is one |
| Buffers.RedoCut | src/buffer.rs:187-213 | one `redo` leaves a shorter redo stack whenever it is not empty |
| Buffers.UndoStopAtOnlyMarkers | src/buffer.rs:164-181 | with nothing real undone yet, a scan that meets only group markers runs to the bottom of the stack |
| Buffers.UndoStopAtAsWritten | src/buffer.rs:164-181 | the written scan, which resets its count at every EndGroup, never pops more than the stack holds |
| Buffers.RedoStopAtAsWritten | src/buffer.rs:193-210 | the written scan, which resets its count at every StartGroup, never pops more than the stack holds |
| Buffers.UndoScanGroup | src/buffer.rs:164-181 | inside one open group of real actions, `undo` runs down to the group's StartGroup |
| Buffers.RedoScanGroup | src/buffer.rs:193-210 | inside one open group of real actions, `redo` runs down to the group's EndGroup |
| Buffers.FlatGroupUndoRedo | src/buffer.rs:677-702 | as `test_undo_group` and `test_redo_group` check: a group of real actions is undone by one `undo` down to where it started, and redone by one `redo` exactly back |
| Buffers.SingleActionUndoRedo | src/buffer.rs:158-213 | a single real action outside any group is undone alone and redone alone |
| Buffers.EmptyGroupFirstReplays | src/buffer.rs:18-36 | inserting "a", then a group holding an empty group and the insertion of "b", gives "ab" |
| Buffers.EmptyGroupFirstUndoTexts | src/buffer.rs:38-51 | undoing that history down to "a" gives "a", and all of it gives the empty text |
| Buffers.UndoOvershootsAsWritten | src/buffer.rs:164-176 | on that history the written `undo` undoes everything and leaves "", where the corrected one stops after the group and leaves "a" |
| Buffers.RedoOvershootsAsWritten | src/buffer.rs:193-205 | after undoing a group that ends in an empty group and a later insert, the written `redo` redoes both where the corrected one redoes only the insert |
| Buffers.ExportedKeepsOrder | src/buffer.rs:73-88 | exporting only drops characters, keeping the order of the rest, and changes nothing in text without a line break |
| Buffers.ExportDropsLineContinuation | src/buffer.rs:774-779 | `test_buffer_to_string_ignore_newline`: "he\\\nllo" exports as "hello" |
| Buffers.Lines | src/buffer.rs:373-375 | splitting at '\n' gives at least one line and no line holds a '\n' |
| Buffers.LinesRoundTrip | src/buffer.rs:373-375 | joining the lines with '\n' gives back the text |
| Buffers.Repeat | src/buffer.rs:296-303 | the register repeated `n` times is `n` times as long |
| Buffers.Buffer.constructor | src/buffer.rs:134-143 | a new buffer is empty, with no history and no register, and its history explains its text |
| Buffers.Buffer.FromText | src/buffer.rs:89-124 | a buffer made from a text holds it, with no history and no register |
| Buffers.Buffer.GraphemeAt | src/buffer.rs:251-254 | the unit at an index inside the text, and None outside it |
| Buffers.Buffer.GraphemeBefore | src/buffer.rs:256-258 | the unit before the cursor, None at 0 or past the end |
| Buffers.Buffer.GraphemeAfter | src/buffer.rs:260-262 | the unit after the cursor, None at or past the end |
| Buffers.Buffer.IsEmpty | src/buffer.rs:542-545 | true exactly when there are no units |
| Buffers.Buffer.First | src/buffer.rs:547-556 | the first unit, None exactly when the buffer is empty |
| Buffers.Buffer.Last | src/buffer.rs:558-567 | the last unit, None exactly when the buffer is empty |
| Buffers.Buffer.ClearActions | src/buffer.rs:145-148 | both stacks are emptied and the text and register are kept; the empty history explains the text |
| Buffers.Buffer.StartUndoGroup | src/buffer.rs:150-152 | a StartGroup is pushed and the history still explains the text |
| Buffers.Buffer.EndUndoGroup | src/buffer.rs:154-156 | an EndGroup is pushed and the history still explains the text |
| Buffers.Buffer.InsertRaw | src/buffer.rs:503-515 | the text after the raw insert, unrecorded |
| Buffers.Buffer.RemoveRaw | src/buffer.rs:465-501 | the text after the raw remove; unsaved, nothing else changes; saved, the removed text goes to the register and is recorded as a Remove, or a Noop is recorded when nothing was removed, and the redo stack is cleared |
| Buffers.Buffer.DoAction | src/buffer.rs:18-36 | the text and position `Action::do_on` gives |
| Buffers.Buffer.UndoAction | src/buffer.rs:38-51 | the text and position `Action::undo` gives, with an insert's removal measured in units: the corrected half of the Findings row src/buffer.rs:41, whose as-written half is Buffers.UndoTextAsWritten |
| Buffers.Buffer.RemoveRawUnrecorded | src/buffer.rs:266-269 | the text after the raw remove, with nothing recorded |
| Buffers.Buffer.PopUndo | src/buffer.rs:164-168 | the top of the undo stack is undone and moved to the redo stack, keeping the history consistent |
| Buffers.Buffer.PopRedo | src/buffer.rs:193-197 | the top of the redo stack is done again and moved to the undo stack, keeping the history consistent |
| Buffers.Buffer.UndoIter | src/buffer.rs:164-181 | one pass of the undo loop pops one action, keeps the loop invariant and reports whether the stop condition was met at the place `UndoCut` predicts |
| Buffers.Buffer.RedoIter | src/buffer.rs:193-210 | one pass of the redo loop pops one action, keeps the loop invariant and reports whether the stop condition was met at the place `RedoCut` predicts |
| Buffers.Buffer.Undo | src/buffer.rs:158-185 | the actions above `UndoCut` are undone last first and moved to the redo stack; the position is that of the earliest one undone; the undo stack shrinks when not empty; no position means the stack was emptied; the history keeps explaining the text |
| Buffers.Buffer.Redo | src/buffer.rs:187-214 | the actions above `RedoCut` on the redo stack are done again in pop order and moved back; the position is that of the last one redone; the redo stack shrinks when not empty; the history keeps explaining the text |
| Buffers.Buffer.Revert | src/buffer.rs:216-223 | false and no change when nothing was recorded; otherwise every action is undone and the text is back to the text before the first recorded action |
| Buffers.Buffer.PushAction | src/buffer.rs:225-228 | the action is pushed and the redo stack cleared |
| Buffers.Buffer.Remove | src/buffer.rs:271-277 | the number removed is the shrink in length; a removal inside the text cuts `[start, min(end, len))` out into the register and records it; an empty request or a start past the end records a Noop and changes nothing else; the redo stack is cleared; the history keeps explaining the text |
| Buffers.Buffer.RemoveUnrecorded | src/buffer.rs:266-269 | the text after the removal, with nothing recorded |
| Buffers.Buffer.InsertAction | src/buffer.rs:330-333 | the action is done and recorded, and the redo stack cleared; an exact action keeps the history explaining the text |
| Buffers.Buffer.InsertStr | src/buffer.rs:313-320 | the text is placed before unit `start`, or appended when `start` is past the end; the count returned is its length; the insert is recorded at the place it really went, so undoing it removes exactly it |
| Buffers.Buffer.InsertStrAsWritten | src/buffer.rs:313-320 | as written, the insert is recorded at `start` even past the end, so the history explains the text only when `start` is inside it |
| Buffers.Buffer.Insert | src/buffer.rs:322-328 | as `InsertStr`, for an iterator of characters |
| Buffers.Buffer.InsertRegisterAroundIdx | src/buffer.rs:281-311 | the corrected paste of the Findings row src/buffer.rs:288-305: an empty or missing register changes nothing and returns 0; otherwise the register, repeated when `count > 1`, is inserted at `idx`, or after the unit there when pasting to the right, and its length returned; the insert is recorded at the place it really went, `idx` clamped to the length, so undoing it removes exactly it |
| Buffers.Buffer.InsertRegisterAroundIdxAsWritten | src/buffer.rs:281-311 | as written, the paste is recorded at `idx` (one further to the right of a unit) even past the end, so the history explains the text only when `idx` is inside it |
| Buffers.Buffer.AppendBuffer | src/buffer.rs:335-338 | the other buffer's text is appended and recorded as one insert at the end |
| Buffers.Buffer.CopyBuffer | src/buffer.rs:340-343 | the text becomes the other buffer's text, recorded as one insert at 0 |
| Buffers.Buffer.Truncate | src/buffer.rs:381-383 | the text is cut to `num` units; the cut is recorded as a Remove, or a Noop when nothing was cut |
| Buffers.Buffer.Yank | src/buffer.rs:416-426 | the register holds `[start, end)` of the text, cut at the end |
| Buffers.Buffer.Push | src/buffer.rs:460-463 | one character is appended, not recorded |
| Buffers.Buffer.IntoString | src/buffer.rs:73-88 | the loop with one character of look-ahead gives `Exported`, the text with each backslash-newline pair dropped |
| Buffers.Buffer.LineWidths | src/buffer.rs:366-371 | one width per '\n'-separated line, each that line's length |
| Buffers.UndoDone | src/buffer.rs:158-185 | when the undo loop stops, the state is the one `Undo`'s contract describes |
| Buffers.RedoDone | src/buffer.rs:187-214 | when the redo loop stops, the state is the one `Redo`'s contract describes |
| Buffers.UndoProgressStep | src/buffer.rs:164-168 | one more pop keeps the undo loop's invariant |
| Buffers.RedoProgressStep | src/buffer.rs:193-197 | one more pop keeps the redo loop's invariant |
| Buffers.RecordedRemoveIsExact | src/buffer.rs:484-492 | the Remove that `remove_raw` records describes exactly what it deleted |
| Buffers.InsertedFrom | src/editor.rs:899 | inserting the rest of a longer text that extends this one gives that text, recorded as one insert at the end |
| Buffers.UndoSuffixAppend | src/buffer.rs:158-185 | undoing a concatenation of actions undoes the later ones first |
| Buffers.UndoneValue | src/buffer.rs:158-185 | the state the undo loop ends in is `Undone` of the state before |
| Buffers.RedoneValue | src/buffer.rs:187-214 | the state the redo loop ends in is `Redone` of the state before |
| Buffers.UndoComposes | src/buffer.rs:158-185 | one more `undo` after undoing the top of a history has undone a longer top of the same history |
| Buffers.InsertedIsExact | src/buffer.rs:313-333 | the Insert recorded for an insert describes exactly the text it produced |
| Buffers.InsertThenUndo | src/buffer.rs:313-333 | one `undo` after an insert restores the text and the undo stack, and reports where the insert went (with the corrected undo of the Findings row src/buffer.rs:41) |
| Buffers.RemoveThenUndo | src/buffer.rs:271-277 | one `undo` after a removal restores the text and the undo stack, and reports where it started |
| Buffers.InsertUndoRedo | src/buffer.rs:187-214 | one `redo` after one `undo` of an insert puts the insert back |
| Buffers.Equal | src/buffer.rs:67-71 | two buffers are equal exactly when their texts are; history and register are ignored |
| Buffers.StartsWith | src/buffer.rs:518-530 | true exactly when the other text is a non-empty proper prefix |
| Buffers.Contains | src/buffer.rs:532-540 | true exactly when the pattern is non-empty and equals some slice of the text; in particular never for a longer pattern, and always for a non-empty prefix |
| Buffers.TrimmedLength | src/buffer.rs:233 | the length without trailing whitespace: only whitespace follows it and the unit before it is not whitespace |
| Buffers.WordRunStart | src/buffer.rs:232 | where the run of word characters ending at `e` starts: all of it is word characters and the unit before it is not |
| Buffers.LastArg | src/buffer.rs:230-236 | None exactly when the text is all whitespace; otherwise a run of word characters or one other non-whitespace character that ends exactly where the trailing whitespace begins, and a run of word characters is the whole run there (no word character before it) |
| Buffers.LastArgAppended | src/buffer.rs:230-236 | an argument appended after a break is what the next `last_arg` takes back |
| BufferScenarios.NewLetters | src/buffer.rs:573-578 | `test_insert`: a fresh buffer after inserting "abcdefg" holds it, with that one insert recorded |
| BufferScenarios.TruncateThenUndo | src/buffer.rs:587-647 | `test_truncate_all`, `test_truncate_end`, `test_truncate_part` and their `_then_undo` forms: truncating to any `n` keeps the first `n` units, and one undo gives back "abcdefg" |
| BufferScenarios.TruncateEmptyThenUndo | src/buffer.rs:580-619 | `test_truncate_empty` and `test_truncate_empty_undo`: an empty buffer stays empty after truncate and after undo |
| BufferScenarios.ThenGroup | src/buffer.rs:677-688 | a text followed by a group of three removes from the front loses its first three units, and its history explains it |
| BufferScenarios.RemoveThreeGrouped | src/buffer.rs:681-686 | the group of three removes records StartGroup, the three one-unit removes and EndGroup |
| BufferScenarios.RemoveFirst | src/buffer.rs:271-277 | `remove(0, 1)` on a text starting with `c` removes `c` and records it |
| BufferScenarios.OpenAndRemoveFirst | src/buffer.rs:150-152 | a group opened and then the first unit removed records StartGroup and the remove |
| BufferScenarios.RemoveFirstAndClose | src/buffer.rs:154-156 | the first unit removed and then the group closed records the remove and EndGroup |
| BufferScenarios.UndoRedoGroup | src/buffer.rs:677-702 | `test_undo_group` and `test_redo_group`, for any text of three or more units: one undo reports a position and restores the text, one redo reports one and removes the three units again |
| BufferScenarios.UndoToFirst | src/buffer.rs:158-185 | an undo that stops at the first recorded insert of `t` leaves exactly `t` |
| BufferScenarios.RedoAll | src/buffer.rs:187-214 | a redo that redoes everything after the first action brings back the whole recorded text |
| BufferScenarios.RevertGroup | src/buffer.rs:648-660 | `test_revert_undo_group`: revert reports true and leaves the empty text the buffer was made with |
| BufferScenarios.ClearThenRevert | src/buffer.rs:662-675 | `test_clear_undo_group`: after `clear_actions`, revert reports false, undo reports no position and the text stays "defg" |
| BufferScenarios.ThenNestedGroup | src/buffer.rs:704-717 | a text followed by a group holding a remove, a nested group with one remove, and one more remove, loses its first three units |
| BufferScenarios.NestedCuts | src/buffer.rs:158-214 | on that history one undo stops right after the first insert, and one redo takes all of the group back |
| BufferScenarios.UndoRedoNestedGroup | src/buffer.rs:704-733 | `test_nested_undo_group` and `test_nested_redo_group`: the nested group is undone by one call and redone by one call |
| BufferScenarios.ComparisonExamples | src/buffer.rs:735-808 | `test_starts_with`, `test_does_not_start_with`, `test_is_not_match2`, `test_contains` and `test_does_not_contain` |
| BufferScenarios.InsertPastEndThenUndoAsWritten | src/buffer.rs:313-320 | as written, inserting "ab" at 5 into "xy" gives "xyab", and one undo then leaves "xyab": it removes nothing |
| BufferScenarios.InsertPastEndThenUndo | src/buffer.rs:313-320 | with the insert recorded where it went, the same undo gives back "xy" |
| BufferScenarios.PastePastEndThenUndoAsWritten | src/buffer.rs:288-305 | as written, pasting the register "ab" at 5 into "xy" gives "xyab", and one undo then leaves "xyab": it removes nothing |
| BufferScenarios.PastePastEndThenUndo | src/buffer.rs:288-305 | with the paste recorded where it went, the same undo gives back "xy" |
| BufferScenarios.MultiByteInsertThenUndoAsWritten | src/buffer.rs:38-43 | inserting "é" (two bytes) at 0 into "ab" gives "éab", and the written undo removes units 0 to 2 and leaves "b" |
| BufferScenarios.MultiByteInsertThenUndo | src/buffer.rs:38-43 | with the removal measured in units, the same insert and one `undo` give back "ab" |
| Histories.AddMissingUnion | src/history.rs:28-32 | adding the other contexts that are missing extends the list, holds exactly the contexts of both, and keeps a list without repeats free of repeats |
| Histories.MergeContext | src/history.rs:19-41 | the command is kept and the contexts become `MergedContext` of the two |
| Histories.MergedContextProperties | src/history.rs:19-41 | an item without contexts takes the other's; a wildcard on either side gives just the wildcard; otherwise the merged list extends the item's own, holds exactly the contexts of both, has no more than the limit and keeps a list without repeats free of repeats, or collapses to the wildcard |
| Histories.PushedContext | src/history.rs:316-335 | a new command gets the search context alone, or none when there is none; an old one keeps its contexts, gains the search context, and collapses to the wildcard when either has a '*' or the list outgrows the limit |
| Histories.Without | src/history.rs:375-385 | every entry with the command is dropped, the others keep their order, and the list never grows |
| Histories.KeepNewest | src/history.rs:355-357 | at most `max` entries are kept, and they are the newest ones |
| Histories.FirstWanted | src/history.rs:387-415 | the first wanted entry from `k` on: it is wanted and none before it is, or none is wanted at all |
| Histories.MatchSpecMeaning | src/history.rs:387-415 | `get_match` returns one of the indices given whose entry starts with the term, none exactly when no entry does, and an entry matching the search context whenever one such exists |
| Histories.NewestMatchIsNewest | src/history.rs:417-424 | searching down from `pos`, the match is below `pos`, no newer entry matches both term and context, and a match outside the context means no newer entry starts with the term at all |
| Histories.Descending | src/history.rs:420 | `(0..pos).rev()`: `pos` indices, from `pos - 1` down to 0 |
| Histories.IndicesBelow | src/history.rs:426-457 | every index collected is below the bound |
| Histories.IndicesBelowExact | src/history.rs:426-457 | the indices collected are exactly the entries of the group, in increasing order |
| Histories.SearchIndex | src/history.rs:459-465 | every index is an index of the history |
| Histories.SearchIndexExact | src/history.rs:459-465 | the indices are exactly the entries that contain the term, in increasing order |
| Histories.History.constructor | src/history.rs:74-86 | a new history is empty, with room for 1000 commands, no throwaways, no local pushes, at most 5 contexts per command and no search context |
| Histories.History.SetMaxContexts | src/history.rs:88-90 | sets the limit on contexts per command |
| Histories.History.SetSearchContext | src/history.rs:92-95 | sets the search context |
| Histories.History.SetMaxHistorySize | src/history.rs:257-260 | sets the limit on commands kept |
| Histories.History.ClearHistory | src/history.rs:97-100 | the history is emptied |
| Histories.History.Len | src/history.rs:263-266 | the number of commands |
| Histories.History.IsEmpty | src/history.rs:268-271 | true exactly when there are no commands |
| Histories.History.PushThrowaway | src/history.rs:275-292 | the command ends the history: nothing changes when it already did, and otherwise it is appended without contexts and counted as a throwaway |
| Histories.History.PopThrowaways | src/history.rs:300-303 | the throwaways are dropped from the end and none are left |
| Histories.History.RemoveDuplicates | src/history.rs:375-385 | every entry with the command is dropped, and the contexts of the last one dropped are returned |
| Histories.History.Push | src/history.rs:294-371 | the throwaways go first and the push is counted; a command equal to the newest one, within the search context, changes nothing more; otherwise its older copies are dropped and it is appended with its merged contexts, and the oldest commands beyond the limit are dropped |
| Histories.History.Truncate | src/history.rs:473-482 | only the newest `max_history_size` commands are kept |
| Histories.History.GetMatch | src/history.rs:387-415 | the loop returns the match `MatchSpec` describes |
| Histories.History.GetNewestMatch | src/history.rs:417-424 | no match from position 0; otherwise the match among the entries below the position, newest first |
| Histories.History.GetHistorySubset | src/history.rs:426-457 | the entries that contain the term without starting with it or being it, then those that start with it outside the search context, then those that start with it inside it, each group in increasing order |
| Histories.PopOldest | src/history.rs:355-357 | the loop that pops from the front keeps the newest `max` entries |
| Histories.PushedEntries | src/history.rs:338-357 | after a push the new command is the newest entry, appears nowhere else, and is preceded by the newest other entries up to the limit |
| Histories.WithoutAppend | src/history.rs:375-385 | dropping a command from a list with one more entry drops it from the list and keeps or drops that entry; the contexts returned follow the last copy |
| HistoryScenarios.Indexing | src/test.rs:74-84 | three different commands pushed into a new history give length 3 and are indexed oldest first |
| HistoryScenarios.Truncating | src/test.rs:86-95 | with room for two, pushing two commands in turn four times leaves length 2 |
| HistoryScenarios.PushOnto | src/history.rs:294-371 | with room for two, pushing a command onto nothing, onto itself-then-another, or onto another alone ends with the other (if any) then the command |
| HistoryScenarios.PushedOntoPair | src/history.rs:304-357 | the values `push` computes in that case: the last entry is not the command, it had no contexts, and the kept entries are the other then the command |
| HistoryScenarios.PushAbsent | src/history.rs:294-371 | a command the history does not hold, with room to spare, is appended with the search context as its only context |
| HistoryScenarios.EnterInTwoContexts | src/test.rs:149-181 | a command entered in context `a`, another in `b`, then the first again in `b`, leaves the other then the command, which remembers `[a, b]` |
| HistoryScenarios.SecondContextFacts | src/history.rs:316-335 | the values `push` computes when the command is entered again in the second context |
| HistoryScenarios.OlderCopyFound | src/history.rs:375-385 | of two entries, the older copy of a command is found and dropped, and its contexts returned |
| HistoryScenarios.NewerCopyFound | src/history.rs:375-385 | of two entries, the newer copy of a command is found and dropped, and its contexts returned |
| HistoryScenarios.Contexts | src/test.rs:149-288 | a command remembers both contexts it was entered in, and entering it again in a context holding `*` collapses them to the wildcard |
| HistoryScenarios.StarredContextFacts | src/history.rs:321-330 | the values `push` computes when a context holding `*` is added |
| HistoryScenarios.PushedContextGrows | src/history.rs:321-333 | a new context without `*`, below the limit, is appended to the remembered ones |
| EditorModel.Refresh | src/editor.rs:358-388 | refreshing the incremental search keeps the state well formed: every index found is an entry of the history and the place in it is within the index |
| EditorModel.CursorRowWithinText | src/editor.rs:1132-1142 | the cursor's row is never below the last row drawn, so the `Less` case `_display` marks unreachable is |
| EditorModel.ClampForDisplay | src/editor.rs:1070-1079 | the cursor is clamped to the buffer, and in no-eol mode moved off the end of a non-empty buffer |
| EditorModel.MeasureRow | src/editor.rs:1070-1132 | the redraw clamps the cursor and records the row the cursor ends on, and changes nothing else |
| EditorModel.AutosuggestionContainsText | src/editor.rs:911-931 | a suggestion is made only on the new line with text, and it contains that text; outside a search and on the new line it starts with it |
| EditorModel.AutosuggestionMeaning | src/editor.rs:911-931 | in a valid state a suggestion contains the new line's text (starts with it outside a search); outside a search on the new line there is one exactly when some history entry starts with the text, and in a search exactly when some entry contains it |
| EditorModel.RedrawValid | src/editor.rs:1180-1189 | `display` leaves a valid state with the settings, the history, the hint and the buffers kept and the cursor clamped; it refreshes the search exactly when the text changed during a search, and otherwise leaves the search and the recalled entry as they were |
| EditorModel.PrepareReady | src/editor.rs:1180-1187 | after the search refresh and the new suggestion, the suggestion is the one `current_autosuggestion` gives and the drawn text fits the rows |
| EditorModel.MeasureValid | src/editor.rs:1047-1177 | `_display` changes only the cursor and the recorded row, and leaves a valid state |
| EditorModel.Touched | src/editor.rs:168-182 | taking the buffer for editing marks the text changed; on a recalled entry not yet copied, the entry's text is copied into the history buffer; otherwise nothing else changes |
| EditorModel.InsertChars | src/editor.rs:742-750 | the characters go in at the cursor, the text around them is kept, the cursor moves past them, and the state stays valid |
| EditorModel.DeleteBefore | src/editor.rs:754-762 | with the cursor past the start, the character before it is removed and the cursor moves back one; at the start nothing changes |
| EditorModel.DeleteAfter | src/editor.rs:766-775 | the character under the cursor is removed unless the cursor is at the end; the cursor stays |
| EditorModel.DeleteAllBefore | src/editor.rs:778-782 | everything before the cursor is removed and the cursor goes to 0 |
| EditorModel.DeleteAllAfter | src/editor.rs:785-791 | the text is cut at the cursor |
| EditorModel.DeleteUntil | src/editor.rs:794-804 | the text between the cursor and the position is removed and the cursor goes to the smaller of the two |
| EditorModel.DeleteUntilInclusive | src/editor.rs:807-817 | the text between the cursor and the position, with the character at the larger one, is removed and the cursor goes to the smaller |
| EditorModel.DeleteUntilInclusiveText | src/editor.rs:807-817 | for a position within the text the removal cannot fail, and the text left is everything before the smaller end and after the larger one |
| EditorModel.DeleteWord | src/editor.rs:612-621 | the word `get_word_before_cursor` finds is removed from its start up to the cursor, which moves to its start; with no word nothing changes |
| EditorModel.DeleteWordAt | src/editor.rs:616-619 | a word starting before the cursor is removed up to the cursor and the cursor moves to its start |
| EditorModel.MoveLeft | src/editor.rs:821-829 | the cursor moves left by the count, stopping at 0; the text is kept |
| EditorModel.MoveRight | src/editor.rs:833-845 | the cursor moves right by the count, stopping at the end; the text is kept |
| EditorModel.MoveTo | src/editor.rs:848-855 | the cursor goes to the position clamped to the text |
| EditorModel.MoveToStart | src/editor.rs:858-861 | the cursor goes to 0 |
| EditorModel.MoveToEnd | src/editor.rs:864-867 | the cursor goes to the end of the text, which is kept |
| EditorModel.AtEndOfLine | src/editor.rs:869-876 | true exactly when the cursor is at the end, or in no-eol mode on the last character of a non-empty text |
| EditorModel.AtEndOfLineAsWritten | src/editor.rs:869-876 | the source's `num_chars - 1` underflows exactly in no-eol mode on an empty text; otherwise it agrees with `AtEndOfLine` |
| EditorModel.LeftThenRight | src/editor.rs:821-845 | moving left by n and then right by n returns the cursor to where it was, text unchanged |
| EditorModel.Undo | src/editor.rs:427-435 | the current buffer is undone; the result says whether anything was, and then the cursor goes to the end |
| EditorModel.Redo | src/editor.rs:437-445 | the current buffer is redone; the result says whether anything was, and then the cursor goes to the end |
| EditorModel.Revert | src/editor.rs:447-455 | the current buffer is reverted; the result is true exactly when it had actions to revert |
| EditorModel.UndoRedraw | src/editor.rs:427-455 | after an undo, redo or revert the new buffer is shown, with the cursor at its end when something changed |
| EditorModel.InsertThenUndoRestores | src/editor.rs:427-435 | inserting at the cursor and then undoing restores the text and the recorded actions (with the corrected undo of the Findings row src/buffer.rs:41) |
| EditorModel.UndoAfterRemove | src/editor.rs:427-435 | undoing a removal restores the text and the recorded actions |
| EditorModel.InsertUndoRedoReplays | src/editor.rs:437-445 | insert, undo, redo leaves the text with the insertion and nothing left to redo |
| EditorModel.InsertThenDeleteBeforeRestores | src/editor.rs:754-762 | typing a character and deleting it with backspace restores the text and the cursor |
| EditorModel.Search | src/editor.rs:394-417 | starting a search builds the index of entries containing the new line's text and takes the direction; continuing one steps through the index, wrapping at either end; the search is then on, on the new line |
| EditorModel.SearchStepBack | src/editor.rs:398-413 | a step in one direction followed by a step in the other returns to the same place in the index |
| EditorModel.UpPlace | src/editor.rs:633-670 | the entry `move_up` recalls, and the subset and place, are within the history |
| EditorModel.DownPlace | src/editor.rs:673-700 | the entry `move_down` recalls, and the subset and place, are within the history |
| EditorModel.Recall | src/editor.rs:666-669 | the recalled entry (or the new line) becomes the text shown, with the cursor at its end; the new line is kept |
| EditorModel.MoveUp | src/editor.rs:633-670 | in a search it steps the search back; otherwise it recalls the older entry `UpPlace` chooses, or stays on the new line |
| EditorModel.MoveDown | src/editor.rs:673-700 | in a search it steps the search forward; otherwise it recalls the newer entry `DownPlace` chooses, or returns to the new line |
| EditorModel.UpThenDownReturns | src/editor.rs:633-700 | with an empty new line, up then down returns to the same history place (unless already at the oldest entry) |
| EditorModel.DownThenUpReturns | src/editor.rs:633-700 | with an empty new line on a history entry, down then up returns to it |
| EditorModel.SubsetWalkReturns | src/editor.rs:639-689 | with text on the new line, up recalls only entries containing it, and down after up returns to the same entry and place |
| EditorModel.MoveToStartOfHistory | src/editor.rs:703-715 | with history, the oldest entry is recalled with the cursor at its end; without, the new line stays |
| EditorModel.MoveToEndOfHistory | src/editor.rs:718-727 | the new line is shown again, with the cursor at its end if an entry had been recalled |
| EditorModel.Clear | src/editor.rs:624-630 | the search ends and the text is kept |
| EditorModel.AcceptAutosuggestion | src/editor.rs:891-906 | a suggestion becomes the text; without one the buffer is kept; the search ends and the cursor goes to the end |
| EditorModel.HandleNewline | src/editor.rs:319-344 | a search accepts its match and ends; a shown hint is dropped and the line is not done; a text ending in a backslash gets a newline and is not done; otherwise the line is done with the cursor at its end |
| EditorModel.NextLine | src/editor.rs:330-336 | a newline is appended to the text |
| EditorModel.LineDone | src/editor.rs:337-343 | the text is kept and the cursor goes to its end |
| EditorModel.SearchEnded | src/editor.rs:321-324 | the search ends, its match becoming the text when there was one |
| EditorModel.ToText | src/editor.rs:1216-1230 | the line returned is the text being edited, as exported, or the new line's when no entry is recalled |
| EditorModel.Initial | src/editor.rs:244-269 | the fields as first set: the initial text on the new line, the cursor at 0 |
| EditorModel.Opened | src/editor.rs:211-276 | a new editor holds the prompt, the history and the width, shows the initial text with the cursor at its end, on the new line, with no search, no hint and no no-eol mode |
| EditorModel.WordReplaced | src/editor.rs:612-621 | deleting the word before the cursor and inserting a text puts the text in place of the word, with the cursor after it |
| EditorModel.CycleCompletion | src/editor.rs:518-531 | a shown hint moves its highlight to the next candidate, wrapping; when the text is the highlighted candidate it becomes the next one |
| EditorModel.CycleReplacesWord | src/editor.rs:521-528 | otherwise (including the first Tab after the hint appears) the word before the cursor is replaced by the next candidate and the cursor follows it |
| EditorModel.CycleAfterDelete | src/editor.rs:521-528 | that branch is `delete_word_before_cursor(false)` followed by inserting the candidate |
| EditorModel.ClearForNext | src/editor.rs:518-527 | the hint is taken; when the text is the highlighted candidate it is cleared with the cursor at 0 |
| EditorModel.FreshCompletion | src/editor.rs:537-581 | the candidates for the word before the cursor, sorted and without repeats: none leaves the text; one is inserted; several either extend the word by their common prefix or are shown as a hint, the text kept |
| EditorModel.Offered | src/editor.rs:552-581 | the same decision for given candidates: none changes nothing, one or an extending prefix leaves no hint, otherwise the hint shows them |
| EditorModel.ExtendedOrShown | src/editor.rs:560-581 | several candidates: their common prefix replaces the word when it extends it, otherwise they are shown |
| EditorModel.Complete | src/editor.rs:515-582 | completion keeps the state valid, the settings and the history |
| EditorModel.CompletionReplacesWord | src/editor.rs:556-559 | a single candidate replaces the word before the cursor |
| EditorModel.CompletionExtendsWord | src/editor.rs:561-574 | several candidates whose common prefix extends the word replace it by that prefix |
| EditorModel.Prepare | src/editor.rs:1180-1187 | the first half of `display` keeps the state well formed |
| EditorModel.SetCur | src/editor.rs:168-182 | the buffer `cur_buf!` names is replaced and the place in the history kept |
| EditorModel.NoCopyPending | src/editor.rs:168-182 | between operations the buffer `cur_buf_mut!` hands out is the one shown, with the same text |
| EditorModel.Commit | src/editor.rs:1180-1189 | an edit followed by `display` restores every invariant, keeps the history and the settings, and leaves the edited buffer with the cursor clamped to it |
| EditorModel.Redisplay | src/editor.rs:1180-1189 | `display` between operations keeps the buffers and clamps the cursor |
| EditorModel.Moved | src/editor.rs:848-855 | a cursor move followed by a redraw keeps the buffers and puts the cursor at the place, clamped |
| EditorModel.HintDropped | src/editor.rs:511-513 | dropping the completion hint keeps every invariant |
| EditorModel.WithHint | src/editor.rs:537-581 | setting a hint within its bounds keeps the buffers and every invariant |
| EditorModel.TouchedValid | src/editor.rs:168-182 | marking the text changed keeps every invariant, the buffer shown and the hint |
| EditorText.WordBeforeCursor | src/editor.rs:584-605 | the word found is one of the buffer's words, non-empty, within the text and starting before the cursor |
| EditorText.WordToComplete | src/editor.rs:537-544 | the text of the word before the cursor, or empty when there is none |
| EditorText.WordAroundCursor | src/editor.rs:584-605 | without skipping space, a word is found exactly when the cursor is inside a word or at its right edge, and the cursor is then within it |
| EditorText.LastWordStartedBefore | src/editor.rs:584-605 | skipping space, a word is found exactly when some word starts before the cursor, and it is the last such word |
| EditorText.LastWordFound | src/editor.rs:588-602 | skipping space, a word is found exactly when some word starts before the cursor |
| EditorText.LastWordIsLast | src/editor.rs:588-602 | skipping space, no word starting before the cursor starts after the one found |
| EditorText.WordDeleted | src/editor.rs:612-621 | deleting the word before the cursor never moves the cursor right |
| EditorText.RemovedText | src/buffer.rs:465-501 | a removal within the text cuts exactly `[start, min(end, len))` and shortens the text by that much; an empty or out-of-range one changes nothing |
| EditorText.WordDeletedShape | src/editor.rs:612-621 | with no word nothing changes; otherwise the text from the word's start to the cursor is cut and the cursor goes to the word's start |
| EditorText.InsertThenDeleteBefore | src/editor.rs:742-762 | inserting a character at the cursor and removing the one before the moved cursor restores the text |
| EditorText.DeleteUntilRemovesBetween | src/editor.rs:794-817 | `delete_until` cuts the text between the cursor and the position; the inclusive form also cuts the character at the larger end |
| EditorText.LeftRightReturns | src/editor.rs:821-845 | moving left by a count the cursor allows and then right by it returns the cursor |
| EditorText.SubsetContainsTerm | src/editor.rs:646-653 | every index `get_history_subset` gives is an entry that contains the text |
| EditorText.HistoryWalkReturns | src/editor.rs:657-694 | with an empty line, up and down stay within the history, and each undoes the other (up from the oldest entry stays put; down from the newest returns to the new line) |
| EditorText.SubsetUp | src/editor.rs:639-656 | the place in the subset stays within the subset |
| EditorText.SubsetDown | src/editor.rs:678-689 | the place in the subset stays within the subset |
| EditorText.SubsetWalk | src/editor.rs:639-689 | with text, up recalls only entries containing it, and down after up returns to the same place |
| EditorText.SearchEntry | src/editor.rs:346-349 | the searched entry is one of the subset's |
| EditorText.FirstAtLeast | src/editor.rs:368-377 | the first place from `k` whose entry is at least the target, none when there is none |
| EditorText.RefreshedLoc | src/editor.rs:361-381 | a place is chosen exactly when the index is non-empty, and it is within the index |
| EditorText.SelectLoc | src/editor.rs:361-381 | the loop of `refresh_search` chooses the place `RefreshedLoc` describes |
| EditorText.RefreshKeepsPlace | src/editor.rs:367-377 | a refreshed search stays on the entry it was on when that entry still matches; otherwise forward lands on the first later match and backward on the last earlier one |
| EditorText.SearchStep | src/editor.rs:399-413 | a step keeps a place within the index, and none stays none |
| EditorText.SearchStepsCancel | src/editor.rs:399-413 | a step forward and a step back cancel, and the steps wrap at both ends |
| EditorText.BelowTotal | src/editor.rs:547 | the string order used to sort candidates is a strict total order |
| EditorText.BelowTransitive | src/editor.rs:547 | the string order is transitive |
| EditorText.InsertSorted | src/editor.rs:547-548 | inserting into a sorted list without repeats keeps it so and adds exactly the element |
| EditorText.SortedUnique | src/editor.rs:546-548 | sorting and removing repeats gives a sorted list without repeats of exactly the same candidates |
| EditorText.SortedIsStrict | src/editor.rs:547-548 | in the sorted list every candidate is strictly below the ones after it |
| EditorText.NextHighlight | src/editor.rs:519 | the next highlight is a candidate's index |
| EditorText.NextHighlightCycles | src/editor.rs:519 | the first Tab highlights the first candidate; then the highlight moves one on and wraps after the last |
| EditorText.CommonPrefix | src/util.rs:9-43 | the common prefix of two texts is a prefix of both |
| EditorText.CommonPrefixIsLongest | src/util.rs:9-43 | every common prefix of two texts is a prefix of it |
| EditorText.LongestCommonPrefixIsLongest | src/util.rs:9-43 | the longest common prefix of the candidates is common to all, and every common prefix is a prefix of it |
| EditorText.FoundIsLongest | src/util.rs:9-43 | a common prefix at least as long as every other is the longest common prefix |
| EditorText.ExtendByLongest | src/editor.rs:568-574 | the word can be extended exactly when the common prefix is longer and starts with it |
| EditorText.ReplaceWordShape | src/editor.rs:556-559 | deleting the word before the cursor and inserting a text puts the text in its place, with the cursor after it |
| EditorText.MaxWordSize | src/editor.rs:467 | at least 1, and no candidate is longer |
| EditorText.ColumnWidth | src/editor.rs:469 | a column is at least 2 wide |
| EditorText.Columns | src/editor.rs:468-470 | there is at least one column |
| EditorText.RowFits | src/editor.rs:467-470 | when a column fits, the columns fit the terminal |
| EditorText.PrintCompletionList | src/editor.rs:457-509 | the loop writes the candidates as the grid `GridFrom` describes, and returns the source's line count `len / cols` |
| EditorText.GridStep | src/editor.rs:474-506 | one candidate of the grid: a row break when the row is full, then its padded cell |
| EditorText.BreaksCount | src/editor.rs:474-506 | the row breaks the grid writes are counted in closed form |
| EditorText.RowsAreCeiling | src/editor.rs:474-506 | the grid takes `ceil(len / cols)` rows |
| EditorText.CompletionLinesOvercount | src/editor.rs:472 | for ["ab", "cd"] at width 8 the grid is one row, but the source counts two |
| EditorText.CompletionLines | src/editor.rs:1116-1120 | the rows the grid of a shown hint takes, none without a hint |
| EditorText.CompletionLinesAgreeUnlessFull | src/editor.rs:1118 | the source's count agrees with the rows drawn exactly when the last row is not full |
| EditorText.RowCountAgrees | src/editor.rs:472 | `1 + n / cols` equals the row count exactly when `cols` does not divide `n` |
| EditorText.Digit | src/editor.rs:951-960 | a digit is a decimal digit character |
| EditorText.Decimal | src/editor.rs:951-960 | the number as it is formatted: at least one decimal digit |
| EditorText.DecimalRoundTrip | src/editor.rs:951-960 | reading the formatted number back gives the number |
| EditorText.SearchHead | src/editor.rs:951-952 | `(search)'` after the prefix adds 9 columns |
| EditorText.SearchTail | src/editor.rs:951-960 | the tail of the search prompt has the length of its parts and separators |
| EditorText.PlainPrefixKept | src/util.rs:52-78 | text without ESC before the rest passes through the escape stripper unchanged |
| EditorText.ColorDropped | src/editor.rs:941-946 | the colour codes of the search prompt are stripped completely |
| EditorText.SearchPromptWidth | src/editor.rs:938-963 | the width of the search prompt is the prefix, the text, the place, the count, the suffix and the fixed characters, the colours counting for nothing |
| EditorText.ColoredWidth | src/editor.rs:951-960 | a coloured text inside the prompt counts only its characters |
| Editors.CommonPrefixOf | src/editor.rs:561-566 | the candidates' longest common prefix when it is non-empty, none when it is empty |
| Editors.LeftOf | src/editor.rs:821-826 | the cursor moved left by the count, stopping at 0 |
| Editors.RightOf | src/editor.rs:833-841 | the cursor moved right by the count, stopping at the end |
| Editors.Clamped | src/editor.rs:848-853 | the position clamped to the text's length |
| Editors.Editor.constructor | src/editor.rs:211-276 | the new editor's state is `EditorModel.Opened`: the prompt's last line, the history, the initial text with the cursor at its end, and a first redraw |
| Editors.Editor.Searching | src/editor.rs:287-289 | true exactly when a search in either direction is on |
| Editors.Editor.Line | src/editor.rs:880-882 | the text `cur_buf!` designates: the history copy once made, the new line otherwise |
| Editors.Editor.CurBufMut | src/editor.rs:168-182 | the buffer `cur_buf_mut!` hands out, after the copy-on-write step `EditorModel.Touched` describes; the history itself is never written |
| Editors.Editor.ClearSearch | src/editor.rs:291-296 | both search directions end and the index and place are cleared |
| Editors.Editor.RefreshSearch | src/editor.rs:358-388 | the search index is rebuilt and the place chosen as `EditorModel.Refresh` describes |
| Editors.Editor.CurrentAutosuggestion | src/editor.rs:911-931 | the suggestion `EditorModel.Autosuggestion` gives, whose meaning `EditorModel.AutosuggestionMeaning` states |
| Editors.Editor.Display | src/editor.rs:1180-1189 | the redraw as `EditorModel.Redraw`, whose effect `EditorModel.RedrawValid` states |
| Editors.Editor.NextSearchLoc | src/editor.rs:399-413 | the next place in the search index, as `EditorText.SearchStep` |
| Editors.Editor.OlderPlace | src/editor.rs:639-664 | the entry and subset place `move_up` picks, as `EditorModel.UpPlace` |
| Editors.Editor.NewerPlace | src/editor.rs:678-694 | the entry and subset place `move_down` picks, as `EditorModel.DownPlace` |
| Editors.Editor.InsertCharsAfterCursor | src/editor.rs:742-750 | the state moves as `EditorModel.InsertChars`: the characters go in at the cursor, which moves past them |
| Editors.Editor.DeleteBeforeCursor | src/editor.rs:754-762 | as `EditorModel.DeleteBefore`: backspace, nothing at the start |
| Editors.Editor.DeleteAfterCursor | src/editor.rs:766-775 | as `EditorModel.DeleteAfter`: the character under the cursor goes, nothing at the end |
| Editors.Editor.DeleteUnderCursor | src/editor.rs:769-772 | with the cursor before the end, the branch of `delete_after_cursor` that removes the character under it |
| Editors.Editor.DeleteAllBeforeCursor | src/editor.rs:778-782 | as `EditorModel.DeleteAllBefore` |
| Editors.Editor.DeleteAllAfterCursor | src/editor.rs:785-791 | as `EditorModel.DeleteAllAfter` |
| Editors.Editor.DeleteUntil | src/editor.rs:794-804 | as `EditorModel.DeleteUntil` |
| Editors.Editor.DeleteUntilInclusive | src/editor.rs:807-817 | as `EditorModel.DeleteUntilInclusive` |
| Editors.Editor.DeleteWordBeforeCursor | src/editor.rs:612-621 | as `EditorModel.DeleteWord` |
| Editors.Editor.MoveCursorLeft | src/editor.rs:821-829 | as `EditorModel.MoveLeft` |
| Editors.Editor.MoveCursorRight | src/editor.rs:833-845 | as `EditorModel.MoveRight` |
| Editors.Editor.MoveCursorTo | src/editor.rs:848-855 | as `EditorModel.MoveTo` |
| Editors.Editor.MoveCursorToStartOfLine | src/editor.rs:858-861 | as `EditorModel.MoveToStart` |
| Editors.Editor.MoveCursorToEndOfLine | src/editor.rs:864-867 | as `EditorModel.MoveToEnd` |
| Editors.Editor.CursorIsAtEndOfLine | src/editor.rs:869-876 | the answer `EditorModel.AtEndOfLine` gives |
| Editors.Editor.Undo | src/editor.rs:427-435 | as `EditorModel.Undo`, returning whether anything was undone |
| Editors.Editor.Redo | src/editor.rs:437-445 | as `EditorModel.Redo`, returning whether anything was redone |
| Editors.Editor.Revert | src/editor.rs:447-455 | as `EditorModel.Revert`, returning whether there was anything to revert |
| Editors.Editor.Search | src/editor.rs:394-417 | as `EditorModel.Search` |
| Editors.Editor.Recall | src/editor.rs:666-669 | the chosen entry is shown through a fresh copy, as `EditorModel.Recall` |
| Editors.Editor.MoveUp | src/editor.rs:633-670 | as `EditorModel.MoveUp` |
| Editors.Editor.MoveDown | src/editor.rs:673-700 | as `EditorModel.MoveDown` |
| Editors.Editor.MoveToStartOfHistory | src/editor.rs:703-715 | as `EditorModel.MoveToStartOfHistory` |
| Editors.Editor.MoveToEndOfHistory | src/editor.rs:718-727 | as `EditorModel.MoveToEndOfHistory` |
| Editors.Editor.Clear | src/editor.rs:624-630 | as `EditorModel.Clear`: the recorded cursor row goes back to 1 and the search ends |
| Editors.Editor.AcceptAutosuggestion | src/editor.rs:891-906 | as `EditorModel.AcceptAutosuggestion` |
| Editors.Editor.HandleNewline | src/editor.rs:319-344 | as `EditorModel.HandleNewline`, returning whether the line is done |
| Editors.Editor.Complete | src/editor.rs:515-582 | as `EditorModel.Complete`: cycling a shown hint, or offering fresh candidates |
| Editors.Editor.CycleCompletions | src/editor.rs:518-531 | as `EditorModel.CycleCompletion` |
| Editors.Editor.CompleteFresh | src/editor.rs:537-581 | as `EditorModel.FreshCompletion` |
| Editors.Editor.GetWordsAndCursorPosition | src/editor.rs:303-308 | the words of the text being edited and the cursor's position among them |
| Editors.Editor.SkipCompletionsHint | src/editor.rs:511-513 | the hint is dropped and nothing else changes |
| Editors.Editor.IntoString | src/editor.rs:1216-1230 | the line as `EditorModel.ToText` gives it |
| Editors.RemoveFrom | src/buffer.rs:271-276 | `remove` on one buffer changes its value as `Buffers.Removed` and returns how many characters went |
| Editors.Editor.FirstDisplay | src/editor.rs:271-275 | the end of `new_with_init_buffer` leaves the editor in the opened state: cursor at the end of a non-empty initial text, then a redraw |
| Editors.Editor.PrepareDisplay | src/editor.rs:1180-1189 | the first half of `display`: a changed search is refreshed and the suggestion recomputed, as `EditorModel.Prepare` |
| Editors.Editor.MeasureDisplay | src/editor.rs:1066-1132 | `_display` clamps the cursor to the text and records the terminal row of the cursor, as `EditorModel.Measure` |
| Editors.Editor.EditInsert | src/editor.rs:742-746 | an insertion into the buffer `cur_buf_mut!` hands out, the copy made first when needed |
| Editors.Editor.EditRemove | src/editor.rs:756-758 | a removal from that buffer, returning how many characters went |
| Editors.Editor.InsertAndPlace | src/editor.rs:742-750 | the characters go in at the cursor and the cursor moves past them |
| Editors.Editor.RemoveOneBefore | src/editor.rs:755-760 | the character before the cursor goes and the cursor moves back over it |
| Editors.Editor.RemoveAndPlace | src/editor.rs:794-803 | a span goes and the cursor is put where the span started |
| Editors.Editor.RemoveBeforeCursor | src/editor.rs:616-619 | the text from `start` up to the cursor goes and the cursor moves back by what went |
| Editors.Editor.EditTruncate | src/editor.rs:785-789 | `truncate` on the buffer being edited |
| Editors.Editor.EditPush | src/editor.rs:331-333 | `push` on the buffer being edited |
| Editors.Editor.EditStartGroup | src/editor.rs:886-889 | `start_undo_group` on the buffer being edited |
| Editors.Editor.EditEndGroup | src/editor.rs:886-889 | `end_undo_group` on the buffer being edited |
| Editors.Editor.EditUndo | src/editor.rs:428 | `undo` on the buffer being edited, reporting whether anything was undone |
| Editors.Editor.EditRedo | src/editor.rs:438 | `redo` on the buffer being edited, reporting whether anything was redone |
| Editors.Editor.EditRevert | src/editor.rs:448 | `revert` on the buffer being edited, reporting whether there was anything to revert |
| Editors.Editor.EditAccept | src/editor.rs:892-902 | the suggestion copied in during a search, its rest appended otherwise |
| Editors.Editor.DeleteFoundWord | src/editor.rs:616-620 | with the word found or not, as `EditorModel.DeleteWordAt` |
| Editors.Editor.DeleteWordSpan | src/editor.rs:617-620 | the word before the cursor removed up to the cursor, as `EditorModel.DeleteWordAt` |
| Editors.Editor.StepSearch | src/editor.rs:398-415 | a search under way moves to its next match, if it has any, as `EditorModel.Search` |
| Editors.Editor.GoTo | src/editor.rs:665-667 | the copy dropped, the entry at the new place taken and copied for editing |
| Editors.Editor.Leave | src/editor.rs:637 | the copy dropped and the place in the history set; nothing else changes |
| Editors.Editor.SetSubset | src/editor.rs:646-653 | the matching entries and the place among them set; nothing else changes |
| Editors.Editor.NewlineOutOfSearch | src/editor.rs:325-343 | a shown hint is dropped, a line ending in a backslash goes on, any other is done, as `EditorModel.Newline` |
| Editors.Editor.EndSearch | src/editor.rs:321-324 | a search's suggestion accepted and the search ended, as `EditorModel.SearchEnded` |
| Editors.Editor.ContinueLine | src/editor.rs:331-336 | a newline pushed, the cursor after it, and a redraw, as `EditorModel.NextLine` |
| Editors.Editor.SetCursor | src/editor.rs:338 | the cursor put at a place; nothing else changes |
| Editors.Editor.FinishLine | src/editor.rs:337-342 | the cursor at the end and the line drawn once more, as `EditorModel.LineDone` |
| Editors.Editor.ClearCandidate | src/editor.rs:521-528 | the whole text cleared when it is exactly the highlighted candidate, else the word before the cursor deleted, as `EditorModel.ClearForNext` |
| Editors.Editor.DropHint | src/editor.rs:518 | the hint taken away; nothing else changes |
| Editors.Editor.OfferCompletions | src/editor.rs:556-581 | no candidates leave the text, one replaces the word, several extend it by their common prefix or are shown, as `EditorModel.Offered` |
| Editors.Editor.ReplaceWithSole | src/editor.rs:560-563 | a sole candidate replaces the word before the cursor |
| Editors.Editor.ExtendOrShow | src/editor.rs:564-581 | several candidates: the longest common prefix replaces the word when it extends it, otherwise they are shown |
| Editors.Editor.ExtendWord | src/editor.rs:574-575 | the word replaced by the common prefix that extends it |
| Editors.Editor.ShowCandidates | src/editor.rs:579-580 | the candidates shown as the hint, none highlighted |
| Editors.Editor.ShowHint | src/editor.rs:579-580 | the hint set and the line drawn again |
| Editors.Editor.ClearLine | src/editor.rs:523-524 | the whole text cut and the cursor put at its start |
| Editors.Editor.ReplaceWord | src/editor.rs:526-529 | the word before the cursor replaced by a candidate |
| EmacsKeymap.WordIndex | src/keymap/emacs.rs:156-174 | the word chosen from the cursor's position is one of the words |
| EmacsKeymap.WordTarget | src/keymap/emacs.rs:153-188 | the cursor goes to the start or the end of one of the words, or stays |
| EmacsKeymap.PositionIndexes | src/cursor.rs:26-50 | the indices in the cursor's position name existing words |
| EmacsKeymap.Increasing | src/editor_rules.rs:41-71 | the words are non-empty, strictly ordered and apart |
| EmacsKeymap.BackwardTarget | src/keymap/emacs.rs:153-188 | Alt-b moves exactly when some word starts at or before the cursor; it lands on the start of the last such word, and moves strictly left when a word starts before the cursor |
| EmacsKeymap.ForwardTarget | src/keymap/emacs.rs:153-188 | Alt-f moves exactly when some word ends at or after the cursor; it lands on the end of the first such word, and moves strictly right when a word ends after the cursor |
| EmacsKeymap.MoveWord | src/keymap/emacs.rs:153-188 | the text is kept and the cursor goes to the target `WordTarget` gives, or nothing changes |
| EmacsKeymap.MoveWordOn | src/keymap/emacs.rs:153-188 | on the editor, the state moves as `MoveWord` |
| EmacsKeymap.LastArgFetch | src/keymap/emacs.rs:76-109 | with no history, or after fetching from the oldest entry, nothing changes; otherwise the next older entry is used (the newest, or the recalled one, the first time) and the index it records names it |
| EmacsKeymap.FetchEntry | src/keymap/emacs.rs:82-88 | the entry fetched: one before the last fetched, or the recalled entry, or the newest |
| EmacsKeymap.DropLastArg | src/keymap/emacs.rs:92-97 | the last argument fetched before is deleted from the text; with no last argument nothing changes |
| EmacsKeymap.ArgStart | src/keymap/emacs.rs:93-95 | the last argument ends the text |
| EmacsKeymap.DroppedAtEnd | src/keymap/emacs.rs:92-97 | with the cursor at the end, the text is cut before the last argument and the cursor goes to the new end |
| EmacsKeymap.InsertLastArg | src/keymap/emacs.rs:100-103 | the entry's last argument is inserted at the cursor; an entry without one changes nothing |
| EmacsKeymap.FirstFetch | src/keymap/emacs.rs:76-109 | the first Alt-. on the new line, at the end, appends the newest entry's last argument and records that entry |
| EmacsKeymap.FirstFetchSteps | src/keymap/emacs.rs:82-106 | the first fetch on the new line takes the newest entry and inserts its last argument |
| EmacsKeymap.FetchReplacesFetch | src/keymap/emacs.rs:76-109 | a second Alt-. replaces the argument the first one inserted by the last argument of the next older entry |
| EmacsKeymap.SecondFetch | src/keymap/emacs.rs:82-106 | after a fetch that inserted an argument, the next one removes it and inserts the older entry's, moving the index back one |
| EmacsKeymap.ArgOf | src/keymap/emacs.rs:101-103 | the entry's last argument, empty when it has none |
| EmacsKeymap.FetchAgain | src/keymap/emacs.rs:82-106 | a repeated fetch drops the previous argument and inserts the one of the entry before |
| EmacsKeymap.AppendedAtEnd | src/keymap/emacs.rs:100-103 | at the end of the text the argument is appended and the cursor follows it |
| EmacsKeymap.DropAppended | src/keymap/emacs.rs:92-97 | an argument appended after a space or at the start is removed whole |
| EmacsKeymap.CtrlKey | src/keymap/emacs.rs:36-58 | every Ctrl key keeps the state valid; keys with no binding change nothing |
| EmacsKeymap.CtrlMove | src/keymap/emacs.rs:38-45 | Ctrl-a goes to the start, Ctrl-e to the end, Ctrl-l ends the search, none of them changing the text |
| EmacsKeymap.CtrlEdit | src/keymap/emacs.rs:43-55 | Ctrl-u cuts before the cursor, Ctrl-k after it, Ctrl-d the character under it |
| EmacsKeymap.UndoKey | src/keymap/emacs.rs:49-55 | Ctrl-x undoes as the editor's undo does |
| EmacsKeymap.AltKey | src/keymap/emacs.rs:60-74 | only Alt-. changes the fetch index |
| EmacsKeymap.AltEdit | src/keymap/emacs.rs:61-73 | Alt-f and Alt-b keep the text, Alt-r reverts the buffer, unbound Alt keys change nothing |
| EmacsKeymap.SpecialKey | src/keymap/emacs.rs:130-141 | Esc, Null and unbound keys change nothing |
| EmacsKeymap.SpecialMove | src/keymap/emacs.rs:131-136 | Home goes to the start, Left and Right move one step, clamped, text kept |
| EmacsKeymap.SpecialDelete | src/keymap/emacs.rs:137-138 | Backspace removes the character before the cursor, Delete the one under it |
| EmacsKeymap.Core | src/keymap/emacs.rs:117-144 | every key keeps the state valid; every key other than Alt-. forgets the fetch index |
| EmacsKeymap.Plain | src/keymap/emacs.rs:123-142 | a plain character is inserted at the cursor |
| EmacsKeymap.OnKey | src/keymap/mod.rs:23-63 | the line is done exactly on Enter when `handle_newline` says so; Ctrl-c fails with Interrupted, Ctrl-d on an empty line with end of file; Ctrl-h is Backspace |
| EmacsKeymap.OnKeyRoutes | src/keymap/mod.rs:23-63 | the key is handled as `RouteKey` routes it: by the shared keys, or by the Emacs keymap with the hint dropped |
| EmacsKeymap.Emacs.constructor | src/keymap/emacs.rs:32-34 | a new keymap has no fetch index |
| EmacsKeymap.Emacs.Init | src/keymap/emacs.rs:113-115 | `init` forgets the fetch index |
| EmacsKeymap.Emacs.HandleKey | src/keymap/mod.rs:23-63 | editor, fetch index and outcome move as `OnKey` |
| EmacsKeymap.Emacs.HandleKeyCore | src/keymap/emacs.rs:117-144 | as `Core` |
| EmacsKeymap.Emacs.HandleCtrlKey | src/keymap/emacs.rs:36-58 | as `CtrlKey` |
| EmacsKeymap.Emacs.HandleAltKey | src/keymap/emacs.rs:60-74 | as `AltKey` |
| EmacsKeymap.Emacs.HandleLastArgFetch | src/keymap/emacs.rs:76-109 | as `LastArgFetch` |
| EmacsKeymap.Emacs.HandleSpecialKey | src/keymap/emacs.rs:130-141 | as `SpecialKey` |
| EmacsKeymap.DropLastArgOn | src/keymap/emacs.rs:92-97 | on the editor, the state moves as `DropLastArg` |
| EmacsKeymap.InsertLastArgOn | src/keymap/emacs.rs:100-103 | on the editor, the state moves as `InsertLastArg` |
| EmacsKeymap.CtrlMoveOn | src/keymap/emacs.rs:38-45 | on the editor, the state moves as `CtrlMove` |
| EmacsKeymap.CtrlEditOn | src/keymap/emacs.rs:43-55 | on the editor, the state moves as `CtrlEdit` |
| EmacsKeymap.UndoKeyOn | src/keymap/emacs.rs:49-55 | on the editor, the state moves as `UndoKey` |
| EmacsKeymap.AltEditOn | src/keymap/emacs.rs:61-73 | on the editor, the state moves as `AltEdit` |
| EmacsKeymap.SpecialMoveOn | src/keymap/emacs.rs:131-136 | on the editor, the state moves as `SpecialMove` |
| EmacsKeymap.Emacs.KeymapRoute | src/keymap/mod.rs:57-60 | a key for the keymap runs `handle_key_core` and drops the completion hint, as `OnKey` |
| EmacsKeymap.Emacs.SharedRoute | src/keymap/mod.rs:29-56 | the keys every keymap shares, handled by the editor as `OnKey` |
| EmacsKeymap.Emacs.ToKeymapOn | src/keymap/mod.rs:57-60 | `handle_key_core` followed by dropping the hint, as `Core` |
| EmacsKeymap.Emacs.PlainOn | src/keymap/emacs.rs:123-142 | on the editor, the state moves as `Plain` |
| ViMotions.MoveCursor | src/keymap/vi.rs:117-131 | a step right moves exactly when the cursor is not at `max`, a step left exactly when it is not at 0; a step moves by one and stays within `max`, a refused step leaves the cursor |
| ViMotions.AdvanceAndGoBack | src/keymap/vi.rs:106-115 | `advance` steps toward its own direction and `go_back` the other way: each moves by one exactly when not blocked (at `max` going right, at 0 going left), a blocked step leaves the cursor, and neither leaves `[0, max]` |
| ViMotions.GoBackUndoesAdvance | src/keymap/vi.rs:106-115 | after a step that moved, `go_back` moves back to where it started |
| ViMotions.WordScan | src/keymap/vi.rs:179-201 | the scan of one word motion stays within the text, and runs off the end only going right |
| ViMotions.MoveWord | src/keymap/vi.rs:155-205 | `count` word motions stay within the text |
| ViMotions.ViMoveWord | src/keymap/vi.rs:155-205 | the loop of `vi_move_word` ends where `MoveWord` says |
| ViMotions.WordScanStops | src/keymap/vi.rs:179-201 | a scan moves only in its direction and stops at the end of the text, at 0 going left, or on a word boundary of the mode |
| ViMotions.MoveWordLands | src/keymap/vi.rs:155-205 | `w`, `W`, `ge`, `gE` move only in their direction, zero motions stay put, and otherwise they land on a word boundary of the mode, at the end, or at 0 going left; `MoveWordAndBack` replays these motions on a concrete line |
| ViMotions.EndScan | src/keymap/vi.rs:241-278 | the scan of one word-end motion stays within the text, and runs off the end only going right |
| ViMotions.MoveWordEnd | src/keymap/vi.rs:223-282 | `count` word-end motions stay within the text |
| ViMotions.ViMoveWordEnd | src/keymap/vi.rs:223-282 | the loop of `vi_move_word_end` ends where `MoveWordEnd` says |
| ViMotions.EndScanStops | src/keymap/vi.rs:241-278 | a scan moves only in its direction and stops at either end of the text or on the last character before a word boundary of the mode |
| ViMotions.MoveWordEndLands | src/keymap/vi.rs:223-282 | `e`, `E`, `b`, `B` move only in their direction and land at an end of the text or on the character before a word boundary of the mode |
| ViMotions.OccurrencesSnoc | src/keymap/vi.rs:286-291 | counting a character over one more position adds one exactly when it is that character |
| ViMotions.FindChar | src/keymap/vi.rs:284-292 | the position found from `start` holds the character and has `count - 1` of them before it; none when there are fewer than `count` |
| ViMotions.FindCharRev | src/keymap/vi.rs:294-304 | the position found before `start` holds the character and has `count - 1` of them between it and `start`; none when there are fewer than `count` |
| ViMotions.FindCharExamples | src/keymap/vi.rs:3541-3628 | the eight cases of `test_find_char*` and `test_find_char_rev*` |
| ViMotions.ForwardWordStops | src/keymap/vi.rs:2765-2775 | on "here are some... words", single `w` motions from the start stop at 5, 9, 13, 17 and 22 |
| ViMotions.BackWordStops | src/keymap/vi.rs:2777-2786 | single `b` motions from the end of the same line stop at 17, 13, 9, 5 and 0 |
| ViMotions.ForwardBlankWordStops | src/keymap/vi.rs:2788-2796 | single `W` motions from the start stop at 5, 9, 17 and 22, skipping the punctuation boundary at 13 |
| ViMotions.BackBlankWordStops | src/keymap/vi.rs:2798-2805 | single `B` motions from the end stop at 17, 9, 5 and 0 |
| ViMotions.MoveWordAndBack | src/keymap/vi.rs:2747-2806 | in both modes each `w`/`W` stop, taken backwards with `b`/`B`, returns to the stop before it, so the backward motions retrace the forward ones |
| ViMotions.CountedForwardWord | src/keymap/vi.rs:2824-2828 | `3w` from the start reaches 13 and `2w` from there reaches the end, 22 |
| ViMotions.CountedBackWord | src/keymap/vi.rs:2830-2833 | `2b` from the end reaches 13 and `3b` from there reaches 0 |
| ViMotions.CountedForwardBlankWord | src/keymap/vi.rs:2835-2839 | `2W` from the start reaches 9 and `2W` from there reaches 22 |
| ViMotions.CountedBackBlankWord | src/keymap/vi.rs:2841-2844 | `2B` from the end reaches 9 and `2B` from there reaches 0 |
| ViMotions.MoveWordAndBackWithCount | src/keymap/vi.rs:2809-2845 | the counted motions of the test: a count of n lands where n single motions land, in both directions and both modes |
| ViModel.Current | src/keymap/vi.rs:46-49 | an empty stack is normal mode and, on a stack that never holds normal mode, only an empty one; a stack kept by the keymap is never in `~` mode |
| ViModel.Popped | src/keymap/vi.rs:60-62 | popping keeps a stack free of normal mode and of `~` mode |
| ViModel.StackLaws | src/keymap/vi.rs:38-63 | a pop undoes a push and the mode is the one pushed; popping an empty stack changes nothing and reads normal mode; a push of a mode other than normal leaves a non-empty stack free of normal mode |
| ViModel.SatMul | src/keymap/vi.rs:890 | the `u32` product saturates at the largest `u32` |
| ViModel.SatAdd | src/keymap/vi.rs:765 | the `u32` sum saturates at the largest `u32` |
| ViModel.DigitValue | src/keymap/vi.rs:764 | a digit's value is at most 9 |
| ViModel.PushDigit | src/keymap/vi.rs:762-767 | typing a digit makes the count ten times itself plus the digit, saturated at the largest `u32` |
| ViModel.MoveCount | src/keymap/vi.rs:447-453 | a count of 0 moves once, any other count moves that many times |
| ViModel.Combined | src/keymap/vi.rs:884-892 | the count of a `d`/`c` movement is the other count when one is 0 and otherwise their product, saturated |
| ViModel.NewViInv | src/keymap/vi.rs:326-341 | `Vi::new` starts in insert mode with the keymap's invariant holding and the text unchanged by the opening undo group |
| ViModel.GroupStart | src/keymap/vi.rs:370-372 | opening an undo group keeps the text, the cursor and the history and marks the group in the buffer |
| ViModel.GroupEnd | src/keymap/vi.rs:431-433 | closing an undo group keeps the text, the cursor and the history and closes the group in the buffer |
| ViModel.NoEolValid | src/keymap/vi.rs:366 | switching the no-eol mode keeps the editor valid, its settings and its text |
| ViModel.CommonKey | src/keymap/vi.rs:492-510 | the keys every mode shares keep the editor valid and its history; any other key changes nothing |
| ViModel.PushMode | src/keymap/vi.rs:363-373 | entering a mode other than normal pushes it, leaves no-eol mode, keeps the text and the cursor, and records whether a movement ends the insert |
| ViModel.SetMode | src/keymap/vi.rs:354-361 | entering a mode keeps the invariant, makes it the current mode over the old stack, and keeps the text, the cursor and the count |
| ViModel.SetModePreserveLast | src/keymap/vi.rs:363-373 | the same, without forgetting the last command |
| ViModel.PopEd | src/keymap/vi.rs:424-439 | leaving a mode keeps the text, sets no-eol mode exactly when back in normal mode, and moves the cursor only when leaving `~` |
| ViModel.PopMode | src/keymap/vi.rs:424-439 | `pop_mode` pops the stack, keeps the text, is in no-eol mode exactly when the stack is empty, and keeps the invariant |
| ViModel.NormalModeAbort | src/keymap/vi.rs:441-445 | aborting empties the stack, clears the count, enters no-eol mode and changes nothing else in the editor |
| ViModel.MovementPops | src/keymap/vi.rs:382-390 | after a movement the stack stays well formed, and a pending delete popped is the mode left or the one below it |
| ViModel.AfterMovementVi | src/keymap/vi.rs:392-419 | a movement keeps the recorded character search |
| ViModel.AfterMovementEd | src/keymap/vi.rs:392-410 | after a movement the editor is in no-eol mode exactly when back in normal mode, and text and cursor change only when a pending delete is carried out |
| ViModel.PopModeAfterMovement | src/keymap/vi.rs:375-421 | `pop_mode_after_movement` keeps the invariant and the editor's settings |
| ViModel.CountLeft | src/keymap/vi.rs:456-458 | a leftward count never passes the start of the line |
| ViModel.CountRight | src/keymap/vi.rs:461-466 | a rightward count never passes the end of the line, and is the full count exactly when the line is long enough |
| ViModel.CountEnd | src/keymap/vi.rs:621-628 | the end of a counted span lies between the cursor and the end of the line |
| ViModel.Motion | src/keymap/vi.rs:687-771 | `h`, `l`, `k`, `j`, `0` and `$` keep the editor valid and its history |
| ViModel.WordTarget | src/keymap/vi.rs:723-752 | a word motion lands within the line |
| ViModel.MotionKey | src/keymap/vi.rs:687-771 | every movement of normal mode keeps the invariant and the editor's settings |
| ViModel.CharTarget | src/keymap/vi.rs:940-959 | `;` repeats the recorded search, `,` repeats it reversed, and a character starts a new search; nothing recorded is ever a repeat |
| ViModel.CharPlace | src/keymap/vi.rs:969-1000 | a character search lands within the line |
| ViModel.MoveToCharKey | src/keymap/vi.rs:928-1008 | `handle_key_move_to_char` keeps the invariant and the editor's settings |
| ViModel.GKey | src/keymap/vi.rs:1011-1036 | `g` followed by any key keeps the invariant and the settings and clears the count |
| ViModel.OverwrittenStep | src/keymap/vi.rs:854-857 | overwriting one character and then the rest is overwriting them all |
| ViModel.ReplaceStep | src/keymap/vi.rs:855-856 | one delete-and-insert replaces the character under the cursor and steps past it |
| ViModel.ReplaceLoop | src/keymap/vi.rs:854-857 | the loop overwrites `n` characters from the cursor and ends after them |
| ViModel.ReplaceKey | src/keymap/vi.rs:836-873 | `handle_key_replace` keeps the invariant and the settings and clears the count |
| ViModel.Replaced | src/keymap/vi.rs:844-861 | a replacement with enough characters keeps the mode stack and the count |
| ViModel.ReplacedBy | src/keymap/vi.rs:853-860 | `r` overwrites `n` characters and leaves the cursor on the last one |
| ViModel.RecasedOne | src/keymap/vi.rs:793-807 | recasing one character changes only that one, and a character without case stays |
| ViModel.TildeStep | src/keymap/vi.rs:792-808 | one step of `~` recases the character under the cursor, keeps the length and steps past it |
| ViModel.Retyped | src/keymap/vi.rs:794-803 | a cased character is deleted and typed again in the other case |
| ViModel.StepOver | src/keymap/vi.rs:804-806 | a character without case is stepped over |
| ViModel.RecasedStep | src/keymap/vi.rs:792-808 | recasing one character and then the rest is recasing them all |
| ViModel.TildeLoop | src/keymap/vi.rs:792-808 | the loop recases `n` characters from the cursor and ends after them |
| ViModel.TildeKey | src/keymap/vi.rs:784-810 | `~` keeps the invariant and the settings |
| ViModel.UndoTimes | src/keymap/vi.rs:811-820 | repeated undo keeps the editor valid and its history |
| ViModel.RedoTimes | src/keymap/vi.rs:821-831 | repeated redo keeps the editor valid and its history |
| ViModel.InsertCommand | src/keymap/vi.rs:601-629 | `i`, `a`, `A`, `I` and `s` enter insert mode and keep the invariant |
| ViModel.DeleteCommand | src/keymap/vi.rs:634-653 | `d` and `c` wait for a movement from the cursor, keeping the text and moving the count to the secondary count |
| ViModel.DeleteAllCommand | src/keymap/vi.rs:654-674 | `D` and `C` keep the text before the cursor only and clear the count |
| ViModel.CutCommand | src/keymap/vi.rs:772-783 | `x` removes the counted characters after the cursor, up to the end of the line |
| ViModel.NormalOther | src/keymap/vi.rs:596-629 | every key of normal mode but `.` keeps the invariant and the settings |
| ViModel.NormalEdit | src/keymap/vi.rs:630-653 | the same for `r`, `d`, `c` and the keys after them |
| ViModel.NormalChange | src/keymap/vi.rs:654-704 | the same for `D`, `C`, the movements and the keys after them |
| ViModel.NormalRest | src/keymap/vi.rs:705-722 | the same for `t`, `T`, `f`, `F`, `;`, `,` and the keys after them |
| ViModel.NormalCount | src/keymap/vi.rs:753-767 | the same for `g`, the digits and the keys after them |
| ViModel.NormalEditing | src/keymap/vi.rs:772-832 | the same for `x`, `~`, `u`, Ctrl-r and the shared keys |
| ViModel.DeleteOrChange | src/keymap/vi.rs:875-926 | `handle_key_delete_or_change` keeps the invariant and the settings |
| ViModel.DeleteMovement | src/keymap/vi.rs:882-898 | the movement after `d` or `c` runs under the combined count and keeps the invariant |
| ViModel.DeleteLine | src/keymap/vi.rs:902-920 | `dd` and `cc` keep the invariant and the settings |
| ViModel.InsertReset | src/keymap/vi.rs:536-543 | a key typed after a movement keeps the text, the cursor and the stack and ends the movement |
| ViModel.InsertTyped | src/keymap/vi.rs:535-559 | a character typed in insert mode is inserted at the cursor |
| ViModel.InsertRecall | src/keymap/vi.rs:567-582 | Up and Down in insert mode keep the invariant and the settings |
| ViModel.InsertMoved | src/keymap/vi.rs:561-566 | Left, Right, Home and End in insert mode keep the keymap's invariant and the editor's settings |
| ViModel.InsertOther | src/keymap/vi.rs:535-583 | every insert-mode key but Esc keeps the invariant and the settings |
| ViModel.InsertUntyped | src/keymap/vi.rs:560-583 | arrows, Home, End, Up and Down and the shared keys keep the invariant and the settings; a shared key leaves the vi state as it was |
| ViModel.HandleKeyCore | src/keymap/vi.rs:1045-1060 | `handle_key_core` keeps the invariant and the settings in every mode |
| ViModel.PendingKey | src/keymap/vi.rs:1053-1058 | the modes waiting for a key keep the invariant and the settings |
| ViModel.NormalKey | src/keymap/vi.rs:587-833 | `handle_key_normal` keeps the invariant and the settings |
| ViModel.RepeatLast | src/keymap/vi.rs:675-686 | `.` keeps the invariant, the settings and the recorded command |
| ViModel.RepeatRun | src/keymap/vi.rs:468-490 | replaying the recorded insert key, keys and Esc keeps the invariant and the settings |
| ViModel.ReplayRecorded | src/keymap/vi.rs:474-486 | the same for the replay as a whole |
| ViModel.ReplayKeys | src/keymap/vi.rs:477-479 | handling keys in turn keeps the invariant and the settings |
| ViModel.InsertKey | src/keymap/vi.rs:512-585 | `handle_key_insert` keeps the invariant and the settings |
| ViModel.InsertEsc | src/keymap/vi.rs:518-534 | Esc in insert mode keeps the invariant and the settings and clears the count |
| ViModel.Replays | src/keymap/vi.rs:522 | a counted insert is replayed one time fewer than its count |
| ViModel.EscLoop | src/keymap/vi.rs:522-527 | the replays of a counted insert keep the invariant and the settings |
| ViModel.ReplayOnce | src/keymap/vi.rs:523-526 | one replay keeps the invariant and the settings |
| ViModel.OnKey | src/keymap/mod.rs:23-63 | a key with the vi keymap keeps the invariant and the settings, ends the line exactly on an accepted Enter, is interrupted exactly on Ctrl-c, and ends the input exactly on Ctrl-d at an empty line |
| ViProperties.Run | src/keymap/vi.rs:1045-1060 | handling any sequence of keys keeps the keymap's invariant and the editor's settings |
| ViProperties.ModesStayWellFormed | src/keymap/vi.rs:313-345 | from `Vi::new`, after any keys, the stack never holds normal mode and the editor is in no-eol mode exactly in normal mode |
| ViProperties.EscLeavesInsert | src/keymap/vi.rs:518-534 | Esc in insert mode without a count returns to normal mode, keeps the text and moves the cursor one left unless at the start |
| ViProperties.DigitExtendsCount | src/keymap/vi.rs:762-767 | a digit in normal mode (a `0` only after another digit) extends the saturated count and changes nothing else |
| ViProperties.DigitDispatch | src/keymap/vi.rs:758-767 | a digit that is not a leading `0` goes to the count |
| ViProperties.NormalOtherMotion | src/keymap/vi.rs:723-752 | the word motions of normal mode are movements |
| ViProperties.NormalOtherRest | src/keymap/vi.rs:705-722 | a character that is no movement, no insert and no `r`, `d`, `c`, `D`, `C` or `.` reaches the search keys |
| ViProperties.WordMotionMoves | src/keymap/vi.rs:723-752 | a word motion in normal mode keeps the text, clears the count and puts the cursor on the motion's target as normal mode shows it |
| ViProperties.WordForwardLandsOnWordStart | src/keymap/vi.rs:723-727 | `w` in normal mode ends on the start of a word, or on the last character when no word follows |
| ViProperties.WordStartShown | src/keymap/vi.rs:155-205 | the target of `w`, shown in normal mode, is the start of a word or the last character |
| ViProperties.MovementDeletes | src/keymap/vi.rs:392-410 | a movement that ends a pending delete removes the text between where it started and the cursor, and records the command for `.` |
| ViProperties.MovementEnds | src/keymap/vi.rs:375-421 | a movement that ends a search returns to normal mode with text and cursor kept and the search recorded |
| ViProperties.NormalDispatch | src/keymap/vi.rs:1051 | in normal mode every key but `.` goes to the normal-mode handler |
| ViProperties.DeleteStarts | src/keymap/vi.rs:634-653 | `d` waits for a movement from the cursor with no count, the command `d` recorded and the text kept |
| ViProperties.DeleteDispatch | src/keymap/vi.rs:882-898 | a word motion after `d` or `c` runs under the combined count with the key recorded |
| ViProperties.WordTargetOfW | src/keymap/vi.rs:139-141 | `w` is one keyword word motion to the right |
| ViProperties.DeleteThroughWord | src/keymap/vi.rs:2867-2885 | `w` after `d` deletes from the cursor to the start of the next word and returns to normal mode |
| ViProperties.WordInDelete | src/keymap/vi.rs:723-727 | after `d`, `w` moves to the next word start and then ends the movement |
| ViProperties.DeleteWordEnds | src/keymap/vi.rs:392-410 | ending that movement deletes up to the next word start |
| ViProperties.DeleteWord | src/keymap/vi.rs:2867-2885 | `dw` in normal mode deletes from the cursor to the start of the next word, the mirror of `delete_word` |
| ViProperties.FindStarts | src/keymap/vi.rs:713-716 | `f` waits for a character, keeping the count, the text and the cursor |
| ViProperties.SearchDispatch | src/keymap/vi.rs:1055 | a key while waiting for a search character goes to the search handler |
| ViProperties.CharKeyMoves | src/keymap/vi.rs:928-1008 | a search character records the search, moves to the place found, if any, and ends the movement |
| ViProperties.FindPlace | src/keymap/vi.rs:979-984 | `f` searches after the cursor and lands on the character sought |
| ViProperties.FindLands | src/keymap/vi.rs:979-984 | the character after `f` lands on its `count`-th occurrence after the cursor, or stays when there are fewer |
| ViProperties.FindEnds | src/keymap/vi.rs:928-1008 | the same for the search handler itself |
| ViProperties.FindForward | src/keymap/vi.rs:3403-3419 | `f` and a character move to its `count`-th occurrence after the cursor in normal mode, the mirror of `test_f_movement` |
| ViProperties.RepeatSearchWithoutSearch | src/keymap/vi.rs:949-953 | `;` with no search recorded aborts to normal mode and leaves the editor alone |
| ViProperties.ReverseSearchIsReversed | src/keymap/vi.rs:944-947 | `,` repeats the recorded search the other way; reversing twice is the same search and reversing swaps inclusive and exclusive |
| ViProperties.ReplaceChars | src/keymap/vi.rs:836-873 | `r` and a character overwrite `count` characters and leave the cursor on the last, or change nothing when the line is too short |
| ViProperties.TypedCharInserted | src/keymap/vi.rs:535-546 | a character in insert mode is inserted at the cursor and recorded for `.`, after a movement in a new command |
| ViKeymap.GroupStartOn | src/keymap/vi.rs:370-372 | opens an undo group on the editor in place, as `ViModel.GroupStart` |
| ViKeymap.GroupEndOn | src/keymap/vi.rs:431-433 | closes the undo group on the editor in place, as `ViModel.GroupEnd` |
| ViKeymap.CommonKeyOn | src/keymap/vi.rs:492-510 | the shared keys on the editor in place, as `ViModel.CommonKey` |
| ViKeymap.SetNoEolOn | src/keymap/vi.rs:366 | sets the no-eol mode and changes nothing else |
| ViKeymap.RedisplayOn | src/keymap/vi.rs:435-437 | the redisplay after `~` changes nothing of the line |
| ViKeymap.PopEdOn | src/keymap/vi.rs:424-439 | the editor's side of `pop_mode`, as `ViModel.PopEd` |
| ViKeymap.MotionOn | src/keymap/vi.rs:687-771 | `h`, `l`, `k`, `j`, `0` and `$` on the editor in place, as `ViModel.Motion` |
| ViKeymap.CharMoveOn | src/keymap/vi.rs:969-1000 | moves the cursor to the place a character search finds, or leaves it |
| ViKeymap.WordMotionOn | src/keymap/vi.rs:723-752 | moves the cursor to the word motion's target |
| ViKeymap.ReplaceStepOn | src/keymap/vi.rs:855-856 | one delete-and-insert of `r`, as `ViModel.ReplaceStep` |
| ViKeymap.TildeStepOn | src/keymap/vi.rs:793-807 | one step of `~`, as `ViModel.TildeStep` |
| ViKeymap.ReplaceLoopOn | src/keymap/vi.rs:854-857 | the loop of `r` overwrites `n` characters, as `ViModel.ReplaceLoop` |
| ViKeymap.ReplacedByOn | src/keymap/vi.rs:853-860 | the undo group, the loop and the step back of `r`, as `ViModel.ReplacedBy` |
| ViKeymap.TildeLoopOn | src/keymap/vi.rs:792-808 | the loop of `~` recases `n` characters, as `ViModel.TildeLoop` |
| ViKeymap.ReplaceLoopStep | src/keymap/vi.rs:854-857 | one turn of the `r` loop leaves the rest of the loop to do |
| ViKeymap.TildeLoopStep | src/keymap/vi.rs:792-808 | one turn of the `~` loop leaves the rest of the loop to do |
| ViKeymap.UndoTimesStep | src/keymap/vi.rs:814-818 | an undo that did something leaves the remaining undos to do |
| ViKeymap.RedoTimesStep | src/keymap/vi.rs:824-829 | a redo that did something leaves the remaining redos to do |
| ViKeymap.UndoTimesOn | src/keymap/vi.rs:811-820 | `u` undoes up to `n` times and stops at the first undo that does nothing, as `ViModel.UndoTimes` |
| ViKeymap.RedoTimesOn | src/keymap/vi.rs:821-831 | Ctrl-r redoes up to `n` times and stops at the first redo that does nothing, as `ViModel.RedoTimes` |
| ViKeymap.WordEndBackOn | src/keymap/vi.rs:1018-1025 | `ge` and `gE` move to the end of the previous word |
| ViKeymap.EntryMoveOn | src/keymap/vi.rs:606-620 | `a` steps right, `A` goes to the end, `I` to the start, `i` stays |
| ViKeymap.RegroupOn | src/keymap/vi.rs:537-538 | closes the undo group and opens a new one, keeping the line |
| ViKeymap.RecallOn | src/keymap/vi.rs:567-582 | Up or Down in insert mode, between closing and reopening the undo group |
| ViKeymap.LineDeletedOn | src/keymap/vi.rs:913-914 | `dd` goes to the start of the line and deletes all after it |
| ViKeymap.MovementEdOn | src/keymap/vi.rs:392-410 | the editor's side of `pop_mode_after_movement`, as `ViModel.AfterMovementEd` |
| ViKeymap.Vi.constructor | src/keymap/vi.rs:326-347 | `Vi::new` starts in insert mode with nothing recorded and `i` as the last insert |
| ViKeymap.Vi.Init | src/keymap/vi.rs:1040-1043 | `init` opens an undo group |
| ViKeymap.Vi.SetModePreserveLast | src/keymap/vi.rs:363-373 | as `ViModel.PushMode`, on the keymap's fields and the editor in place |
| ViKeymap.Vi.SetMode | src/keymap/vi.rs:354-361 | as `ViModel.SetMode`, in place, keeping the keymap consistent with the editor |
| ViKeymap.Vi.PopMode | src/keymap/vi.rs:424-439 | as `ViModel.PopMode`, in place |
| ViKeymap.Vi.NormalModeAbort | src/keymap/vi.rs:441-445 | as `ViModel.NormalModeAbort`, in place |
| ViKeymap.Vi.PopAfterMovement | src/keymap/vi.rs:382-419 | the keymap's side of `pop_mode_after_movement`: the modes popped, the command recorded and the counts cleared |
| ViKeymap.Vi.PopModeAfterMovement | src/keymap/vi.rs:375-421 | as `ViModel.PopModeAfterMovement`, in place |
| ViKeymap.Vi.MotionKey | src/keymap/vi.rs:687-771 | the movements of normal mode, as `ViModel.MotionKey`, in place |
| ViKeymap.Vi.TakeSearch | src/keymap/vi.rs:934-963 | takes the count and the search to run: the recorded one for `;` and `,`, the new one recorded otherwise |
| ViKeymap.Vi.MoveToCharKey | src/keymap/vi.rs:928-1008 | `handle_key_move_to_char`, as `ViModel.MoveToCharKey`, in place |
| ViKeymap.Vi.SearchMove | src/keymap/vi.rs:966-1003 | the search found, the cursor moved and the movement ended |
| ViKeymap.Vi.GKey | src/keymap/vi.rs:1011-1036 | `handle_key_g`, as `ViModel.GKey`, in place |
| ViKeymap.Vi.AppendCommand | src/keymap/vi.rs:1015 | records the key in the current command and nothing else |
| ViKeymap.Vi.ClearCount | src/keymap/vi.rs:1034 | clears the count and nothing else |
| ViKeymap.Vi.WordEndBack | src/keymap/vi.rs:1018-1025 | `ge` and `gE` move back to a word end and end the movement, inclusive |
| ViKeymap.Vi.Record | src/keymap/vi.rs:845-850 | records a command without an insert key, with the current count |
| ViKeymap.Vi.ReplaceKey | src/keymap/vi.rs:836-873 | `handle_key_replace`, as `ViModel.ReplaceKey`, in place |
| ViKeymap.Vi.ReplaceChars | src/keymap/vi.rs:842-863 | a character in replace mode, as `ViModel.Replaced` |
| ViKeymap.Vi.TildeKey | src/keymap/vi.rs:784-810 | `~`, as `ViModel.TildeKey`, in place |
| ViKeymap.Vi.TildeRun | src/keymap/vi.rs:790-808 | enters `~` mode and recases the counted characters after the cursor |
| ViKeymap.Vi.InsertCommand | src/keymap/vi.rs:601-629 | `i`, `a`, `A`, `I` and `s`, as `ViModel.InsertCommand`, in place |
| ViKeymap.Vi.SetLastInsert | src/keymap/vi.rs:602 | records the insert key and nothing else |
| ViKeymap.Vi.InsertEntry | src/keymap/vi.rs:601-629 | the cursor move of `a`, `A`, `I` and the deletion of `s` after entering insert mode |
| ViKeymap.Vi.SubstituteEntry | src/keymap/vi.rs:624-627 | `s` deletes the counted characters after the cursor and moves the count to the last count |
| ViKeymap.Vi.ConsumeCount | src/keymap/vi.rs:626-627 | moves the count to the last count |
| ViKeymap.Vi.DeleteCommand | src/keymap/vi.rs:634-653 | `d` and `c`, as `ViModel.DeleteCommand`, in place |
| ViKeymap.Vi.CountToSecondary | src/keymap/vi.rs:650-651 | moves the count to the secondary count |
| ViKeymap.Vi.DeleteStart | src/keymap/vi.rs:635-646 | `d` records itself with no insert key; `c` records `c` as the insert key and enters insert mode |
| ViKeymap.Vi.BeginCommand | src/keymap/vi.rs:635-646 | sets the current command and insert key and nothing else |
| ViKeymap.Vi.DeleteAllCommand | src/keymap/vi.rs:654-674 | `D` and `C`, as `ViModel.DeleteAllCommand`, in place |
| ViKeymap.Vi.RecordUncounted | src/keymap/vi.rs:656-660 | records the command with no insert key and clears both counts |
| ViKeymap.Vi.EnterPreservingLast | src/keymap/vi.rs:363-373 | as `ViModel.SetModePreserveLast`, in place |
| ViKeymap.Vi.CutCommand | src/keymap/vi.rs:772-783 | `x` and Delete, as `ViModel.CutCommand`, in place |
| ViKeymap.Vi.NormalOther | src/keymap/vi.rs:596-629 | as `ViModel.NormalOther`, in place |
| ViKeymap.Vi.NormalEdit | src/keymap/vi.rs:630-653 | as `ViModel.NormalEdit`, in place |
| ViKeymap.Vi.NormalChange | src/keymap/vi.rs:654-704 | as `ViModel.NormalChange`, in place |
| ViKeymap.Vi.NormalRest | src/keymap/vi.rs:705-722 | as `ViModel.NormalRest`, in place |
| ViKeymap.Vi.NormalCount | src/keymap/vi.rs:753-767 | as `ViModel.NormalCount`, in place |
| ViKeymap.Vi.UndoRedoKey | src/keymap/vi.rs:811-831 | `u` and Ctrl-r clear the count and undo or redo the counted number of times |
| ViKeymap.Vi.NormalEditing | src/keymap/vi.rs:772-832 | as `ViModel.NormalEditing`, in place |
| ViKeymap.Vi.DeleteOrChange | src/keymap/vi.rs:875-926 | `handle_key_delete_or_change`, as `ViModel.DeleteOrChange`, in place |
| ViKeymap.Vi.DeleteLine | src/keymap/vi.rs:902-920 | `dd` and `cc`, as `ViModel.DeleteLine`, in place |
| ViKeymap.Vi.DeleteMovement | src/keymap/vi.rs:882-898 | the movement after `d` or `c`, as `ViModel.DeleteMovement`, in place |
| ViKeymap.Vi.AddMovement | src/keymap/vi.rs:884-895 | combines the counts and records the movement key |
| ViKeymap.Vi.EndCommand | src/keymap/vi.rs:908-912 | records the key and clears both counts |
| ViKeymap.Vi.InsertReset | src/keymap/vi.rs:536-543 | as `ViModel.InsertReset`, in place |
| ViKeymap.Vi.InsertTyped | src/keymap/vi.rs:535-559 | as `ViModel.InsertTyped`, in place |
| ViKeymap.Vi.InsertRecall | src/keymap/vi.rs:567-582 | as `ViModel.InsertRecall`, in place |
| ViKeymap.Vi.ResetMovement | src/keymap/vi.rs:562-563 | clears the count and marks a movement |
| ViKeymap.Vi.InsertMove | src/keymap/vi.rs:561-566 | Left, Right, Home and End in insert mode mark a movement and move |
| ViKeymap.Vi.InsertOther | src/keymap/vi.rs:535-583 | as `ViModel.InsertOther`, in place |
| ViKeymap.Vi.InsertUntyped | src/keymap/vi.rs:560-583 | as `ViModel.InsertUntyped`, in place |
| ViKeymap.Vi.HandleKeyCore | src/keymap/vi.rs:1045-1060 | `handle_key_core`, as `ViModel.HandleKeyCore`, in place |
| ViKeymap.Vi.PendingKey | src/keymap/vi.rs:1053-1056 | as `ViModel.PendingKey`, in place |
| ViKeymap.Vi.NormalKey | src/keymap/vi.rs:587-833 | `handle_key_normal`, as `ViModel.NormalKey`, in place |
| ViKeymap.Vi.RepeatLast | src/keymap/vi.rs:675-686 | `.`, as `ViModel.RepeatLast`, in place |
| ViKeymap.Vi.BeginRepeat | src/keymap/vi.rs:469-470 | takes the recorded command away and keeps the count as the last count |
| ViKeymap.Vi.SetLastCommand | src/keymap/vi.rs:487 | puts the recorded command back |
| ViKeymap.Vi.RepeatRun | src/keymap/vi.rs:468-490 | `repeat`, as `ViModel.RepeatRun`, in place |
| ViKeymap.Vi.Replay | src/keymap/vi.rs:472-486 | the replay of `repeat`, as `ViModel.ReplayRecorded` |
| ViKeymap.Vi.ReplayEsc | src/keymap/vi.rs:477-486 | the keys of `repeat` and the Esc after them |
| ViKeymap.Vi.ReplayKeys | src/keymap/vi.rs:477-479 | handles the keys in turn, as `ViModel.ReplayKeys` |
| ViKeymap.Vi.InsertKey | src/keymap/vi.rs:512-585 | `handle_key_insert`, as `ViModel.InsertKey`, in place |
| ViKeymap.Vi.InsertEsc | src/keymap/vi.rs:518-534 | Esc in insert mode, as `ViModel.InsertEsc`, in place |
| ViKeymap.Vi.EscRepeats | src/keymap/vi.rs:520-529 | a counted insert is replayed `count - 1` times and the count cleared |
| ViKeymap.Vi.LeaveInsert | src/keymap/vi.rs:531-532 | steps left and leaves insert mode |
| ViKeymap.Vi.EscLoop | src/keymap/vi.rs:522-527 | the replays of a counted insert, as `ViModel.EscLoop` |
| ViKeymap.Vi.EscTurn | src/keymap/vi.rs:522-527 | one turn of that loop leaves the remaining turns to do |
| ViKeymap.Vi.EscOnce | src/keymap/vi.rs:523-526 | one replay, as `ViModel.ReplayOnce` |
| ViKeymap.Vi.HandleKey | src/keymap/mod.rs:23-63 | `handle_key` with the vi keymap, as `ViModel.OnKey`: the outcome and the new state |
| ViKeymap.Vi.KeymapRoute | src/keymap/mod.rs:57-60 | a key for the keymap runs `handle_key_core` and then drops the completion hint |
| ViKeymap.Vi.SharedRoute | src/keymap/mod.rs:29-56 | the keys every keymap shares, handled by the editor |
| ViKeymap.Vi.CoreKey | src/keymap/mod.rs:57-60 | `handle_key_core` followed by dropping the completion hint |
| ViKeymap.MoveToCharKeyIs | src/keymap/vi.rs:928-1008 | the search handler aborts when there is no search to run, and otherwise moves to the place found and ends the movement |
| ViKeymap.GKeyIs | src/keymap/vi.rs:1011-1036 | `ge` and `gE` move back to a word end and end the movement; any other key aborts; the count is cleared |
| ViKeymap.OnKeyRoutes | src/keymap/mod.rs:29-60 | a key goes either to the keymap, followed by dropping the hint, or to the editor's shared handling |
| ViKeymap.ReplayThenEsc | src/keymap/vi.rs:477-486 | the keys of `repeat` and the Esc keep the invariant |
| ViKeymap.CutCommandIs | src/keymap/vi.rs:772-783 | `x` records itself with the count, clears the count and deletes the counted characters after the cursor |
| ViKeymap.ReplayStep | src/keymap/vi.rs:477-479 | handling a list of keys is handling the first and then the rest |
| ViKeymap.EscStep | src/keymap/vi.rs:522-527 | one replay of a counted insert leaves the remaining replays to do |

## Left out

- Terminal I/O is not modelled. This covers reading keys, writing escape sequences, `flush` (src/editor.rs:419-421), `terminal_width` (a parameter here), the colour closure (`set_closure`, `use_closure`) and raw mode. `edit_line` and `select_tty` in `src/context.rs` are not part of this model. Every `io::Error` path is left out, because with I/O removed no operation can fail that way.
- The history file is not modelled: `load_history`, `commit_to_file`, `save_to_file`, compaction and `file_size` (src/history.rs:103-255, 338-345, 353-370, 484-532). Only the in-memory log is modelled.
- `FilenameCompleter` is not modelled, because it reads the file system. The completion handler is a pure function `Text -> seq<Text>` from a word to candidates, and its `on_event` hooks are left out.
- `freshen_history` (src/editor.rs:351-355) is not modelled. It only reloads the history file, which is out of scope.
- The `on_event` notifications are not modelled: `BeforeKey` and `AfterKey` (src/keymap/mod.rs:21, 65) and `BeforeComplete` (src/editor.rs:516). They are callbacks into caller code.
- `show_autosuggestions` is fixed to true, the value set at src/editor.rs:259. No code in the core assigns it again.
- The `word_divider_fn` closure the caller supplies is fixed to the default space divider `EditorRules.Words`. This affects `EditorText.WordBeforeCursor`, `Editors.Editor.GetWordsAndCursorPosition` and `EmacsKeymap.MoveWord`.
- Common.IsWhitespace and Common.IsAlphanumeric are ASCII approximations of Rust's Unicode `char::is_whitespace` and `char::is_alphanumeric`. Non-ASCII spaces, letters and digits are not classified as the source classifies them.
- Buffers.LastArg splits the text into runs of ASCII word characters (letters, digits and `_`) and single other non-whitespace characters, in place of `unicode-segmentation`'s `split_word_bounds` (src/buffer.rs:230-236). It agrees with the source on words of letters, digits and `_` separated by spaces or punctuation. It does not keep together the words UAX #29 keeps whole across punctuation, such as "can't", "3.14" or "foo.bar", where the model takes only the last run ("t", "14", "bar").
- Histories.History.At, Histories.History.GetContext, Buffers.Buffer.NumGraphemes, ViModel.IsMovementKey, ViMotions.IsViKeyword, ViMotions.Advance and ViMotions.GoBack have no contract of their own. They are the plain reads, the key and character classes and the single steps of `Index` (src/history.rs:539-545), `get_context` (src/history.rs:534-536), `num_graphemes` (src/buffer.rs:238-240), `is_movement_key` (src/keymap/vi.rs:65-91), `is_vi_keyword` (src/keymap/vi.rs:134-137), `advance` and `go_back` (src/keymap/vi.rs:106-115); `ViMotions.AdvanceAndGoBack` and `ViMotions.GoBackUndoesAdvance` state what the two steps do. What they give is stated through the contracts of the members that use them: the history scenarios, `Buffers.Buffer.IsEmpty`, the cursor methods, `ViModel.DeleteOrChange` and the word-motion lemmas (`ViMotions.WordScanStops`, `ViMotions.MoveWordLands`).
- ViModel.ToggleCase maps only ASCII letters. `to_uppercase` and `to_lowercase` on other characters are not modelled, including those that expand to several characters.
- Byte lengths are taken as grapheme counts in three places besides `Action::undo` of an insert (src/buffer.rs:41), which is a Findings row: Buffers.UndoText and Buffers.Buffer.UndoAction remove `|t|` units there, while the source removes `text.len()` bytes' worth of graphemes and so, on a multi-byte insert, also units after the inserted text (Buffers.UndoTextAsWritten). The three places are `Action::Remove`'s `text.len()` (src/buffer.rs:24-25), `complete`'s `s.len() > word.len()` (src/editor.rs:571) and the last-argument length in `handle_last_arg_fetch` (src/keymap/emacs.rs:94). The model measures all three with `|t|` over `seq<char>`. On non-ASCII text the source's byte counts differ from these lengths, and those differences are not modelled.
- `set_prompt_prefix`, `clear_prompt_prefix`, `set_prompt_suffix` and `clear_prompt_suffix` (src/editor.rs:1193-1213) are not modelled. They only assign the prompt's fields.
- The getters `current_history_location`, `cursor` and `history` (src/editor.rs:299-316) are not modelled as members. They are plain field reads.
- ViModel.HandleKeyCore and ViKeymap.Vi.HandleKeyCore bound the recursion of `.` and of a counted insert's Esc replay with a `fuel` argument, and `handle_key` passes a depth of 3 (`ReplayDepth`). A replay nested more deeply than that is cut short in the model. The source recurses without a bound.
- ViKeymap.Vi.PopModeAfterMovement updates the keymap's fields before the editor, where the source interleaves them. Neither side reads the other in that handler.
- src/editor.rs:899 calls `insert_from_buffer`, which does not exist in src/buffer.rs at this revision. It is modelled as `Buffers.InsertedFrom`: the suggestion's text past the buffer's length is appended.
- `editor.rs` and `vi.rs` call `num_chars`, `char_after` and `chars()`, which the newer `buffer.rs` no longer has. They are read as the grapheme count and the grapheme at an index. `terminal.rs` (lines 37-40) calls `char_vec_pos`, `num_graphemes` and `line_width_until`, and `term.rs` (lines 263-277) calls `width`, `num_chars`, `range_width` and `char_vec_pos`, none of which the newer `buffer.rs` or cursor has; they are read as the cursor's grapheme index, the grapheme count and the line widths of the text before the cursor. `emacs.rs` matches on `sl_console`'s `key.code` and `key.mods`; they are read as one `Key` value. It tests `ed.undo().is_some()`, read as the boolean the editor's undo returns.
- src/term.rs:265 passes `no_eol` to `pre_display_adjustment`, which src/cursor.rs:249 declares with the buffer alone. `Terms.AdjustedCopy` models the call by setting a copy's no-eol flag from that argument first.
- src/buffer.rs:345-363 calls `GraphemeIter::new` with two arguments and calls `GraphemeIter::new_bytes`. Neither matches src/grapheme_iter.rs, which declares only a four-argument `new`. The iterator is modelled as `grapheme_iter.rs` declares it.
- Buffers.Buffer.GraphemeBefore returns None at cursor 0, which is what a release build's wrap-around of `cursor - 1` gives. A debug build panics there, and that panic is not modelled.
- Buffers.Buffer.Yank, Cursors.Cursor.YankUntil, Cursors.Cursor.YankUntilInclusive and Cursors.Cursor.YankAllAfterCursor require a slice within the text. Inputs where the source's `graphemes[start..end]` panics (src/buffer.rs:419-422) are excluded rather than modelled.
- Buffers.RemoveRawOk, and with it Buffers.Buffer.Remove, Buffers.Buffer.RemoveRaw and Cursors.Cursor.DeleteUntilCursor, excludes a start past the end inside the text. That is where `drain` panics (src/buffer.rs:465-501).
- Cursors.Cursor.MoveCursorRight requires the cursor within the text. Outside it, the source's `len - curr` underflows.
- Cursors.Cursor.IsAtEndOfLine requires a non-empty text in no-eol mode. The source's `len - 1` underflows there.
- Terminals.Terminal.Display requires measurements whose cursor row is not below the last row. The source reaches `unreachable!()` in that case, which `Terminals.ValidPlaceable` shows consistent measurements never do.
- ViMotions.FindCharRev requires `start <= len`. The source's `num_chars - start` underflows past that, and every caller passes the cursor, which is within the text.
- EditorModel.AtEndOfLine is the corrected `cursor_is_at_end_of_line`. The code as written is `EditorModel.AtEndOfLineAsWritten`, listed under Findings.

## Findings

| source | as written | input that shows it | evidently intended | confidence | as-written member | corrected member |
|---|---|---|---|---|---|---|
| src/buffer.rs:158-185 | `undo` resets its count of undone actions at every EndGroup, so an empty group nested at the start of a group lets it run past the group | insert "a", then a group holding an empty group and then the insertion of "b"; one `undo` removes both "b" and "a" | one `undo` reverts exactly the last group, leaving "a" | not executed | Buffers.UndoOvershootsAsWritten | Buffers.Buffer.Undo |
| src/buffer.rs:187-214 | `redo` resets its count of redone actions at every StartGroup, so an empty group nested at the end of a group lets it run on past the group | a group holding the insertion of "a" and an empty group, then the insertion of "b", both undone; one `redo` redoes both | one `redo` replays exactly the group undone last | not executed | Buffers.RedoOvershootsAsWritten | Buffers.Buffer.Redo |
| src/buffer.rs:313-320 | `insert_str` records `Insert { start }` even when `start` is past the end, where the text was appended; the undo removes at `start` | on "xy", `insert_str(5, "ab")` then `undo` leaves "xyab" | the undo removes what was appended and restores "xy" | not executed | BufferScenarios.InsertPastEndThenUndoAsWritten | BufferScenarios.InsertPastEndThenUndo |
| src/buffer.rs:288-305 | `insert_register_around_idx` records `Insert { start: idx }` even when `idx` is past the end, where the register was appended; the undo removes at `idx` | on "xy" with the register "ab", `insert_register_around_idx(5, 1, false)` then `undo` leaves "xyab" | the undo removes what was pasted and restores "xy" | not executed | BufferScenarios.PastePastEndThenUndoAsWritten | BufferScenarios.PastePastEndThenUndo |
| src/buffer.rs:41 | `Action::undo` of an insert removes up to `start + text.len()`; `text.len()` is the byte length of the inserted text, but `remove_raw` reads the end as a grapheme index | on "ab", `insert_str(0, "é")` gives "éab"; `undo` then removes graphemes [0, 2) and leaves "b" | the undo removes exactly the inserted graphemes and restores "ab" | not executed | BufferScenarios.MultiByteInsertThenUndoAsWritten | BufferScenarios.MultiByteInsertThenUndo |
| src/grapheme_iter.rs:88-111 | `next()` compares `curr` with `back as usize`; a `back` of -1 reads as the largest usize, so an iterator emptied from the back yields again | the text "012" + U+0924 U+0947 + "345" (grapheme offsets 0, 1, 2, 3, 9, 10, 11) on the range [0, 1): one `next_back()` yields "0" and leaves `curr` 0 and `back` -1, then `next()` yields "0" a second time | `next()` returns None once the range is empty | not executed | GraphemeIters.NextAfterBackExhaustedRepeats | GraphemeIters.GraphemeIter.Next |
| src/grapheme_iter.rs:60-72 | `get(idx)` on the last grapheme of a range that ends before the data runs to the end of the data | range `[0, 6)` of "012" + U+0924 U+0947 + "345": `get(5)` gives "45" | `get(5)` gives "4", the grapheme at 5 | not executed | GraphemeIters.GetLastOfShortRange | GraphemeIters.GraphemeIter.Get |
| src/grapheme_iter.rs:41-58 | `slice()` indexes `offsets[min]` even when the range is empty at the end | the empty range `[7, 7)` over seven offsets panics | the empty slice | not executed | GraphemeIters.SliceOfEmptyEndRange | GraphemeIters.GraphemeIter.Slice |
| src/editor.rs:1118 | the completion list's height is `1 +` the `len / cols` that `print_completion_list` returns (src/editor.rs:472), one too many when the last row is full | candidates "ab" and "cd" at width 8 share one row, but the count is 2 | the rows the list takes, `ceil(len / cols)` | not executed | EditorText.CompletionLinesOvercount | EditorText.CompletionLines |
| src/editor.rs:869-876 | `cursor_is_at_end_of_line` computes `num_chars - 1` in no-eol mode, which underflows on an empty line; whether `handle_key` can reach it there, behind its autosuggestion guard, is not established | vi normal mode on an empty line | false: an empty line has no last character to sit on | not executed; reachability low | EditorModel.AtEndOfLineAsWritten | EditorModel.AtEndOfLine |
