# Minitel stream and page memory

This project models two parts of a Minitel (videotex) page editor and proves
properties of them.

- **`Minitel.Stream`** is a queue of integer Minitel protocol codes.
  - `push` accepts numbers, one-character strings, other streams and nested iterables of these. Numbers go through `_pushValue`, which substitutes entries of the special-characters table and drops codes above 0x7f.
  - `shift` and `pop` take codes off either end.
  - Two passes build a compacted copy of a stream holding one screen row:
    - `trimRow` cuts the row after its last displayable position.
    - `optimizeRow` replaces runs of one character by the repeat code (0x12, 0x40 + n) and drops every escape pair that does not change the foreground, the background or separation.
- **`PageMemory`** is the editor's screen.
  - It is a rows-by-cols grid of cells and a cursor.
  - `scroll` moves rows up or down and brings in a blank row.
  - `render` puts the status mark on row 0 and draws every cell. Zone attributes (background, mask, underline) are carried from left to right along each row.
  - Drawing is modelled as a trace of events: `Fill(x, y, colour)` for a background and `Glyph(page, value, x, y, part, mult, fg, underline)` for a `writeChar`.

Files:

- `wrappers.dfy`: `Option`.
- `stream.dfy` (module `Minitel`):
  - the specification functions of push, trimRow and optimizeRow;
  - the `Stream` class, whose methods are proved against those functions.
- `streamlemmas.dfy` (module `StreamLemmas`): properties of the stream functions. The main one is that optimizeRow's output reads the same as its input under a reference decoder.
- `pagememory.dfy` (module `Screen`):
  - the cell datatype;
  - the specification functions of scroll and of the render trace;
  - the `PageMemory` class.
- `screenlemmas.dfy` (module `ScreenLemmas`): properties of scrolling, of the zone attributes and of the layout of the render trace.

Two behaviours of the code are easy to misread, and the model follows the code in both:

- A run of five identical characters becomes `[c, 0x12, 0x44]`: the character itself and then four repeats. It is never `[0x12, 0x45]`, because the first character of a run is always emitted as itself.
- Every cell that is not a character cell sets the zone background, delimiters as well as mosaics.

## Model

| member | source | states |
|---|---|---|
| Minitel.PushedCodes | library/minitel/stream.js:68-80 | defines what `_pushValue` appends: the table's codes for a key, nothing above 0x7f, otherwise the code itself |
| Minitel.Encode | library/minitel/stream.js:44-61 | defines what `push` appends for each branch of its type dispatch |
| Minitel.EncodeAll | library/minitel/stream.js:53-55 | defines what pushing each element of an iterable in turn appends |
| Minitel.Codes | library/minitel/stream.js:123 | an array of numbers as `push` receives it |
| Minitel.At | library/minitel/stream.js:119 | an array read that gives `undefined` past the end |
| Minitel.NextTrim | library/minitel/stream.js:106-119 | defines the next position trimRow's loop examines: one on, two after 0x12, and past the argument of an escape or of 0x1f |
| Minitel.MarkAt | library/minitel/stream.js:107-116 | defines the value examining a position leaves in `lastChar`: the position for a code ≥ 0x20, the count byte's position after 0x12 |
| Minitel.Trimmed | library/minitel/stream.js:122-123 | defines trimRow's result: the first `TrimCut` items pushed into a new stream |
| Minitel.Classify | library/minitel/stream.js:142-156 | defines which branch of optimizeRow's chain a position takes, first test first, with a read past the end as `undefined` |
| Minitel.Flush | library/minitel/stream.js:158-165 | defines the mid-row flush: nothing, the character for one repeat, or `[0x12, 0x40 + count]` |
| Minitel.FinalFlush | library/minitel/stream.js:194 | defines the end-of-row flush: `[0x12, 0x40 + count]` whenever a run is pending |
| Minitel.Emitted | library/minitel/stream.js:167-190 | defines what optimizeRow pushes for each branch after any flush |
| Minitel.After | library/minitel/stream.js:164-187 | defines the locals after a branch: a change ends the run and sets its attribute, the same character lengthens the run |
| Minitel.IsChange | library/minitel/stream.js:156 | defines `anyChange`: a move right, a colour or separation change, or a new character |
| Minitel.Step | library/minitel/stream.js:156-190 | defines one pass of optimizeRow's loop: the flush before a change, the branch's codes and the new locals |
| Minitel.NextOptimize | library/minitel/stream.js:192 | defines the next position optimizeRow examines: an escape takes its argument along |
| Minitel.OptimizeFrom | library/minitel/stream.js:141-194 | defines what optimizeRow emits from a position and state to the end of the row, final flush included |
| Minitel.OptimizeOnto | library/minitel/stream.js:141-194 | `OptimizeFrom` with the output so far carried along, as the loop builds it |
| Minitel.Optimized | library/minitel/stream.js:133-194 | defines optimizeRow's result: `OptimizeFrom` from the start, white on black, not separated, no character |
| Minitel.LastFrom | library/minitel/stream.js:105-120 | trimRow's `lastChar` never decreases along the scan, and a changed value lies at or after the current position |
| Minitel.TrimCut | library/minitel/stream.js:123 | `slice(0, lastChar + 1)` never keeps more than the row holds |
| Minitel.OptimizeOntoAppends | library/minitel/stream.js:140-194 | optimizeRow's output so far, followed by what the rest of the row emits, is the whole optimized row; this is the loop invariant of `OptimizeRow` |
| Minitel.Stream.constructor | library/minitel/stream.js:24-26 | a new stream is empty with length 0 |
| Minitel.Stream.Reset | library/minitel/stream.js:31-38 | reset empties the items and sets length to 0 |
| Minitel.Stream.Push | library/minitel/stream.js:44-61 | a null item changes nothing; any other item appends exactly its encoding and resynchronises `length` with the item count; the stream invariant is kept |
| Minitel.Stream.PushValue | library/minitel/stream.js:68-80 | a table key appends its mapped codes, even above 0x7f; otherwise a code above 0x7f is dropped and any other code is appended once; `length` is not touched |
| Minitel.Stream.Shift | library/minitel/stream.js:85-88 | removes and returns the first code, `None` when empty; `length` always drops by one |
| Minitel.Stream.Pop | library/minitel/stream.js:93-96 | removes and returns the last code, `None` when empty; `length` always drops by one |
| Minitel.Stream.TrimRow | library/minitel/stream.js:104-126 | returns a new stream whose items are the pushed prefix up to the cut, with length equal to its item count; the source stream is untouched |
| Minitel.Stream.PushEvent | library/minitel/stream.js:158-190 | one pass of the loop appends the flush of a pending run (before a change only) followed by the event's codes |
| Minitel.Stream.OptimizeRow | library/minitel/stream.js:133-197 | returns a new stream whose items are exactly `Optimized` of the row; the source stream is untouched |
| StreamLemmas.EncodeAllAppend | library/minitel/stream.js:53-55 | pushing an iterable is pushing each element in turn: the encodings of two sequences concatenate |
| StreamLemmas.EncodeCodesPlain | library/minitel/stream.js:53-58 | an array of codes that are at most 0x7f and not in the table is pushed unchanged |
| StreamLemmas.PushedCodesBounded | library/minitel/stream.js:68-80 | `_pushValue` appends only codes up to 0x7f when the table maps only to such codes |
| StreamLemmas.EncodePair | library/minitel/stream.js:53-58 | pushing a two-number array appends the pushed codes of both numbers, in order |
| StreamLemmas.VisitsAfter | library/minitel/stream.js:106-120 | trimRow examines positions in increasing order, all inside the row |
| StreamLemmas.VisitsSpaced | library/minitel/stream.js:106-120 | two examined positions are at least one loop step apart |
| StreamLemmas.ArgumentsSkipped | library/minitel/stream.js:118-119 | the byte after an escape and the two bytes after 0x1f are never examined, so never count as content |
| StreamLemmas.LastWithoutMarks | library/minitel/stream.js:105-120 | where no examined position is a displayable code or a repeat, `lastChar` keeps its value |
| StreamLemmas.LastIsGreatestMark | library/minitel/stream.js:105-120 | `lastChar` ends as the greatest mark over the examined positions: none marks past it, and it is a mark or its starting value |
| StreamLemmas.TrimCutIsGreatestMark | library/minitel/stream.js:104-124 | every examined displayable code or repeat count lies before the cut, and a non-empty cut ends just after one of them |
| StreamLemmas.TrimAllControl | library/minitel/stream.js:104-125 | a row of control codes without a repeat trims to the empty stream |
| StreamLemmas.LastOfPrefix | library/minitel/stream.js:104-123 | scanning a prefix gives the same `lastChar` as the whole row when nothing marked lies after it |
| StreamLemmas.TrimIdempotent | library/minitel/stream.js:104-126 | trimming a plain row keeps a prefix of it, and trimming the result again changes nothing |
| StreamLemmas.FlushShows | library/minitel/stream.js:158-165 | a mid-row flush reads as that many repeats of the run's character |
| StreamLemmas.FinalFlushShows | library/minitel/stream.js:194 | the end-of-row flush reads as the pending repeats |
| StreamLemmas.EscapeShows | library/minitel/stream.js:169-180 | an emitted escape pair reads as setting its attribute |
| StreamLemmas.CodeShows | library/minitel/stream.js:181-184 | an emitted single code reads as a move right or as that character |
| StreamLemmas.EmittedShows | library/minitel/stream.js:167-184 | what is emitted for a flushing event reads as the position it came from |
| StreamLemmas.ChangeShows | library/minitel/stream.js:156-184 | a flush followed by a change reads as the pending repeats and then the position |
| StreamLemmas.SameCharShows | library/minitel/stream.js:185-187 | the run's character once more only lengthens the pending run |
| StreamLemmas.IgnoredShows | library/minitel/stream.js:188-192 | a dropped escape pair changes nothing that is shown |
| StreamLemmas.StepKeepsPlain | library/minitel/stream.js:141-192 | one pass of the loop keeps the row plain from the next position on, the run within 63 and the run's character displayable |
| StreamLemmas.StepShows | library/minitel/stream.js:156-192 | one pass of the loop, whichever branch it takes, reads as the pending run and the position it examined |
| StreamLemmas.OptimizeFromShows | library/minitel/stream.js:141-194 | from any position, the emitted codes read as the pending run followed by what the rest of the input reads as |
| StreamLemmas.OptimizePreservesDisplay | library/minitel/stream.js:133-197 | the optimized row reads exactly as the input row, from the row's initial attributes |
| StreamLemmas.FlushCodes | library/minitel/stream.js:158-194 | mid-row, a run of one flushes as the character and a longer run as `[0x12, 0x40 + count]`; at the end of the row, even a run of one flushes as a repeat |
| StreamLemmas.IdleEscapeDropped | library/minitel/stream.js:143-192 | an escape that does not change the foreground, background or separation (an idle colour or separation code, or any other argument), or that ends the row, is dropped with its argument, and the run stays pending |
| StreamLemmas.OtherEscapeDropped | library/minitel/stream.js:143-192 | an escape whose argument is not a colour or separation code (size, blink, polarity, masking) is always dropped with its argument |
| StreamLemmas.ChangingEscapeKept | library/minitel/stream.js:143-180 | an escape that changes an attribute flushes the run, is emitted with its argument and updates the state |
| StreamLemmas.ControlCopied | library/minitel/stream.js:188-190 | a control code other than 0x09 and escape is copied where it stands without flushing the run |
| StreamLemmas.RunContinues | library/minitel/stream.js:185-187 | a remainder repeating the run's character only lengthens the run, flushed at the end |
| StreamLemmas.RunCompacts | library/minitel/stream.js:154-194 | n copies of a displayable code become the code alone (n = 1) or the code and a repeat of n - 1 |
| Screen.ScrolledUp | app/page-memory.js:77-84 | defines the rows after scrolling up: row 2 leaves, the rows after it move up, the blank row enters last |
| Screen.ScrolledDown | app/page-memory.js:86-93 | defines the rows after scrolling down: the last row leaves, rows 1 on move down, the blank row enters at 1 |
| Screen.Entered | app/page-memory.js:150-151 | defines the zone as a cell is drawn: a non-character cell sets the background, a mosaic ends underlining |
| Screen.ZoneAfter | app/page-memory.js:180-183 | defines the zone after a cell: a delimiter sets whichever of mask and underline it defines |
| Screen.ZoneBefore | app/page-memory.js:139-183 | defines the zone before a column: black, unmasked, not underlined at the start of the row, then cell by cell |
| Screen.ZoneAt | app/page-memory.js:146-151 | defines the zone a cell is drawn in |
| Screen.Back | app/page-memory.js:154 | defines the fill colour: the cell's foreground when inverted, the zone background otherwise |
| Screen.Front | app/page-memory.js:153 | defines the glyph colour: the zone background when inverted, the cell's foreground otherwise |
| Screen.CellDraws | app/page-memory.js:153-178 | defines one cell's draw calls: the fill, then the G0 or G1 glyph unless masked |
| Screen.RowDraws | app/page-memory.js:144-184 | defines one row's draw calls, cell after cell at x = column × width |
| Screen.FrameDraws | app/page-memory.js:138-185 | defines the frame's draw calls, row after row at y = row × height |
| Screen.PageMemory.BlankRow | app/page-memory.js:71-74 | a row of `cols` fresh mosaic cells |
| Screen.PageMemory.StatusMark | app/page-memory.js:123-125 | a fresh character cell with value 0x46 and inverted, its other fields as a fresh character cell has them |
| Screen.PageMemory.constructor | app/page-memory.js:21-35 | with `blank` a mosaic cell and `blankText` a character cell, every one of the rows × cols cells is the fresh mosaic cell, so of kind mosaic, and the cursor is hidden at (0, 1) |
| Screen.PageMemory.Scroll | app/page-memory.js:68-95 | 'up' and 'down' give `ScrolledUp` and `ScrolledDown` of the old rows with a fresh blank row, 'up' for any number of rows; any other direction changes nothing; the grid shape is kept |
| Screen.PageMemory.ShiftUp | app/page-memory.js:77-84 | for one row or more, the upward loop and the last-row write give `ScrolledUp` of the old rows |
| Screen.PageMemory.ShiftDown | app/page-memory.js:86-93 | the downward loop and the row-1 write give `ScrolledDown` of the old rows |
| Screen.PageMemory.Render | app/page-memory.js:119-186 | only cell (0, 38) changes, to an inverted character cell of value 0x46 ('F'); the trace is `FrameDraws` of the rows, drawn row after row |
| Screen.PageMemory.DrawRow | app/page-memory.js:139-184 | one row's draws: the zone starts black, unmasked and not underlined, and follows the row cell by cell |
| ScreenLemmas.ScrolledUpRows | app/page-memory.js:77-84 | scrolling up keeps rows 0 and 1, row r takes old row r + 1 for 2 ≤ r < rows - 1, and the last row is blank |
| ScreenLemmas.ScrolledUpTwoRows | app/page-memory.js:77-84 | with two rows, scrolling up replaces row 1 by the blank row |
| ScreenLemmas.ScrolledUpOneRow | app/page-memory.js:77-84 | with one row, scrolling up replaces row 0 by the blank row |
| ScreenLemmas.ScrolledDownRows | app/page-memory.js:86-93 | scrolling down keeps row 0, puts the blank row at 1, and row r takes old row r - 1 for r ≥ 2 |
| ScreenLemmas.ScrollKeepsGrid | app/page-memory.js:71-94 | both scrolls keep the number of rows and the number of cells in every row (scrolling down from two rows or more) |
| ScreenLemmas.UpThenDown | app/page-memory.js:76-94 | up then down loses old row 2, leaves a blank row 1 and moves old row 1 to row 2 |
| ScreenLemmas.MaskBefore | app/page-memory.js:141-181 | the zone mask before a column is the mask of the last delimiter before it that defines one, or false |
| ScreenLemmas.MaskAt | app/page-memory.js:164-181 | a cell's glyph is masked exactly when the last delimiter before it, not itself, that defines a mask masks |
| ScreenLemmas.UnderlineBefore | app/page-memory.js:142-182 | the zone underline before a column is decided by the last mosaic or underline-defining delimiter before it |
| ScreenLemmas.UnderlineAt | app/page-memory.js:151-182 | a cell is drawn with underline exactly when it is not a mosaic and the last deciding cell before it is a delimiter that turns underline on |
| ScreenLemmas.BackgroundBefore | app/page-memory.js:140-150 | the zone background before a column is that of the last non-character cell before it, or black |
| ScreenLemmas.BackgroundAt | app/page-memory.js:140-154 | a cell is drawn on the background of the last non-character cell up to and including itself, or black |
| ScreenLemmas.CellFills | app/page-memory.js:157-178 | each cell yields exactly one fill, in its back colour, masked or not |
| ScreenLemmas.RowFills | app/page-memory.js:146-161 | a row's fills are one per cell, left to right, each at its x in the colour its background takes |
| ScreenLemmas.FrameFillsFlat | app/page-memory.js:138-161 | the fills of the first n rows are those rows' fill rows, one after the other |
| ScreenLemmas.FillCount | app/page-memory.js:138-161 | render paints exactly rows × cols fills |
| ScreenLemmas.FrameFills | app/page-memory.js:138-161 | the fill of row r, column c is the (r · cols + c)-th fill, at that cell's position and in its back colour |
| ScreenLemmas.CellShape | app/page-memory.js:153-178 | a cell draws its fill, then a G1 glyph at part (0, 0), size 1×1, no underline for a mosaic, or a G0 glyph with its own part, size and the zone underline otherwise; no glyph when masked |
| ScreenLemmas.CellBlock | app/page-memory.js:138-178 | a cell's draws form one block of the trace, after everything drawn before it in row-major order |
| ScreenLemmas.FillsBefore | app/page-memory.js:138-161 | the fills before a cell's block are exactly those of the r · cols + c cells before it |
| ScreenLemmas.CellInFrame | app/page-memory.js:138-185 | the trace holds each cell's block: the fill of its background, then a glyph exactly when the zone is unmasked, from the page, part, size and underline its kind calls for |

## Left out

- The contents of the special-characters table are not part of this model. Every stream operation takes it as the read-only parameter `special`. An entry is present exactly when JavaScript would find a truthy array there.
- Minitel.Value: `Char(c)` stands for a JavaScript string of length one, that is one UTF-16 unit. A string holding one character outside the Basic Multilingual Plane has length two, takes the iterable branch, and iterates to itself without end until the stack overflows. The model does not represent that case.
- `parseInt`'s coercion of strings and floats in `_pushValue` is left out: codes are integers.
- `push`'s runtime type dispatch is the closed datatype `Value`, one constructor per branch. `Other` stands for a value that is neither iterable nor a number, which push ignores but which still resets `length`.
- The canvas, the fonts, `createContext`, `loadFont`, `FontSprite.writeChar` and the colour strings of the palettes are left out. These are foreign calls and display data. Colours are palette indices, and drawing is the trace of `Fill` and `Glyph` events.
- `Fill` does not record the rectangle's width and height, because they are always one cell.
- The `MosaicCell` and `CharCell` classes are not part of this model. The default cells are the constructor parameters `blank` and `blankText`, and a cell carries only the fields render reads.
- `app/mitree.js`, the tree-view user interface, is not part of this model.
- Screen.PageMemory.Scroll: 'down' requires at least two rows. With one row the source's write to row 1 appends a second row, and with none it leaves a hole at row 0; the model's memory has a fixed number of rows. 'up' and every other direction are modelled for any number of rows, an 'up' on no rows writing to index -1, which is no row, so nothing changes.
- Screen.PageMemory.ShiftUp: the source's upward loop runs one step further and copies the undefined entry past the last row into the last row. The blank row then overwrites it. The model's loop stops one row earlier, so the final state is the same but that intermediate write is not modelled.
- Screen.PageMemory.Render: requires at least one row, where the source would throw on `memory[0]`. When there are no more than 38 columns, the source adds the status mark as an extra entry past the end of row 0, which render never reads. The model leaves row 0 unchanged in that case.
- StreamLemmas.OptimizePreservesDisplay: proved only for rows made of codes 0x20–0x7f, 0x09 and escapes followed by a colour or separation code (0x40–0x47, 0x50–0x57, 0x59, 0x5a), with at most 63 codes, and a table that leaves codes 0x00–0x7f alone. The reasons:
  - optimizeRow drops every other escape pair (size, blink, polarity, masking), which a terminal does display (`OtherEscapeDropped`), so such a row shows differently once optimized.
  - optimizeRow copies other control codes at once, ahead of a pending run that it flushes later, so they end up out of order (`ControlCopied`).
  - In a longer row, a run's count byte can exceed 0x7f and is then dropped by `_pushValue`.
  - A 0x12 in the input is itself a repeat.
- Trimming and optimizing are exact for every input, table and length (`TrimRow`, `OptimizeRow`). The restrictions above apply only to the round-trip property read through the decoder.
- `OptimizeRow`, `Render` and `Scroll` move the work done in one pass of their loops into the helper methods `PushEvent`, `DrawRow`, `ShiftUp` and `ShiftDown`. The helpers do what the loop body does, in the same order.
