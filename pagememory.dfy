/**
 * The page memory of the Minitel editor: a rows-by-cols grid of cells with a
 * cursor, which can scroll and renders itself as a sequence of draw events.
 *
 * The cell constructors are not part of this model: the default mosaic cell
 * and the default character cell are the constructor parameters `blank` and
 * `blankText`. Colours are palette indices; the palettes' colour strings,
 * the canvas and the font sprites are left out, and drawing becomes the
 * events `Fill` (a cell's background) and `Glyph` (a character written).
 */
module Screen {
  import opened Wrappers

  /** A cell's `type`: 'C' for a character, 'M' for a mosaic, 'D' for a delimiter. */
  datatype CellType = Text | Mosaic | Delimiter

  datatype Part = Part(x: int, y: int)

  datatype Mult = Mult(width: int, height: int)

  /** The fields of a cell that rendering reads; `mask` and `zoneUnderline` may be undefined. */
  datatype Cell = Cell(
    kind: CellType,
    value: int,
    fgColor: int,
    bgColor: int,
    invert: bool,
    part: Part,
    mult: Mult,
    mask: Option<bool>,
    zoneUnderline: Option<bool>)

  /** The font a glyph is taken from: G0 for characters, G1 for mosaics. */
  datatype Page = G0 | G1

  /** One drawing call: a background fill or a `writeChar`. */
  datatype Draw =
    | Fill(x: int, y: int, colour: int)
    | Glyph(page: Page, value: int, x: int, y: int, part: Part, mult: Mult, fg: int, underline: bool)

  datatype Cursor = Cursor(x: int, y: int, visible: bool)

  /** The zone attributes render carries along a row. */
  datatype Zone = Zone(bg: int, mask: bool, underline: bool)

  /** Each row starts on a black background, unmasked and not underlined. */
  const RowZone := Zone(0, false, false)

  // ---------------------------------------------------------------------------
  // scroll

  /**
   * Rows after scrolling up: row 2 leaves, the rows below it move up, a
   * blank row enters last. With fewer than three rows the blank row
   * replaces the last row; with none there is nothing to replace.
   */
  function ScrolledUp(g: seq<seq<Cell>>, blank: seq<Cell>): seq<seq<Cell>>
  {
    if g == [] then g
    else
      var k := if |g| >= 3 then 2 else |g| - 1;
      g[..k] + g[k + 1..] + [blank]
  }

  /** Rows after scrolling down: the last row leaves, rows 1 on move down, a blank row enters at 1. */
  function ScrolledDown(g: seq<seq<Cell>>, blank: seq<Cell>): seq<seq<Cell>>
    requires |g| >= 2
  {
    g[..1] + [blank] + g[1..|g| - 1]
  }

  // ---------------------------------------------------------------------------
  // render

  /** The zone as a cell is drawn: any but a character cell sets the background, a mosaic ends underlining. */
  function Entered(z: Zone, c: Cell): Zone
  {
    Zone(if c.kind != Text then c.bgColor else z.bg,
         z.mask,
         if c.kind == Mosaic then false else z.underline)
  }

  /** The zone after a cell is drawn: a delimiter sets whichever of mask and underline it defines. */
  function ZoneAfter(z: Zone, c: Cell): Zone
  {
    if c.kind == Delimiter then z.(mask := c.mask.GetOr(z.mask), underline := c.zoneUnderline.GetOr(z.underline))
    else z
  }

  /** The zone before the cell at column `n` of a row. */
  function ZoneBefore(row: seq<Cell>, n: nat): Zone
    requires n <= |row|
  {
    if n == 0 then RowZone else ZoneAfter(Entered(ZoneBefore(row, n - 1), row[n - 1]), row[n - 1])
  }

  /** The zone the cell at column `c` of a row is drawn in. */
  function ZoneAt(row: seq<Cell>, c: nat): Zone
    requires c < |row|
  {
    Entered(ZoneBefore(row, c), row[c])
  }

  /** The colour a cell's background is filled with: its foreground when inverted. */
  function Back(c: Cell, z: Zone): int
  {
    if c.invert then c.fgColor else z.bg
  }

  /** The colour a cell's glyph is written in: the zone background when inverted. */
  function Front(c: Cell, z: Zone): int
  {
    if c.invert then z.bg else c.fgColor
  }

  /** What drawing a cell at (x, y) in zone `z` calls: a fill, then the glyph unless masked. */
  function CellDraws(c: Cell, z: Zone, x: int, y: int): seq<Draw>
  {
    [Fill(x, y, Back(c, z))]
    + if z.mask then []
      else if c.kind != Mosaic then [Glyph(G0, c.value, x, y, c.part, c.mult, Front(c, z), z.underline)]
      else [Glyph(G1, c.value, x, y, Part(0, 0), Mult(1, 1), Front(c, z), false)]
  }

  /** What drawing the first `n` cells of a row at height `y` calls. */
  function RowDraws(row: seq<Cell>, n: nat, y: int, w: int): seq<Draw>
    requires n <= |row|
  {
    if n == 0 then []
    else RowDraws(row, n - 1, y, w) + CellDraws(row[n - 1], ZoneAt(row, n - 1), (n - 1) * w, y)
  }

  /** Every row holds `cols` cells. */
  predicate Grid(g: seq<seq<Cell>>, cols: nat)
  {
    forall r :: 0 <= r < |g| ==> |g[r]| == cols
  }

  /** What drawing the first `n` rows calls, `w` by `h` pixels a cell. */
  function FrameDraws(g: seq<seq<Cell>>, n: nat, cols: nat, w: int, h: int): seq<Draw>
    requires n <= |g| && Grid(g, cols)
  {
    if n == 0 then []
    else FrameDraws(g, n - 1, cols, w, h) + RowDraws(g[n - 1], cols, (n - 1) * h, w)
  }

  // ---------------------------------------------------------------------------

  class PageMemory {
    const rows: nat
    const cols: nat
    const charWidth: nat
    const charHeight: nat
    /** The cell a fresh `MosaicCell` is, and the one a fresh `CharCell` is. */
    const blank: Cell
    const blankText: Cell
    const memory: array<seq<Cell>>
    var cursor: Cursor

    ghost predicate Valid()
      reads this, memory
    {
      memory.Length == rows && Grid(memory[..], cols) && blank.kind == Mosaic && blankText.kind == Text
    }

    /** A row of fresh mosaic cells. */
    function BlankRow(): (r: seq<Cell>)
      ensures |r| == cols && forall k :: 0 <= k < cols ==> r[k] == blank
    {
      seq(cols, _ => blank)
    }

    /** The inverted 'F' render puts on the status line: a fresh character cell otherwise. */
    function StatusMark(): (c: Cell)
      requires blankText.kind == Text
      ensures c.kind == Text && c.value == 0x46 && c.invert
      ensures c == blankText.(value := c.value, invert := c.invert)
    {
      blankText.(value := 0x46, invert := true)
    }

    /**
     * Every cell starts as a fresh mosaic cell; the cursor starts hidden at
     * column 0 of row 1. `blank` is what a fresh `MosaicCell` is and
     * `blankText` what a fresh `CharCell` is.
     */
    constructor (rows: nat, cols: nat, charWidth: nat, charHeight: nat, blank: Cell, blankText: Cell)
      requires blank.kind == Mosaic && blankText.kind == Text
      ensures Valid() && fresh(memory)
      ensures this.rows == rows && this.cols == cols
      ensures this.charWidth == charWidth && this.charHeight == charHeight
      ensures this.blank == blank && this.blankText == blankText
      ensures cursor == Cursor(0, 1, false)
      ensures forall r, c :: 0 <= r < rows && 0 <= c < cols ==> |memory[r]| == cols && memory[r][c].kind == Mosaic
      ensures forall r :: 0 <= r < rows ==> memory[r] == BlankRow()
    {
      this.rows, this.cols := rows, cols;
      this.charWidth, this.charHeight := charWidth, charHeight;
      this.blank, this.blankText := blank, blankText;
      cursor := Cursor(0, 1, false);
      memory := new seq<Cell>[rows](_ => []);
      new;
      for j := 0 to rows
        modifies memory
        invariant forall r :: 0 <= r < j ==> memory[r] == BlankRow()
      {
        var row := [];
        for i := 0 to cols
          invariant row == seq(i, _ => blank)
        {
          row := row + [blank];
        }
        memory[j] := row;
      }
    }

    /**
     * Moves rows 2 onwards up or rows 1 onwards down and brings in a blank
     * row; rows above the moving part stay. In the source, the last pass of
     * the upward loop copies the undefined entry past the last row into the
     * last row, which the blank row then replaces: the loop here stops one
     * row earlier.
     */
    method Scroll(direction: string)
      requires Valid() && (direction == "down" ==> rows >= 2)
      modifies memory
      ensures Valid()
      ensures direction == "up" ==> memory[..] == ScrolledUp(old(memory[..]), BlankRow())
      ensures direction == "down" ==> memory[..] == ScrolledDown(old(memory[..]), BlankRow())
      ensures direction != "up" && direction != "down" ==> memory[..] == old(memory[..])
    {
      var newRow := [];
      for col := 0 to cols
        invariant newRow == seq(col, _ => blank)
      {
        newRow := newRow + [blank];
      }
      if direction == "up" && rows > 0 {
        ShiftUp(newRow);
      } else if direction == "down" {
        ShiftDown(newRow);
      }
    }

    /** The 'up' case of scroll: rows 3 onwards move up one, `newRow` becomes the last row. */
    method ShiftUp(newRow: seq<Cell>)
      requires Valid() && rows >= 1 && |newRow| == cols
      modifies memory
      ensures memory[..] == ScrolledUp(old(memory[..]), newRow)
    {
      var row := 2;
      while row < rows - 1
        invariant 2 <= row && (row <= rows - 1 || rows <= 2)
        invariant forall r :: 0 <= r < rows ==>
                    memory[r] == if 2 <= r < row then old(memory[r + 1]) else old(memory[r])
      {
        memory[row] := memory[row + 1];
        row := row + 1;
      }
      memory[rows - 1] := newRow;
      ghost var want := ScrolledUp(old(memory[..]), newRow);
      assert forall r :: 0 <= r < rows ==> memory[r] == want[r];
    }

    /** The 'down' case of scroll: rows 1 onwards move down one, `newRow` becomes row 1. */
    method ShiftDown(newRow: seq<Cell>)
      requires Valid() && rows >= 2 && |newRow| == cols
      modifies memory
      ensures memory[..] == ScrolledDown(old(memory[..]), newRow)
    {
      var row := rows - 1;
      while row > 1
        invariant 1 <= row <= rows - 1
        invariant forall r :: 0 <= r < rows ==>
                    memory[r] == if row < r then old(memory[r - 1]) else old(memory[r])
      {
        memory[row] := memory[row - 1];
        row := row - 1;
      }
      memory[1] := newRow;
      ghost var want := ScrolledDown(old(memory[..]), newRow);
      assert forall r :: 0 <= r < rows ==> memory[r] == want[r];
    }

    /**
     * Puts the status mark at column 38 of row 0, then draws every cell row
     * by row, carrying the zone attributes from left to right. A row too
     * short for column 38 is left as it is, since render never reads past
     * the last column.
     */
    method Render() returns (trace: seq<Draw>)
      requires Valid() && rows >= 1
      modifies memory
      ensures Valid()
      ensures cols > 38 ==> memory[..] == old(memory[..])[0 := old(memory[0])[38 := StatusMark()]]
      ensures cols > 38 ==> memory[0][38].kind == Text && memory[0][38].value == 0x46 && memory[0][38].invert
      ensures cols <= 38 ==> memory[..] == old(memory[..])
      ensures trace == FrameDraws(memory[..], rows, cols, charWidth, charHeight)
    {
      if cols > 38 {
        memory[0] := memory[0][38 := StatusMark()];
        assert memory[..] == old(memory[..])[0 := old(memory[0])[38 := StatusMark()]];
      }
      ghost var g := memory[..];
      assert Grid(g, cols);
      trace := [];
      for row := 0 to rows
        invariant memory[..] == g
        invariant trace == FrameDraws(g, row, cols, charWidth, charHeight)
      {
        var draws := DrawRow(row);
        trace := trace + draws;
      }
    }

    /** One pass of render's row loop: the zone starts afresh and follows the row from left to right. */
    method DrawRow(row: nat) returns (draws: seq<Draw>)
      requires Valid() && row < rows
      ensures draws == RowDraws(memory[row], cols, row * charHeight, charWidth)
    {
      var bgColor, mask, underline := 0, false, false;
      var y := row * charHeight;
      draws := [];
      for col := 0 to cols
        invariant Zone(bgColor, mask, underline) == ZoneBefore(memory[row], col)
        invariant draws == RowDraws(memory[row], col, y, charWidth)
      {
        var cell := memory[row][col];
        var x := col * charWidth;
        if cell.kind != Text {
          bgColor := cell.bgColor;
        }
        if cell.kind == Mosaic {
          underline := false;
        }
        var front := if cell.invert then bgColor else cell.fgColor;
        var back := if cell.invert then cell.fgColor else bgColor;
        draws := draws + [Fill(x, y, back)];
        if !mask {
          var page, part, mult, unde;
          if cell.kind != Mosaic {
            page, part, mult, unde := G0, cell.part, cell.mult, underline;
          } else {
            page, part, mult, unde := G1, Part(0, 0), Mult(1, 1), false;
          }
          draws := draws + [Glyph(page, cell.value, x, y, part, mult, front, unde)];
        }
        if cell.kind == Delimiter {
          if cell.mask.Some? {
            mask := cell.mask.value;
          }
          if cell.zoneUnderline.Some? {
            underline := cell.zoneUnderline.value;
          }
        }
      }
    }
  }
}
