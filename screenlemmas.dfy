/**
 * Properties of the page memory's specification functions: which rows a
 * scroll moves, how the zone attributes follow a row, and where each cell's
 * draw events sit in the frame render produces.
 */
module ScreenLemmas {
  import opened Wrappers
  import opened Screen

  // ---------------------------------------------------------------------------
  // scroll

  /** Scrolling up keeps rows 0 and 1, moves each row from 3 on up one and ends on the blank row. */
  lemma ScrolledUpRows(g: seq<seq<Cell>>, blank: seq<Cell>)
    requires |g| >= 3
    ensures var u := ScrolledUp(g, blank);
            |u| == |g| && u[0] == g[0] && u[1] == g[1] && u[|g| - 1] == blank
            && forall r :: 2 <= r < |g| - 1 ==> u[r] == g[r + 1]
  {
  }

  /** With only two rows, scrolling up replaces row 1 by the blank row. */
  lemma ScrolledUpTwoRows(g: seq<seq<Cell>>, blank: seq<Cell>)
    requires |g| == 2
    ensures ScrolledUp(g, blank) == [g[0], blank]
  {
  }

  /** Scrolling down keeps row 0, puts the blank row at 1 and moves each row from 1 on down one. */
  lemma ScrolledDownRows(g: seq<seq<Cell>>, blank: seq<Cell>)
    requires |g| >= 2
    ensures var d := ScrolledDown(g, blank);
            |d| == |g| && d[0] == g[0] && d[1] == blank
            && forall r :: 2 <= r < |g| ==> d[r] == g[r - 1]
  {
  }

  /** With one row, scrolling up replaces it by the blank row. */
  lemma ScrolledUpOneRow(g: seq<seq<Cell>>, blank: seq<Cell>)
    requires |g| == 1
    ensures ScrolledUp(g, blank) == [blank]
  {
  }

  /** Scrolling keeps the grid's shape: as many rows, each of `cols` cells. */
  lemma ScrollKeepsGrid(g: seq<seq<Cell>>, blank: seq<Cell>, cols: nat)
    requires Grid(g, cols) && |blank| == cols
    ensures Grid(ScrolledUp(g, blank), cols) && |ScrolledUp(g, blank)| == |g|
    ensures |g| >= 2 ==> Grid(ScrolledDown(g, blank), cols) && |ScrolledDown(g, blank)| == |g|
  {
    var u := ScrolledUp(g, blank);
    if |g| >= 3 {
      ScrolledUpRows(g, blank);
    }
    assert forall r :: 0 <= r < |u| ==> |u[r]| == cols;
    if |g| >= 2 {
      var d := ScrolledDown(g, blank);
      ScrolledDownRows(g, blank);
      assert forall r :: 0 <= r < |d| ==> |d[r]| == cols;
    }
  }

  /** Scrolling up then down loses the old row 2 and the old row 1 ends one row lower, under a blank row. */
  lemma {:induction false} UpThenDown(g: seq<seq<Cell>>, blank: seq<Cell>)
    requires |g| >= 3
    ensures ScrolledDown(ScrolledUp(g, blank), blank) == [g[0], blank, g[1]] + g[3..]
  {
    var u := ScrolledUp(g, blank);
    ScrolledUpRows(g, blank);
    ScrolledDownRows(u, blank);
    var d := ScrolledDown(u, blank);
    var want := [g[0], blank, g[1]] + g[3..];
    assert |d| == |want|;
    forall r | 0 <= r < |d|
      ensures d[r] == want[r]
    {
      if r >= 3 {
        assert d[r] == u[r - 1] == g[r];
      }
    }
  }

  // ---------------------------------------------------------------------------
  // zone attributes

  /** The last column before `n` whose cell satisfies `p`, if there is one. */
  function LastWhere(row: seq<Cell>, n: nat, p: Cell -> bool): (r: Option<nat>)
    requires n <= |row|
    ensures r.Some? ==> r.value < n && p(row[r.value]) && forall e :: r.value < e < n ==> !p(row[e])
    ensures r.None? ==> forall e :: 0 <= e < n ==> !p(row[e])
  {
    if n == 0 then None
    else if p(row[n - 1]) then Some(n - 1)
    else LastWhere(row, n - 1, p)
  }

  /** A cell that decides the mask from here on: a delimiter with a defined mask. */
  predicate SetsMask(c: Cell)
  {
    c.kind == Delimiter && c.mask.Some?
  }

  /** A cell that decides underlining from here on: a delimiter with a defined underline, or a mosaic. */
  predicate DecidesUnderline(c: Cell)
  {
    (c.kind == Delimiter && c.zoneUnderline.Some?) || c.kind == Mosaic
  }

  /** A cell that sets the zone background: any but a character cell. */
  predicate SetsBackground(c: Cell)
  {
    c.kind != Text
  }

  lemma {:induction false} MaskBefore(row: seq<Cell>, n: nat)
    requires n <= |row|
    ensures ZoneBefore(row, n).mask == match LastWhere(row, n, SetsMask)
                                       case Some(d) => row[d].mask == Some(true)
                                       case None => false
  {
    if n > 0 {
      MaskBefore(row, n - 1);
    }
  }

  /**
   * A cell is masked exactly when the last delimiter before it in its row
   * that defines a mask masks: a delimiter's mask applies from the next cell
   * on, never to the delimiter itself.
   */
  lemma MaskAt(row: seq<Cell>, c: nat)
    requires c < |row|
    ensures ZoneAt(row, c).mask == match LastWhere(row, c, SetsMask)
                                   case Some(d) => row[d].mask == Some(true)
                                   case None => false
  {
    MaskBefore(row, c);
  }

  lemma {:induction false} UnderlineBefore(row: seq<Cell>, n: nat)
    requires n <= |row|
    ensures ZoneBefore(row, n).underline == match LastWhere(row, n, DecidesUnderline)
                                            case Some(d) => row[d].kind == Delimiter && row[d].zoneUnderline == Some(true)
                                            case None => false
  {
    if n > 0 {
      UnderlineBefore(row, n - 1);
    }
  }

  /**
   * A cell is drawn underlined exactly when it is not a mosaic and the last
   * cell before it in its row that decides underlining is a delimiter that
   * turns it on: a mosaic cell ends underlining from itself on.
   */
  lemma UnderlineAt(row: seq<Cell>, c: nat)
    requires c < |row|
    ensures ZoneAt(row, c).underline == (row[c].kind != Mosaic && match LastWhere(row, c, DecidesUnderline)
                                          case Some(d) => row[d].kind == Delimiter && row[d].zoneUnderline == Some(true)
                                          case None => false)
  {
    UnderlineBefore(row, c);
  }

  lemma {:induction false} BackgroundBefore(row: seq<Cell>, n: nat)
    requires n <= |row|
    ensures ZoneBefore(row, n).bg == match LastWhere(row, n, SetsBackground)
                                     case Some(d) => row[d].bgColor
                                     case None => 0
  {
    if n > 0 {
      BackgroundBefore(row, n - 1);
    }
  }

  /**
   * The zone background a cell is drawn on is the background of the last
   * cell of its row up to it, itself included, that is not a character
   * cell; black when there is none.
   */
  lemma BackgroundAt(row: seq<Cell>, c: nat)
    requires c < |row|
    ensures ZoneAt(row, c).bg == match LastWhere(row, c + 1, SetsBackground)
                                 case Some(d) => row[d].bgColor
                                 case None => 0
  {
    BackgroundBefore(row, c);
  }

  // ---------------------------------------------------------------------------
  // the frame

  /** The background fills of a trace, in order. */
  function Fills(t: seq<Draw>): seq<Draw>
  {
    if t == [] then []
    else Fills(t[..|t| - 1]) + if t[|t| - 1].Fill? then [t[|t| - 1]] else []
  }

  lemma {:induction false} FillsAppend(a: seq<Draw>, b: seq<Draw>)
    ensures Fills(a + b) == Fills(a) + Fills(b)
    decreases |b|
  {
    if b == [] {
      assert a + b == a;
    } else {
      var b' := b[..|b| - 1];
      assert (a + b)[..|a + b| - 1] == a + b';
      FillsAppend(a, b');
    }
  }

  lemma CellFills(c: Cell, z: Zone, x: int, y: int)
    ensures Fills(CellDraws(c, z, x, y)) == [Fill(x, y, Back(c, z))]
  {
    var d := CellDraws(c, z, x, y);
    assert d[..1] == [Fill(x, y, Back(c, z))];
    assert Fills(d[..1]) == [Fill(x, y, Back(c, z))] by {
      assert d[..1][..0] == [];
    }
  }

  /** A row's fills are one per cell, left to right, each the colour its cell's background takes. */
  lemma {:induction false} RowFills(row: seq<Cell>, n: nat, y: int, w: int)
    requires n <= |row|
    ensures Fills(RowDraws(row, n, y, w))
            == seq(n, k requires 0 <= k < n => Fill(k * w, y, Back(row[k], ZoneAt(row, k))))
  {
    if n > 0 {
      var m := n - 1;
      RowFills(row, m, y, w);
      FillsAppend(RowDraws(row, m, y, w), CellDraws(row[m], ZoneAt(row, m), m * w, y));
      CellFills(row[m], ZoneAt(row, m), m * w, y);
    }
  }

  /** The blocks of `b`, one after the other. */
  function Flatten<T>(b: seq<seq<T>>): seq<T>
  {
    if b == [] then [] else Flatten(b[..|b| - 1]) + b[|b| - 1]
  }

  lemma MulStep(r: nat, n: nat, cols: nat, c: nat)
    requires r < n && c < cols
    ensures r * cols + c < n * cols
  {
    assert (r + 1) * cols == r * cols + cols;
    assert (r + 1) * cols <= n * cols;
  }

  lemma MulSucc(m: nat, cols: nat)
    ensures m * cols + cols == (m + 1) * cols
  {
  }

  /** Blocks of `cols` elements flatten to `|b| * cols` elements, block `r` from index `r * cols` on. */
  lemma {:induction false} FlattenIndex<T>(b: seq<seq<T>>, cols: nat, r: nat, c: nat)
    requires forall i :: 0 <= i < |b| ==> |b[i]| == cols
    ensures |Flatten(b)| == |b| * cols
    ensures r < |b| && c < cols ==> r * cols + c < |Flatten(b)| && Flatten(b)[r * cols + c] == b[r][c]
  {
    if b != [] {
      var m := |b| - 1;
      var a := b[..m];
      FlattenIndex(a, cols, r, c);
      MulSucc(m, cols);
      if r < m && c < cols {
        MulStep(r, m, cols, c);
        assert Flatten(b)[r * cols + c] == Flatten(a)[r * cols + c];
      }
    }
  }

  /** The fills of the first `n` rows, row by row and cell by cell. */
  ghost function FillGrid(g: seq<seq<Cell>>, n: nat, cols: nat, w: int, h: int): (r: seq<seq<Draw>>)
    requires n <= |g| && Grid(g, cols)
    ensures |r| == n && forall i :: 0 <= i < n ==> |r[i]| == cols
  {
    seq(n, i requires 0 <= i < n =>
      seq(cols, c requires 0 <= c < cols => Fill(c * w, i * h, Back(g[i][c], ZoneAt(g[i], c)))))
  }

  lemma {:induction false} FrameFillsFlat(g: seq<seq<Cell>>, n: nat, cols: nat, w: int, h: int)
    requires n <= |g| && Grid(g, cols)
    ensures Fills(FrameDraws(g, n, cols, w, h)) == Flatten(FillGrid(g, n, cols, w, h))
  {
    if n > 0 {
      var m := n - 1;
      FrameFillsFlat(g, m, cols, w, h);
      FillsAppend(FrameDraws(g, m, cols, w, h), RowDraws(g[m], cols, m * h, w));
      RowFills(g[m], cols, m * h, w);
      var fg := FillGrid(g, n, cols, w, h);
      assert fg[..m] == FillGrid(g, m, cols, w, h);
    }
  }

  /** Render fills as many backgrounds as the page has cells. */
  lemma FillCount(g: seq<seq<Cell>>, n: nat, cols: nat, w: int, h: int)
    requires n <= |g| && Grid(g, cols)
    ensures |Fills(FrameDraws(g, n, cols, w, h))| == n * cols
  {
    FrameFillsFlat(g, n, cols, w, h);
    FlattenIndex(FillGrid(g, n, cols, w, h), cols, 0, 0);
  }

  /**
   * Render fills every cell's background in row-major order: the fill for
   * row `r`, column `c` is the `r * cols + c`-th fill, at that cell's
   * position and in the colour its background takes, masked or not.
   */
  lemma FrameFills(g: seq<seq<Cell>>, n: nat, cols: nat, w: int, h: int, r: nat, c: nat)
    requires n <= |g| && Grid(g, cols) && r < n && c < cols
    ensures r * cols + c < |Fills(FrameDraws(g, n, cols, w, h))|
    ensures Fills(FrameDraws(g, n, cols, w, h))[r * cols + c] == Fill(c * w, r * h, Back(g[r][c], ZoneAt(g[r], c)))
  {
    var fg := FillGrid(g, n, cols, w, h);
    FrameFillsFlat(g, n, cols, w, h);
    FlattenIndex(fg, cols, r, c);
    assert fg[r][c] == Fill(c * w, r * h, Back(g[r][c], ZoneAt(g[r], c)));
  }

  lemma {:induction false} RowPrefix(row: seq<Cell>, n: nat, m: nat, y: int, w: int)
    requires n <= m <= |row|
    ensures RowDraws(row, n, y, w) <= RowDraws(row, m, y, w)
    decreases m
  {
    if n < m {
      RowPrefix(row, n, m - 1, y, w);
    }
  }

  lemma {:induction false} FramePrefix(g: seq<seq<Cell>>, n: nat, m: nat, cols: nat, w: int, h: int)
    requires n <= m <= |g| && Grid(g, cols)
    ensures FrameDraws(g, n, cols, w, h) <= FrameDraws(g, m, cols, w, h)
    decreases m
  {
    if n < m {
      FramePrefix(g, n, m - 1, cols, w, h);
    }
  }

  /** Where the draw events of row `r`, column `c` start in the frame. */
  function CellStart(g: seq<seq<Cell>>, cols: nat, w: int, h: int, r: nat, c: nat): nat
    requires r < |g| && c < cols && Grid(g, cols)
  {
    |FrameDraws(g, r, cols, w, h)| + |RowDraws(g[r], c, r * h, w)|
  }

  /**
   * The frame holds each cell's draw events in one block, after the fills of
   * exactly the cells before it in row-major order: first the fill of its
   * background, then a glyph if and only if its zone is not masked, from G1
   * at part (0, 0) and size 1x1 without underline for a mosaic, from G0 with
   * the cell's own part and size and the zone's underline otherwise.
   */
  lemma CellInFrame(g: seq<seq<Cell>>, cols: nat, w: int, h: int, r: nat, c: nat)
    requires r < |g| && c < cols && Grid(g, cols)
    ensures var f, o := FrameDraws(g, |g|, cols, w, h), CellStart(g, cols, w, h, r, c);
            var cell, z := g[r][c], ZoneAt(g[r], c);
            var n := if z.mask then 1 else 2;
            o + n <= |f|
            && f[o..o + n] == CellDraws(cell, z, c * w, r * h)
            && |Fills(f[..o])| == r * cols + c
            && f[o] == Fill(c * w, r * h, Back(cell, z))
            && (!z.mask && cell.kind == Mosaic ==>
                  f[o + 1] == Glyph(G1, cell.value, c * w, r * h, Part(0, 0), Mult(1, 1), Front(cell, z), false))
            && (!z.mask && cell.kind != Mosaic ==>
                  f[o + 1] == Glyph(G0, cell.value, c * w, r * h, cell.part, cell.mult, Front(cell, z), z.underline))
  {
    var f, o := FrameDraws(g, |g|, cols, w, h), CellStart(g, cols, w, h, r, c);
    var d := CellDraws(g[r][c], ZoneAt(g[r], c), c * w, r * h);
    CellBlock(g, cols, w, h, r, c);
    FillsBefore(g, cols, w, h, r, c);
    CellShape(g[r][c], ZoneAt(g[r], c), c * w, r * h);
    BlockAt(f, o, d);
  }

  /** What one cell draws: its fill, then its glyph unless the zone is masked. */
  lemma CellShape(c: Cell, z: Zone, x: int, y: int)
    ensures var d := CellDraws(c, z, x, y);
            |d| == (if z.mask then 1 else 2)
            && d[0] == Fill(x, y, Back(c, z))
            && (!z.mask && c.kind == Mosaic ==> d[1] == Glyph(G1, c.value, x, y, Part(0, 0), Mult(1, 1), Front(c, z), false))
            && (!z.mask && c.kind != Mosaic ==> d[1] == Glyph(G0, c.value, x, y, c.part, c.mult, Front(c, z), z.underline))
  {
  }

  lemma BlockAt(f: seq<Draw>, o: nat, d: seq<Draw>)
    requires o + |d| <= |f| && f[o..o + |d|] == d
    ensures forall i :: 0 <= i < |d| ==> f[o + i] == d[i]
  {
    forall i | 0 <= i < |d|
      ensures f[o + i] == d[i]
    {
      assert f[o..o + |d|][i] == f[o + i];
    }
  }

  /** The frame holds, at the cell's start, the frame drawn so far followed by the cell's own draw events. */
  lemma CellBlock(g: seq<seq<Cell>>, cols: nat, w: int, h: int, r: nat, c: nat)
    requires r < |g| && c < cols && Grid(g, cols)
    ensures var f, o := FrameDraws(g, |g|, cols, w, h), CellStart(g, cols, w, h, r, c);
            var d := CellDraws(g[r][c], ZoneAt(g[r], c), c * w, r * h);
            o + |d| <= |f|
            && f[..o] == FrameDraws(g, r, cols, w, h) + RowDraws(g[r], c, r * h, w)
            && f[o..o + |d|] == d
  {
    var f := FrameDraws(g, |g|, cols, w, h);
    var a := FrameDraws(g, r, cols, w, h);
    var b := RowDraws(g[r], c, r * h, w);
    var d := CellDraws(g[r][c], ZoneAt(g[r], c), c * w, r * h);
    RowBlock(g[r], c, r * h, w);
    FrameBlock(g, r, cols, w, h);
    PrefixChain(a, RowDraws(g[r], cols, r * h, w), f, b, d);
    PrefixParts(a + b, d, f);
  }

  lemma RowBlock(row: seq<Cell>, c: nat, y: int, w: int)
    requires c < |row|
    ensures RowDraws(row, c, y, w) + CellDraws(row[c], ZoneAt(row, c), c * w, y) <= RowDraws(row, |row|, y, w)
  {
    RowPrefix(row, c + 1, |row|, y, w);
  }

  lemma FrameBlock(g: seq<seq<Cell>>, r: nat, cols: nat, w: int, h: int)
    requires r < |g| && Grid(g, cols)
    ensures FrameDraws(g, r, cols, w, h) + RowDraws(g[r], cols, r * h, w) <= FrameDraws(g, |g|, cols, w, h)
  {
    FramePrefix(g, r + 1, |g|, cols, w, h);
  }

  lemma PrefixChain(a: seq<Draw>, row: seq<Draw>, f: seq<Draw>, b: seq<Draw>, d: seq<Draw>)
    requires a + row <= f && b + d <= row
    ensures a + b + d <= f
  {
    assert (a + row)[..|a + b + d|] == a + b + d;
  }

  lemma PrefixParts(p: seq<Draw>, d: seq<Draw>, f: seq<Draw>)
    requires p + d <= f
    ensures |p| + |d| <= |f| && f[..|p|] == p && f[|p|..|p| + |d|] == d
  {
    assert f[..|p| + |d|] == p + d;
  }

  /** The fills before a cell's draw events are those of the cells before it in row-major order. */
  lemma FillsBefore(g: seq<seq<Cell>>, cols: nat, w: int, h: int, r: nat, c: nat)
    requires r < |g| && c < cols && Grid(g, cols)
    ensures |Fills(FrameDraws(g, r, cols, w, h) + RowDraws(g[r], c, r * h, w))| == r * cols + c
  {
    FillsAppend(FrameDraws(g, r, cols, w, h), RowDraws(g[r], c, r * h, w));
    FillCount(g, r, cols, w, h);
    RowFills(g[r], c, r * h, w);
  }
}
