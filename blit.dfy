/** One pass of the nested `for` loops shared by both animators: walk the
    pattern row by row and, within a row, column by column, writing pattern
    cell (r, c) to canvas column `colStart - c` of canvas row `rowStart + r`
    (the pattern is laid out right to left). A draw pass writes the pattern's
    value, an erase pass writes 0 to the same cells in the same order. */
module Blit {
  import opened Display

  /** Where a pass lands: its first canvas row and its rightmost canvas
      column, and the loop bounds `PATTERN_ROW_MAX` and `PATTERN_COL_MAX`. */
  datatype Region = Region(rowStart: int, colStart: int, rowMax: int, colMax: int)
  {
    /** The same region moved `d` columns to the left. */
    function Shifted(d: int): Region
    {
      Region(rowStart, colStart - d, rowMax, colMax)
    }
  }

  /** What a pass writes: the pattern's own values, or 0 everywhere. */
  datatype Ink = Paint(pattern: seq<seq<int>>) | Blank

  /** Reading `p[r][c]` for every `r < rows`, `c < cols` stays inside the
      pattern. The loops read nothing when either bound is not positive. */
  predicate Fits(p: seq<seq<int>>, rows: int, cols: int)
  {
    cols <= 0 || (rows <= |p| && forall r :: 0 <= r < rows ==> cols <= |p[r]|)
  }

  predicate Covers(ink: Ink, g: Region)
  {
    ink.Blank? || Fits(ink.pattern, g.rowMax, g.colMax)
  }

  function Max0(x: int): nat
  {
    if x < 0 then 0 else x
  }

  /** The number of writes in one pass: the loops run `rowMax` times
      `colMax` when both are positive, and not at all otherwise. */
  function Size(g: Region): nat
  {
    Max0(g.rowMax) * Max0(g.colMax)
  }

  /** The write for pattern cell (r, c). */
  function Pixel(ink: Ink, g: Region, r: nat, c: nat): Write
    requires Covers(ink, g) && r < g.rowMax && c < g.colMax
  {
    var value := match ink
      case Blank => 0
      case Paint(p) => p[r][c];
    Write(g.colStart - c, g.rowStart + r, value)
  }

  /** The writes of the first `n` iterations of the column loop of row `r`. */
  function RowWrites(ink: Ink, g: Region, r: nat, n: int): seq<Write>
    requires Covers(ink, g) && r < g.rowMax && n <= Max0(g.colMax)
    decreases n
  {
    if n <= 0 then [] else RowWrites(ink, g, r, n - 1) + [Pixel(ink, g, r, n - 1)]
  }

  /** The writes of the first `n` iterations of the row loop. */
  function PassRows(ink: Ink, g: Region, n: int): seq<Write>
    requires Covers(ink, g) && n <= Max0(g.rowMax)
    decreases n
  {
    if n <= 0 then [] else PassRows(ink, g, n - 1) + RowWrites(ink, g, n - 1, g.colMax)
  }

  /** The writes of a whole pass, in the order the loops issue them. */
  function Pass(ink: Ink, g: Region): seq<Write>
    requires Covers(ink, g)
  {
    PassRows(ink, g, Max0(g.rowMax))
  }

  /** The position in a log of repeated draw-and-erases of region `g` of
      the draw write for pattern cell (r, c) in iteration `i`; the matching
      erase write comes `Size(g)` places later. */
  function Slot(g: Region, i: nat, r: nat, c: nat): nat
  {
    i * (2 * Size(g)) + r * Max0(g.colMax) + c
  }

  /** The canvas cells a pass covers, as a rectangle: columns
      `colStart - colMax + 1 .. colStart`, rows `rowStart .. rowStart + rowMax - 1`. */
  predicate Inside(g: Region, cell: Cell)
  {
    g.colStart - g.colMax < cell.0 <= g.colStart && g.rowStart <= cell.1 < g.rowStart + g.rowMax
  }

  /** The same rectangle as a set of cells. */
  function Footprint(g: Region): (fp: set<Cell>)
    ensures forall cell :: cell in fp <==> Inside(g, cell)
  {
    set col, row | g.colStart - g.colMax < col <= g.colStart && g.rowStart <= row < g.rowStart + g.rowMax
      :: (col, row)
  }

  lemma {:induction false} RowWritesAt(ink: Ink, g: Region, r: nat, n: int, c: nat)
    requires Covers(ink, g) && r < g.rowMax && n <= Max0(g.colMax)
    ensures |RowWrites(ink, g, r, n)| == Max0(n)
    ensures c < n ==> RowWrites(ink, g, r, n)[c] == Pixel(ink, g, r, c)
    decreases n
  {
    if n > 0 {
      RowWritesAt(ink, g, r, n - 1, c);
    }
  }

  lemma MulStep(a: int, f: int)
    ensures (a + 1) * f == a * f + f
  {
  }

  /** Write `j` of frame `i`, where `prev` holds `n` frames of length `f`
      and `last` is one more: an older frame's write lies in the prefix,
      frame `n` is the appended one. */
  lemma FrameIndex<T>(prev: seq<T>, last: seq<T>, n: nat, f: nat, i: nat, j: nat)
    requires |prev| == n * f && |last| == f && i <= n && j < f
    requires i < n ==> i * f + j < |prev|
    ensures i * f + j < |prev + last|
    ensures i < n ==> (prev + last)[i * f + j] == prev[i * f + j]
    ensures i == n ==> (prev + last)[i * f + j] == last[j]
  {
  }

  lemma {:induction false} PassRowsAt(ink: Ink, g: Region, n: int, r: nat, c: nat)
    requires Covers(ink, g) && n <= Max0(g.rowMax) && g.colMax >= 0
    ensures |PassRows(ink, g, n)| == Max0(n) * g.colMax
    ensures r < n && c < g.colMax ==>
      r * g.colMax + c < |PassRows(ink, g, n)| && PassRows(ink, g, n)[r * g.colMax + c] == Pixel(ink, g, r, c)
    decreases n
  {
    if n > 0 {
      PassRowsAt(ink, g, n - 1, r, c);
      RowWritesAt(ink, g, n - 1, g.colMax, c);
      var prev, last := PassRows(ink, g, n - 1), RowWrites(ink, g, n - 1, g.colMax);
      assert PassRows(ink, g, n) == prev + last;
      MulStep(n - 1, g.colMax);
      if r < n && c < g.colMax {
        FrameIndex(prev, last, n - 1, g.colMax, r, c);
      }
    }
  }

  lemma {:induction false} PassRowsEmpty(ink: Ink, g: Region, n: int)
    requires Covers(ink, g) && n <= Max0(g.rowMax) && g.colMax <= 0
    ensures PassRows(ink, g, n) == []
    decreases n
  {
    if n > 0 {
      PassRowsEmpty(ink, g, n - 1);
    }
  }

  /** A pass issues exactly `Size(g)` writes, and its write number
      `r * colMax + c` is pattern cell (r, c): canvas cell
      (`colStart - c`, `rowStart + r`) receives `pattern[r][c]` (or 0). */
  lemma PassAt(ink: Ink, g: Region, r: nat, c: nat)
    requires Covers(ink, g)
    ensures |Pass(ink, g)| == Size(g)
    ensures r < g.rowMax && c < g.colMax ==>
      r * g.colMax + c < Size(g) && Pass(ink, g)[r * g.colMax + c] == Pixel(ink, g, r, c)
  {
    if g.colMax > 0 {
      PassRowsAt(ink, g, Max0(g.rowMax), r, c);
      assert Size(g) == Max0(g.rowMax) * g.colMax;
    } else {
      PassRowsEmpty(ink, g, Max0(g.rowMax));
    }
  }

  lemma {:induction false} RowCells(ink: Ink, g: Region, r: nat, n: int)
    requires Covers(ink, g) && r < g.rowMax && n <= Max0(g.colMax)
    ensures Cells(RowWrites(ink, g, r, n)) == Footprint(Region(g.rowStart + r, g.colStart, 1, n))
    decreases n
  {
    if n > 0 {
      RowCells(ink, g, r, n - 1);
      var w := Pixel(ink, g, r, n - 1);
      CellsConcat(RowWrites(ink, g, r, n - 1), [w]);
      CellsSingle(w);
    }
  }

  lemma {:induction false} PassRowsCells(ink: Ink, g: Region, n: int)
    requires Covers(ink, g) && n <= Max0(g.rowMax)
    ensures Cells(PassRows(ink, g, n)) == Footprint(g.(rowMax := n))
    decreases n
  {
    if n <= 0 {
      assert Cells([]) == {};
      FootprintEmpty(g.(rowMax := n));
    } else {
      var prev, last := PassRows(ink, g, n - 1), RowWrites(ink, g, n - 1, g.colMax);
      var top, bottom := g.(rowMax := n - 1), Region(g.rowStart + n - 1, g.colStart, 1, g.colMax);
      PassRowsCells(ink, g, n - 1);
      if g.colMax > 0 {
        RowCells(ink, g, n - 1, g.colMax);
      } else {
        assert last == [] && Cells([]) == {};
        FootprintEmpty(bottom);
      }
      assert Cells(last) == Footprint(bottom);
      CellsConcat(prev, last);
      FootprintRows(g, n);
      assert PassRows(ink, g, n) == prev + last;
    }
  }

  lemma FootprintEmpty(g: Region)
    requires g.rowMax <= 0 || g.colMax <= 0
    ensures Footprint(g) == {}
  {
  }

  /** A footprint of `n` rows is that of its first `n - 1` rows and its last. */
  lemma FootprintRows(g: Region, n: int)
    requires n >= 1
    ensures Footprint(g.(rowMax := n))
      == Footprint(g.(rowMax := n - 1)) + Footprint(Region(g.rowStart + n - 1, g.colStart, 1, g.colMax))
  {
    var bottom := Region(g.rowStart + n - 1, g.colStart, 1, g.colMax);
    forall cell ensures Inside(g.(rowMax := n), cell) <==> Inside(g.(rowMax := n - 1), cell) || Inside(bottom, cell) {
    }
  }

  /** A pass writes to exactly the cells of its footprint. */
  lemma PassCells(ink: Ink, g: Region)
    requires Covers(ink, g)
    ensures Cells(Pass(ink, g)) == Footprint(g)
  {
    PassRowsCells(ink, g, Max0(g.rowMax));
  }

  /** An erase pass writes only zeros. */
  lemma {:induction false} BlankOff(g: Region, n: int)
    requires n <= Max0(g.rowMax)
    ensures AllOff(PassRows(Blank, g, n))
    decreases n
  {
    if n > 0 {
      BlankOff(g, n - 1);
      var prev, last := PassRows(Blank, g, n - 1), RowWrites(Blank, g, n - 1, g.colMax);
      RowWritesAt(Blank, g, n - 1, g.colMax, 0);
      forall c | 0 <= c < |last| ensures last[c].value == 0 {
        RowWritesAt(Blank, g, n - 1, g.colMax, c);
      }
      assert PassRows(Blank, g, n) == prev + last;
      forall i | 0 <= i < |prev + last| ensures (prev + last)[i].value == 0 {
        if i >= |prev| { assert (prev + last)[i] == last[i - |prev|]; }
      }
    }
  }

  /** Position `i` of a row-major grid of `rows` rows of `cols` entries is
      entry `i % cols` of row `i / cols`. */
  lemma RowMajorSplit(i: nat, rows: nat, cols: nat)
    requires i < rows * cols
    ensures cols > 0 && i / cols < rows && i == (i / cols) * cols + i % cols
  {
    if cols > 0 && i / cols >= rows {
      MulMonoLeft(rows, i / cols, cols);
    }
  }

  lemma MulMonoLeft(a: nat, b: nat, f: nat)
    requires a <= b
    ensures a * f <= b * f
  {
  }

  /** The erase pass visits the cells of the draw pass, at the same
      positions in the write order, and stores 0 in each. */
  lemma EraseMatchesDraw(p: seq<seq<int>>, g: Region, i: nat)
    requires Fits(p, g.rowMax, g.colMax)
    ensures |Pass(Blank, g)| == |Pass(Paint(p), g)|
    ensures i < |Pass(Blank, g)| ==>
      Pass(Blank, g)[i] == Pass(Paint(p), g)[i].(value := 0)
  {
    PassAt(Blank, g, 0, 0);
    PassAt(Paint(p), g, 0, 0);
    if i < |Pass(Blank, g)| {
      assert g.colMax > 0 && g.rowMax > 0;
      var r, c := i / g.colMax, i % g.colMax;
      RowMajorSplit(i, g.rowMax, g.colMax);
      PassAt(Blank, g, r, c);
      PassAt(Paint(p), g, r, c);
    }
  }

  /** The writes of one draw-and-erase of a pattern: the draw pass, then
      the erase pass over the same region. */
  function DrawErase(p: seq<seq<int>>, g: Region): seq<Write>
    requires Fits(p, g.rowMax, g.colMax)
  {
    Pass(Paint(p), g) + Pass(Blank, g)
  }

  lemma DrawEraseSize(p: seq<seq<int>>, g: Region)
    requires Fits(p, g.rowMax, g.colMax)
    ensures |DrawErase(p, g)| == 2 * Size(g)
  {
    PassAt(Paint(p), g, 0, 0);
    PassAt(Blank, g, 0, 0);
  }

  /** Write `r * colMax + c` of a draw-and-erase stores `pattern[r][c]` in
      cell (`colStart - c`, `rowStart + r`); the write `Size(g)` places
      later stores 0 in that same cell. */
  lemma DrawEraseAt(p: seq<seq<int>>, g: Region, r: nat, c: nat)
    requires Fits(p, g.rowMax, g.colMax)
    ensures |DrawErase(p, g)| == 2 * Size(g)
    ensures r < g.rowMax && c < g.colMax ==>
      var k := r * g.colMax + c;
      k < Size(g)
      && DrawErase(p, g)[k] == Write(g.colStart - c, g.rowStart + r, p[r][c])
      && DrawErase(p, g)[k + Size(g)] == Write(g.colStart - c, g.rowStart + r, 0)
  {
    PassAt(Paint(p), g, r, c);
    PassAt(Blank, g, r, c);
  }

  /** Drawing a pattern and then erasing it leaves exactly its footprint
      cleared and every other cell as it was. */
  lemma DrawEraseClears(m: map<Cell, int>, p: seq<seq<int>>, g: Region)
    requires Fits(p, g.rowMax, g.colMax)
    ensures Apply(m, DrawErase(p, g)) == Erased(m, Footprint(g))
    ensures Cells(DrawErase(p, g)) == Footprint(g)
  {
    PassCells(Paint(p), g);
    PassCells(Blank, g);
    BlankOff(g, Max0(g.rowMax));
    DrawThenErase(m, Pass(Paint(p), g), Pass(Blank, g));
    DrawEraseCells(p, g);
  }

  /** A draw-and-erase writes to exactly the pattern's footprint. */
  lemma DrawEraseCells(p: seq<seq<int>>, g: Region)
    requires Fits(p, g.rowMax, g.colMax)
    ensures Cells(DrawErase(p, g)) == Footprint(g)
  {
    PassCells(Paint(p), g);
    PassCells(Blank, g);
    CellsConcat(Pass(Paint(p), g), Pass(Blank, g));
  }

  /** The inner `for` loop of a pass, for pattern row `rowindex` on canvas
      row `row`: `col` walks left from `colStart` while `colindex` goes up. */
  method BlitRow(dmd: Canvas, ink: Ink, g: Region, row: int, rowindex: nat)
    requires Covers(ink, g) && rowindex < g.rowMax && row == g.rowStart + rowindex
    modifies dmd
    ensures dmd.log == old(dmd.log) + RowWrites(ink, g, rowindex, g.colMax)
    ensures dmd.pixels == Apply(old(dmd.pixels), RowWrites(ink, g, rowindex, g.colMax))
  {
    ghost var log0, pixels0 := dmd.log, dmd.pixels;
    var col, colindex := g.colStart, 0;
    while colindex < g.colMax
      invariant 0 <= colindex <= Max0(g.colMax)
      invariant col == g.colStart - colindex
      invariant dmd.log == log0 + RowWrites(ink, g, rowindex, colindex)
      invariant dmd.pixels == Apply(pixels0, RowWrites(ink, g, rowindex, colindex))
    {
      var value := match ink
        case Blank => 0
        case Paint(p) => p[rowindex][colindex];
      ghost var sofar, w := RowWrites(ink, g, rowindex, colindex), Pixel(ink, g, rowindex, colindex);
      assert w == Write(col, row, value);
      dmd.WritePixel(col, row, value);
      ExtendOne(pixels0, log0, sofar, w, dmd.log, dmd.pixels);
      assert RowWrites(ink, g, rowindex, colindex + 1) == sofar + [w];
      col, colindex := col - 1, colindex + 1;
    }
    assert colindex == g.colMax || g.colMax <= 0;
  }

  /** The nested `for` loops of one pass, issuing `writePixel` calls on `dmd`:
      the outer loop advances `row` and `rowindex` together. */
  method BlitPass(dmd: Canvas, ink: Ink, g: Region)
    requires Covers(ink, g)
    modifies dmd
    ensures dmd.log == old(dmd.log) + Pass(ink, g)
    ensures dmd.pixels == Apply(old(dmd.pixels), Pass(ink, g))
  {
    ghost var log0, pixels0 := dmd.log, dmd.pixels;
    var row, rowindex := g.rowStart, 0;
    while rowindex < g.rowMax
      invariant 0 <= rowindex <= Max0(g.rowMax)
      invariant row == g.rowStart + rowindex
      invariant dmd.log == log0 + PassRows(ink, g, rowindex)
      invariant dmd.pixels == Apply(pixels0, PassRows(ink, g, rowindex))
    {
      ghost var done := PassRows(ink, g, rowindex);
      BlitRow(dmd, ink, g, row, rowindex);
      ghost var line := RowWrites(ink, g, rowindex, g.colMax);
      assert PassRows(ink, g, rowindex + 1) == done + line;
      ConcatAssoc(log0, done, line);
      ApplyConcat(pixels0, done, line);
      row, rowindex := row + 1, rowindex + 1;
    }
  }

  /** The body shared by both animators: a draw pass of `p` over `h`, a
      hold (not modelled), then an erase pass of the same region. */
  method DrawAndErase(dmd: Canvas, p: seq<seq<int>>, h: Region)
    requires Fits(p, h.rowMax, h.colMax)
    modifies dmd
    ensures dmd.log == old(dmd.log) + DrawErase(p, h)
    ensures dmd.pixels == Apply(old(dmd.pixels), DrawErase(p, h))
  {
    ghost var log0, pixels0 := dmd.log, dmd.pixels;
    BlitPass(dmd, Paint(p), h);
    // delay: the hold time is not modelled
    BlitPass(dmd, Blank, h);
    ConcatAssoc(log0, Pass(Paint(p), h), Pass(Blank, h));
    ApplyConcat(pixels0, Pass(Paint(p), h), Pass(Blank, h));
  }
}
