/** `draw_blinking_pattern`: while `cycle > 0`, draw the pattern at a fixed
    place, wait, erase it, decrement `cycle`, wait again. */
module Blinking {
  import opened Display
  import opened Blit

  /** The writes of `n` iterations of the blink loop: one draw-and-erase of
      the same region per iteration. */
  function BlinkLog(p: seq<seq<int>>, g: Region, n: int): seq<Write>
    requires Fits(p, g.rowMax, g.colMax)
    decreases n
  {
    if n <= 0 then [] else BlinkLog(p, g, n - 1) + DrawErase(p, g)
  }

  /** The routine issues `2 * cycle * rowMax * colMax` writes: one draw and
      one erase per cycle, and none at all when `cycle <= 0`. */
  lemma {:induction false} BlinkLogCount(p: seq<seq<int>>, g: Region, n: int)
    requires Fits(p, g.rowMax, g.colMax)
    ensures |BlinkLog(p, g, n)| == Max0(n) * (2 * Size(g))
    decreases n
  {
    if n > 0 {
      BlinkLogCount(p, g, n - 1);
      DrawEraseSize(p, g);
      MulStep(n - 1, 2 * Size(g));
    }
  }

  /** Cycle `i` of the run (counting from 0) is exactly one draw pass
      followed by one erase pass of the same region: its write `j` is
      write `j` of a draw-and-erase. */
  lemma {:induction false} BlinkLogCycle(p: seq<seq<int>>, g: Region, n: int, i: nat, j: nat)
    requires Fits(p, g.rowMax, g.colMax) && i < n && j < 2 * Size(g)
    ensures var f := 2 * Size(g);
      |DrawErase(p, g)| == f && i * f + j < |BlinkLog(p, g, n)|
      && BlinkLog(p, g, n)[i * f + j] == DrawErase(p, g)[j]
    decreases n
  {
    var f := 2 * Size(g);
    var prev := BlinkLog(p, g, n - 1);
    BlinkLogCount(p, g, n - 1);
    DrawEraseSize(p, g);
    assert BlinkLog(p, g, n) == prev + DrawErase(p, g);
    if i < n - 1 {
      BlinkLogCycle(p, g, n - 1, i, j);
    }
    FrameIndex(prev, DrawErase(p, g), n - 1, f, i, j);
  }

  /** The cell-to-pattern mapping of every cycle: in cycle `i`, write number
      `r * colMax + c` of the draw phase stores `pattern[r][c]` in cell
      (`colStart - c`, `rowStart + r`), and the same write of the erase phase
      stores 0 in that same cell. */
  lemma BlinkAt(p: seq<seq<int>>, g: Region, n: int, i: nat, r: nat, c: nat)
    requires Fits(p, g.rowMax, g.colMax) && i < n && r < g.rowMax && c < g.colMax
    ensures var at := Slot(g, i, r, c);
      at + Size(g) < |BlinkLog(p, g, n)|
      && BlinkLog(p, g, n)[at] == Write(g.colStart - c, g.rowStart + r, p[r][c])
      && BlinkLog(p, g, n)[at + Size(g)] == Write(g.colStart - c, g.rowStart + r, 0)
  {
    var k := r * g.colMax + c;
    DrawEraseAt(p, g, r, c);
    BlinkLogCycle(p, g, n, i, k);
    BlinkLogCycle(p, g, n, i, k + Size(g));
  }

  /** Every cycle erases what it drew, so after one or more cycles the
      pattern's footprint holds 0 and every other cell is unchanged; with
      `cycle <= 0` the canvas is not touched. */
  lemma {:induction false} BlinkLogClears(m: map<Cell, int>, p: seq<seq<int>>, g: Region, n: int)
    requires Fits(p, g.rowMax, g.colMax)
    ensures n <= 0 ==> Apply(m, BlinkLog(p, g, n)) == m
    ensures n >= 1 ==> Apply(m, BlinkLog(p, g, n)) == Erased(m, Footprint(g))
    decreases n
  {
    if n >= 1 {
      var prev := BlinkLog(p, g, n - 1);
      ApplyConcat(m, prev, DrawErase(p, g));
      DrawEraseClears(Apply(m, prev), p, g);
      BlinkLogClears(m, p, g, n - 1);
      if n > 1 {
        ErasedTwice(m, Footprint(g), Footprint(g));
        assert Footprint(g) + Footprint(g) == Footprint(g);
      }
    }
  }

  /** The routine itself, on the global canvas `dmd`. */
  method DrawBlinkingPattern(dmd: Canvas, pattern: seq<seq<int>>, rowStart: int, colStart: int,
                             rowMax: int, colMax: int, msdelay: int, cycle: int)
    requires Fits(pattern, rowMax, colMax)
    modifies dmd
    ensures dmd.log == old(dmd.log) + BlinkLog(pattern, Region(rowStart, colStart, rowMax, colMax), cycle)
    ensures cycle >= 1 ==> dmd.pixels == Erased(old(dmd.pixels), Footprint(Region(rowStart, colStart, rowMax, colMax)))
    ensures cycle <= 0 ==> dmd.pixels == old(dmd.pixels)
  {
    var g := Region(rowStart, colStart, rowMax, colMax);
    ghost var log0, pixels0 := dmd.log, dmd.pixels;
    var left := cycle;
    while left > 0
      invariant if cycle > 0 then 0 <= left <= cycle else left == cycle
      invariant dmd.log == log0 + BlinkLog(pattern, g, cycle - left)
      invariant dmd.pixels == Apply(pixels0, BlinkLog(pattern, g, cycle - left))
    {
      ghost var done := BlinkLog(pattern, g, cycle - left);
      DrawAndErase(dmd, pattern, g);  // the hold between the passes is delay(msdelay)
      Extend(pixels0, log0, done, DrawErase(pattern, g), dmd.log, dmd.pixels);
      left := left - 1;
      // delay(msdelay)
    }
    BlinkLogClears(pixels0, pattern, g, cycle);
  }
}
