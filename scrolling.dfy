/** `draw_scrolling_pattern`: while `cycle > 0`, draw the pattern shifted
    `pxjmp_step` columns to the left, wait, erase it, then move one column
    further; when the offset reaches 63 it starts again from 0 and one
    cycle is counted. */
module Scrolling {
  import opened Display
  import opened Blit

  /** The offset at which a sweep ends and the next one starts from 0. */
  const Wrap := 63

  /** The loop state that decides which pixels are written: the offset
      `pxjmp_step` and the remaining `cycle` count. */
  datatype Session = Session(shift: int, cycle: int)

  /** The update at the end of one iteration: step the offset by one and,
      when it lands on the wrap offset, restart it at 0 and count a cycle. */
  function Advance(s: Session): Session
  {
    var next := s.shift + 1;
    if next == Wrap then Session(0, s.cycle - 1) else Session(next, s.cycle)
  }

  /** The state after `k` iterations. */
  function Run(s: Session, k: nat): Session
  {
    if k == 0 then s else Advance(Run(s, k - 1))
  }

  /** The number of iterations a run that stops performs: the rest of the
      first sweep, then a full sweep of 63 offsets per further cycle. */
  function Iterations(s: Session): nat
    requires s.cycle <= 0 || s.shift < Wrap
  {
    if s.cycle <= 0 then 0 else (Wrap - s.shift) + Wrap * (s.cycle - 1)
  }

  /** The loop ends once the cycle count is no longer positive. */
  ghost predicate Terminates(s: Session)
  {
    exists k: nat :: Run(s, k).cycle <= 0
  }

  /** On offsets of a sweep the new offset is the old one plus one, modulo
      the wrap offset; the cycle count drops by exactly one, and only, when
      the offset wraps. */
  lemma AdvanceRule(s: Session)
    ensures 0 <= s.shift < Wrap ==> Advance(s).shift == (s.shift + 1) % Wrap
    ensures Advance(s).cycle == s.cycle - 1 <==> s.shift == Wrap - 1
    ensures s.shift != Wrap - 1 ==> Advance(s) == Session(s.shift + 1, s.cycle)
  {
  }

  /** Where the run stands after `k` iterations, when the offset starts
      below the wrap offset (a negative start included): it stays in its
      first sweep until the offset reaches 63, then it is `j % 63` into
      sweep number `j / 63 + 1`, where `j` counts the steps past that point. */
  lemma {:induction false} RunClosedForm(s: Session, k: nat)
    requires s.shift < Wrap
    ensures var t := s.shift + k;
      Run(s, k) == if t < Wrap then Session(t, s.cycle)
                   else Session((t - Wrap) % Wrap, s.cycle - 1 - (t - Wrap) / Wrap)
  {
    if k > 0 {
      RunClosedForm(s, k - 1);
      var t := s.shift + k;
      if t - 1 >= Wrap {
        var j := t - 1 - Wrap;
        assert Run(s, k - 1) == Session(j % Wrap, s.cycle - 1 - j / Wrap);
        if j % Wrap == Wrap - 1 {
          assert (j + 1) % Wrap == 0 && (j + 1) / Wrap == j / Wrap + 1;
        } else {
          assert (j + 1) % Wrap == j % Wrap + 1 && (j + 1) / Wrap == j / Wrap;
        }
      }
    }
  }

  /** From an offset at or past the wrap offset the offset only grows, so
      it never equals 63 and the cycle count never changes. */
  lemma {:induction false} RunStuck(s: Session, k: nat)
    requires s.shift >= Wrap
    ensures Run(s, k) == Session(s.shift + k, s.cycle)
  {
    if k > 0 {
      RunStuck(s, k - 1);
    }
  }

  /** A run that starts below the wrap offset (or with nothing to do) stops
      after exactly `Iterations(s)` iterations: the loop guard holds before
      each of them and fails after the last, with the offset back at 0. */
  lemma ScrollStops(s: Session)
    requires s.cycle <= 0 || s.shift < Wrap
    ensures Run(s, Iterations(s)).cycle <= 0
    ensures s.cycle > 0 ==> Run(s, Iterations(s)) == Session(0, 0)
    ensures forall k: nat :: k < Iterations(s) ==> Run(s, k).cycle > 0
  {
    if s.cycle > 0 {
      var n := Iterations(s);
      RunClosedForm(s, n);
      assert s.shift + n - Wrap == Wrap * (s.cycle - 1);
      forall k: nat | k < n ensures Run(s, k).cycle > 0 {
        RunClosedForm(s, k);
        var t := s.shift + k;
        if t >= Wrap {
          assert t - Wrap < Wrap * (s.cycle - 1);
          assert (t - Wrap) / Wrap < s.cycle - 1;
        }
      }
    }
  }

  /** With a positive cycle count the loop terminates if and only if the
      starting offset is below 63. */
  lemma TerminatesIff(s: Session)
    requires s.cycle > 0
    ensures Terminates(s) <==> s.shift < Wrap
  {
    if s.shift < Wrap {
      ScrollStops(s);
      assert Run(s, Iterations(s)).cycle <= 0;
    } else {
      forall k: nat ensures Run(s, k).cycle > 0 {
        RunStuck(s, k);
      }
    }
  }

  /** The offsets of the first `k` iterations, in the order they are used. */
  function Offsets(s: Session, k: nat): (ds: seq<int>)
    ensures |ds| == k
  {
    if k == 0 then [] else Offsets(s, k - 1) + [Run(s, k - 1).shift]
  }

  /** Offset number `i` is the one the run holds after `i` iterations. */
  lemma {:induction false} OffsetsAt(s: Session, k: nat, i: nat)
    requires i < k
    ensures Offsets(s, k)[i] == Run(s, i).shift
  {
    if i < k - 1 {
      OffsetsAt(s, k - 1, i);
      assert Offsets(s, k)[i] == Offsets(s, k - 1)[i];
    }
  }

  /** The lowest offset a stopping run uses: its starting offset, or 0
      when it goes on to a second sweep from a positive start. */
  function Lowest(s: Session): int
  {
    if s.cycle >= 2 && s.shift > 0 then 0 else s.shift
  }

  /** A stopping run uses the offsets `Lowest(s) .. 62`, each at least once,
      and no other. */
  lemma OffsetsRange(s: Session, d: int)
    requires s.cycle > 0 && s.shift < Wrap
    ensures forall i :: 0 <= i < Iterations(s) ==> Lowest(s) <= Offsets(s, Iterations(s))[i] < Wrap
    ensures Lowest(s) <= d < Wrap ==> exists i :: 0 <= i < Iterations(s) && Offsets(s, Iterations(s))[i] == d
  {
    OffsetsWithin(s);
    if Lowest(s) <= d < Wrap {
      OffsetsReach(s, d);
    }
  }

  lemma OffsetsWithin(s: Session)
    requires s.cycle > 0 && s.shift < Wrap
    ensures forall i :: 0 <= i < Iterations(s) ==> Lowest(s) <= Offsets(s, Iterations(s))[i] < Wrap
  {
    var n := Iterations(s);
    forall i | 0 <= i < n ensures Lowest(s) <= Offsets(s, n)[i] < Wrap {
      OffsetsAt(s, n, i);
      RunClosedForm(s, i);
    }
  }

  /** Offset `d` is used after `d - shift` iterations when it lies ahead of
      the start, and in the second sweep otherwise. */
  lemma OffsetsReach(s: Session, d: int)
    requires s.cycle > 0 && s.shift < Wrap && Lowest(s) <= d < Wrap
    ensures exists i :: 0 <= i < Iterations(s) && Offsets(s, Iterations(s))[i] == d
  {
    var n := Iterations(s);
    var i: nat := if d >= s.shift then d - s.shift else Wrap - s.shift + d;
    OffsetsAt(s, n, i);
    RunClosedForm(s, i);
    assert Offsets(s, n)[i] == d;
  }

  /** The writes of one iteration per offset of `ds`, in order: each a
      draw-and-erase of the region moved left by that offset. */
  function SweepLog(p: seq<seq<int>>, g: Region, ds: seq<int>): seq<Write>
    requires Fits(p, g.rowMax, g.colMax)
    decreases |ds|
  {
    if ds == [] then []
    else SweepLog(p, g, ds[..|ds| - 1]) + DrawErase(p, g.Shifted(ds[|ds| - 1]))
  }

  /** Moving a region does not change its size. */
  lemma ShiftedSize(g: Region, d: int)
    ensures Size(g.Shifted(d)) == Size(g) && g.Shifted(d).rowMax == g.rowMax
    ensures g.Shifted(d).colMax == g.colMax && g.Shifted(d).rowStart == g.rowStart
  {
  }

  lemma SweepLogStep(p: seq<seq<int>>, g: Region, ds: seq<int>, d: int)
    requires Fits(p, g.rowMax, g.colMax)
    ensures SweepLog(p, g, ds + [d]) == SweepLog(p, g, ds) + DrawErase(p, g.Shifted(d))
  {
    assert (ds + [d])[..|ds|] == ds;
  }

  /** One more iteration of the loop appends the draw-and-erase at the
      offset the run holds after `k` iterations. */
  lemma SweepGrows(m0: map<Cell, int>, log0: seq<Write>, p: seq<seq<int>>, g: Region, s: Session, k: nat,
                   log: seq<Write>, pixels: map<Cell, int>)
    requires Fits(p, g.rowMax, g.colMax)
    requires log == log0 + SweepLog(p, g, Offsets(s, k)) + DrawErase(p, g.Shifted(Run(s, k).shift))
    requires pixels == Apply(Apply(m0, SweepLog(p, g, Offsets(s, k))), DrawErase(p, g.Shifted(Run(s, k).shift)))
    ensures log == log0 + SweepLog(p, g, Offsets(s, k + 1))
    ensures pixels == Apply(m0, SweepLog(p, g, Offsets(s, k + 1)))
  {
    var step := DrawErase(p, g.Shifted(Run(s, k).shift));
    Extend(m0, log0, SweepLog(p, g, Offsets(s, k)), step, log, pixels);
    SweepLogStep(p, g, Offsets(s, k), Run(s, k).shift);
  }

  /** Each iteration issues one draw and one erase pass. */
  lemma {:induction false} SweepLogCount(p: seq<seq<int>>, g: Region, ds: seq<int>)
    requires Fits(p, g.rowMax, g.colMax)
    ensures |SweepLog(p, g, ds)| == |ds| * (2 * Size(g))
    decreases |ds|
  {
    if ds != [] {
      var d := ds[|ds| - 1];
      SweepLogCount(p, g, ds[..|ds| - 1]);
      DrawEraseSize(p, g.Shifted(d));
      ShiftedSize(g, d);
      MulStep(|ds| - 1, 2 * Size(g));
    }
  }

  /** Iteration `i` (counting from 0) is exactly a draw pass and an erase
      pass of the region moved left by offset `ds[i]`: its write `j` is
      write `j` of that draw-and-erase. */
  lemma {:induction false} SweepLogIteration(p: seq<seq<int>>, g: Region, ds: seq<int>, i: nat, j: nat)
    requires Fits(p, g.rowMax, g.colMax) && i < |ds| && j < 2 * Size(g)
    ensures var f := 2 * Size(g);
      |DrawErase(p, g.Shifted(ds[i]))| == f && i * f + j < |SweepLog(p, g, ds)|
      && SweepLog(p, g, ds)[i * f + j] == DrawErase(p, g.Shifted(ds[i]))[j]
    decreases |ds|
  {
    var f, n := 2 * Size(g), |ds| - 1;
    var front, d := ds[..n], ds[n];
    var prev, last := SweepLog(p, g, front), DrawErase(p, g.Shifted(d));
    SweepLogCount(p, g, front);
    DrawEraseSize(p, g.Shifted(d));
    ShiftedSize(g, d);
    assert SweepLog(p, g, ds) == prev + last;
    DrawEraseSize(p, g.Shifted(ds[i]));
    ShiftedSize(g, ds[i]);
    if i < n {
      SweepLogIteration(p, g, front, i, j);
      assert front[i] == ds[i];
    }
    FrameIndex(prev, last, n, f, i, j);
  }

  /** The cell-to-pattern mapping of iteration `i`, run at offset
      `d = ds[i]`: its draw phase stores `pattern[r][c]` in cell
      (`colStart - d - c`, `rowStart + r`), and its erase phase stores 0 in
      that same cell. */
  lemma SweepAt(p: seq<seq<int>>, g: Region, ds: seq<int>, i: nat, r: nat, c: nat)
    requires Fits(p, g.rowMax, g.colMax) && i < |ds| && r < g.rowMax && c < g.colMax
    ensures var at := Slot(g, i, r, c);
      at + Size(g) < |SweepLog(p, g, ds)|
      && SweepLog(p, g, ds)[at] == Write(g.colStart - ds[i] - c, g.rowStart + r, p[r][c])
      && SweepLog(p, g, ds)[at + Size(g)] == Write(g.colStart - ds[i] - c, g.rowStart + r, 0)
  {
    var k := r * g.colMax + c;
    ShiftedSize(g, ds[i]);
    DrawEraseAt(p, g.Shifted(ds[i]), r, c);
    SweepLogIteration(p, g, ds, i, k);
    SweepLogIteration(p, g, ds, i, k + Size(g));
  }

  /** The cells a sweep writes are those of the pattern at each of its
      offsets. */
  lemma {:induction false} SweepCells(p: seq<seq<int>>, g: Region, ds: seq<int>, cell: Cell)
    requires Fits(p, g.rowMax, g.colMax)
    ensures cell in Cells(SweepLog(p, g, ds))
        <==> exists i :: 0 <= i < |ds| && Inside(g.Shifted(ds[i]), cell)
    decreases |ds|
  {
    if ds != [] {
      var n := |ds| - 1;
      var front, h := ds[..n], g.Shifted(ds[n]);
      var prev, last := SweepLog(p, g, front), DrawErase(p, h);
      SweepCells(p, g, front, cell);
      assert SweepLog(p, g, ds) == prev + last;
      CellsConcat(prev, last);
      DrawEraseCells(p, h);
      if cell in Cells(prev) {
        var i :| 0 <= i < n && Inside(g.Shifted(front[i]), cell);
        assert front[i] == ds[i];
      } else if !Inside(h, cell) {
        VisitsNone(g, ds, front, cell);
      }
    }
  }

  /** A cell outside every offset of `front` and outside the last offset
      of `ds` is outside all the offsets of `ds`. */
  lemma VisitsNone(g: Region, ds: seq<int>, front: seq<int>, cell: Cell)
    requires ds != [] && front == ds[..|ds| - 1]
    requires !exists i :: 0 <= i < |front| && Inside(g.Shifted(front[i]), cell)
    requires !Inside(g.Shifted(ds[|ds| - 1]), cell)
    ensures !exists i :: 0 <= i < |ds| && Inside(g.Shifted(ds[i]), cell)
  {
    forall i | 0 <= i < |front| ensures !Inside(g.Shifted(ds[i]), cell) {
      assert front[i] == ds[i];
    }
  }

  /** Every iteration erases what it drew, so after any sweep every cell
      written holds 0 and every other cell is as it was. */
  lemma {:induction false} SweepClears(m: map<Cell, int>, p: seq<seq<int>>, g: Region, ds: seq<int>)
    requires Fits(p, g.rowMax, g.colMax)
    ensures Apply(m, SweepLog(p, g, ds)) == Erased(m, Cells(SweepLog(p, g, ds)))
    decreases |ds|
  {
    if ds == [] {
      assert Cells([]) == {};
    } else {
      var front, h := ds[..|ds| - 1], g.Shifted(ds[|ds| - 1]);
      var prev, last := SweepLog(p, g, front), DrawErase(p, h);
      assert SweepLog(p, g, ds) == prev + last;
      SweepClears(m, p, g, front);
      ApplyConcat(m, prev, last);
      DrawEraseClears(Apply(m, prev), p, h);
      ErasedTwice(m, Cells(prev), Cells(last));
      CellsConcat(prev, last);
    }
  }

  /** All the writes of a call that returns. */
  function ScrollLog(p: seq<seq<int>>, g: Region, s: Session): seq<Write>
    requires Fits(p, g.rowMax, g.colMax) && (s.cycle <= 0 || s.shift < Wrap)
  {
    SweepLog(p, g, Offsets(s, Iterations(s)))
  }

  /** The routine issues `2 * rowMax * colMax` writes per iteration, for
      `Iterations(s)` iterations, and none when `cycle <= 0`. */
  lemma ScrollLogCount(p: seq<seq<int>>, g: Region, s: Session)
    requires Fits(p, g.rowMax, g.colMax) && (s.cycle <= 0 || s.shift < Wrap)
    ensures |ScrollLog(p, g, s)| == Iterations(s) * (2 * Size(g))
    ensures s.cycle <= 0 ==> ScrollLog(p, g, s) == []
  {
    SweepLogCount(p, g, Offsets(s, Iterations(s)));
  }

  /** The cell-to-pattern mapping of iteration `i` of the call, at the
      offset the run holds after `i` iterations. */
  lemma ScrollAt(p: seq<seq<int>>, g: Region, s: Session, i: nat, r: nat, c: nat)
    requires Fits(p, g.rowMax, g.colMax) && (s.cycle <= 0 || s.shift < Wrap)
    requires i < Iterations(s) && r < g.rowMax && c < g.colMax
    ensures var at := Slot(g, i, r, c);
      at + Size(g) < |ScrollLog(p, g, s)|
      && ScrollLog(p, g, s)[at] == Write(g.colStart - Run(s, i).shift - c, g.rowStart + r, p[r][c])
      && ScrollLog(p, g, s)[at + Size(g)] == Write(g.colStart - Run(s, i).shift - c, g.rowStart + r, 0)
  {
    OffsetsAt(s, Iterations(s), i);
    SweepAt(p, g, Offsets(s, Iterations(s)), i, r, c);
  }

  /** The cells a call writes form one band: the pattern's rows, from the
      column of the lowest offset's right edge, `colStart - Lowest(s)`,
      leftwards past offset 62 to `colStart - 62 - colMax + 1`. */
  lemma ScrollCells(p: seq<seq<int>>, g: Region, s: Session)
    requires Fits(p, g.rowMax, g.colMax) && s.cycle > 0 && s.shift < Wrap && g.colMax > 0
    ensures Cells(ScrollLog(p, g, s))
      == Footprint(Region(g.rowStart, g.colStart - Lowest(s), g.rowMax, g.colMax + Wrap - 1 - Lowest(s)))
  {
    var ds, lo := Offsets(s, Iterations(s)), Lowest(s);
    var band := Region(g.rowStart, g.colStart - lo, g.rowMax, g.colMax + Wrap - 1 - lo);
    forall cell ensures cell in Cells(ScrollLog(p, g, s)) <==> Inside(band, cell) {
      SweepCells(p, g, ds, cell);
      if Inside(band, cell) {
        var d := if g.colStart - cell.0 < Wrap - 1 then g.colStart - cell.0 else Wrap - 1;
        BandHit(g, lo, cell);
        OffsetsRange(s, d);
        var i :| 0 <= i < |ds| && ds[i] == d;
        assert Inside(g.Shifted(ds[i]), cell);
      } else {
        OffsetsRange(s, 0);
        forall i | 0 <= i < |ds| ensures !Inside(g.Shifted(ds[i]), cell) {
          WithinBand(g, lo, ds[i], cell);
        }
      }
    }
  }

  /** Every cell of the band is covered by the pass at some offset in
      `lo .. Wrap - 1`. */
  lemma BandHit(g: Region, lo: int, cell: Cell)
    requires g.colMax > 0 && lo < Wrap
    requires Inside(Region(g.rowStart, g.colStart - lo, g.rowMax, g.colMax + Wrap - 1 - lo), cell)
    ensures var d := if g.colStart - cell.0 < Wrap - 1 then g.colStart - cell.0 else Wrap - 1;
      lo <= d < Wrap && Inside(g.Shifted(d), cell)
  {
  }

  /** A pass at an offset in `lo .. Wrap - 1` stays within the band of
      columns the whole scroll covers. */
  lemma WithinBand(g: Region, lo: int, d: int, cell: Cell)
    requires lo <= d < Wrap
    ensures Inside(g.Shifted(d), cell) ==> Inside(Region(g.rowStart, g.colStart - lo, g.rowMax, g.colMax + Wrap - 1 - lo), cell)
  {
  }

  /** The routine itself, on the global canvas `dmd`. It returns only when
      it is started below the wrap offset or with nothing to do. */
  method DrawScrollingPattern(dmd: Canvas, pattern: seq<seq<int>>, rowStart: int, colStart: int,
                              rowMax: int, colMax: int, pxjmpStep: int, cycle: int)
    requires Fits(pattern, rowMax, colMax)
    requires cycle <= 0 || pxjmpStep < Wrap
    modifies dmd
    ensures dmd.log == old(dmd.log)
      + ScrollLog(pattern, Region(rowStart, colStart, rowMax, colMax), Session(pxjmpStep, cycle))
    ensures dmd.pixels == Erased(old(dmd.pixels),
      Cells(ScrollLog(pattern, Region(rowStart, colStart, rowMax, colMax), Session(pxjmpStep, cycle))))
  {
    var g := Region(rowStart, colStart, rowMax, colMax);
    ghost var s0 := Session(pxjmpStep, cycle);
    ghost var log0, pixels0 := dmd.log, dmd.pixels;
    ghost var k: nat := 0;
    ScrollStops(s0);
    var shift, left := pxjmpStep, cycle;
    while left > 0
      invariant k <= Iterations(s0)
      invariant Session(shift, left) == Run(s0, k)
      invariant dmd.log == log0 + SweepLog(pattern, g, Offsets(s0, k))
      invariant dmd.pixels == Apply(pixels0, SweepLog(pattern, g, Offsets(s0, k)))
      decreases Iterations(s0) - k
    {
      assert k != Iterations(s0);
      DrawAndErase(dmd, pattern, g.Shifted(shift));  // the hold is delay(1 + step)
      // the hold `step` then eases off: not modelled
      SweepGrows(pixels0, log0, pattern, g, s0, k, dmd.log, dmd.pixels);
      ghost var next := Advance(Session(shift, left));
      assert Run(s0, k + 1) == next;
      shift := shift + 1;
      if shift == Wrap {
        shift := 0;
        left := left - 1;
      }
      assert Session(shift, left) == next;
      k := k + 1;
    }
    SweepClears(pixels0, pattern, g, Offsets(s0, k));
  }
}
