/** The two animations the main loop plays, with the bounds it sets:
    `excmark` blinked over 7 rows of 64 columns, then `arrow_s` scrolled
    over 7 rows of 4 columns, both at row 4 and rightmost column 63. */
module Sketch {
  import opened Patterns
  import opened Blit
  import opened Blinking

  /** Both tables cover the loop bounds they are drawn with, so both calls
      meet the animators' index precondition. */
  lemma MainLoopBounds()
    ensures Fits(Excmark, 7, 64) && Fits(ArrowS, 7, 4)
  {
    ExcmarkShape();
    RectangularFits(Excmark, 7, 64, 7, 64);
    ArrowSShape();
    RectangularFits(ArrowS, 7, 4, 7, 4);
  }

  /** Each blink cycle of the 7x64 table issues 7 * 64 draws and 7 * 64
      erases, so the main loop's three cycles issue 2688 writes, wherever
      the region is placed (the main loop puts it at row 4, column 63). */
  lemma MainLoopBlinkCount(g: Region, cycle: int)
    requires g.rowMax == 7 && g.colMax == 64
    ensures Fits(Excmark, g.rowMax, g.colMax)
    ensures |BlinkLog(Excmark, g, cycle)| == Max0(cycle) * 896
    ensures cycle == 3 ==> |BlinkLog(Excmark, g, cycle)| == 2688
  {
    assert Size(g) == 448 by {
      assert Max0(g.rowMax) == 7 && Max0(g.colMax) == 64;
    }
    MainLoopBounds();
    BlinkLogCount(Excmark, g, cycle);
  }
}
