/** The compile-time bitmap tables of the sketch: row-major grids of 0/1
    pixel values, fed to the animators as their `pattern` argument. */
module Patterns {
  import opened Blit

  /** A grid has exactly `rows` rows of `cols` entries each. */
  predicate Rectangular(p: seq<seq<int>>, rows: nat, cols: nat)
  {
    |p| == rows && forall r :: 0 <= r < |p| ==> |p[r]| == cols
  }

  /** Every entry of the grid is 0 (off) or 1 (on). */
  predicate Binary(p: seq<seq<int>>)
  {
    forall r, c :: 0 <= r < |p| && 0 <= c < |p[r]| ==> p[r][c] == 0 || p[r][c] == 1
  }

  /** A row holds only 0/1 entries. */
  predicate BinaryRow(row: seq<int>)
  {
    forall v :: v in row ==> v == 0 || v == 1
  }

  /** The arrow glyph scrolled across the panel (commented as 7x4). */
  const ArrowS: seq<seq<int>> := [
    [1,0,0,0],
    [0,1,0,0],
    [0,0,1,0],
    [0,0,0,1],
    [0,0,1,0],
    [0,1,0,0],
    [1,0,0,0]
  ]

  /** A lightning bolt glyph (commented as 7x14). */
  const Lightning: seq<seq<int>> := [
    [1,0,0,0,0,0,1,0,0,0,0,0,0,0],
    [1,1,0,0,0,0,1,1,1,0,0,0,0,0],
    [0,1,1,1,0,0,1,1,1,1,0,0,0,0],
    [0,0,1,1,1,1,1,1,1,1,1,0,0,0],
    [0,0,0,1,1,1,1,0,0,1,1,1,0,0],
    [0,0,0,0,1,1,1,0,0,0,1,1,1,0],
    [0,0,0,0,0,0,1,0,0,0,0,0,1,1]
  ]

  /** The exclamation mark blinked by the main loop (commented as 7x64).
      Each 64-entry row is named and written as four 16-entry pieces, joined. */
  const Excmark: seq<seq<int>> :=
    [ExcmarkRow0, ExcmarkRow1, ExcmarkRow2, ExcmarkRow3, ExcmarkRow4, ExcmarkRow5, ExcmarkRow6]

  const ExcmarkRow0: seq<int> :=
    [0,0,0,0,0,0,0,0,0,0,0,0,0,0,0,0]
      + [0,0,0,0,0,0,0,0,0,0,0,0,0,0,0,0]
      + [0,0,0,0,1,1,1,1,1,1,1,1,1,1,1,1]
      + [1,1,1,1,1,1,1,1,0,0,0,0,0,0,0,0]

  const ExcmarkRow1: seq<int> :=
    [0,0,0,0,0,0,0,1,1,1,1,1,0,0,0,0]
      + [0,0,0,0,0,0,0,0,1,1,1,1,1,1,1,1]
      + [1,1,1,1,1,1,1,1,1,1,1,1,1,1,1,1]
      + [1,1,1,1,1,1,1,1,0,0,0,0,0,0,0,0]

  const ExcmarkRow2: seq<int> :=
    [0,0,0,0,0,0,0,1,1,1,1,1,0,0,0,1]
      + [1,1,1,1,1,1,1,1,1,1,1,1,1,1,1,1]
      + [1,1,1,1,1,1,1,1,1,1,1,1,1,1,1,1]
      + [1,1,1,1,1,1,1,1,0,0,0,0,0,0,0,0]

  const ExcmarkRow3: seq<int> :=
    [0,0,0,0,0,0,0,1,1,1,1,1,0,0,0,1]
      + [1,1,1,1,1,1,1,1,1,1,1,1,1,1,1,1]
      + [1,1,1,1,1,1,1,1,1,1,1,1,1,1,1,1]
      + [1,1,1,1,1,1,1,1,0,0,0,0,0,0,0,0]

  const ExcmarkRow4: seq<int> :=
    [0,0,0,0,0,0,0,1,1,1,1,1,0,0,0,1]
      + [1,1,1,1,1,1,1,1,1,1,1,1,1,1,1,1]
      + [1,1,1,1,1,1,1,1,1,1,1,1,1,1,1,1]
      + [1,1,1,1,1,1,1,1,0,0,0,0,0,0,0,0]

  const ExcmarkRow5: seq<int> :=
    [0,0,0,0,0,0,0,1,1,1,1,1,0,0,0,0]
      + [0,0,0,0,0,0,0,0,1,1,1,1,1,1,1,1]
      + [1,1,1,1,1,1,1,1,1,1,1,1,1,1,1,1]
      + [1,1,1,1,1,1,1,1,0,0,0,0,0,0,0,0]

  const ExcmarkRow6: seq<int> :=
    [0,0,0,0,0,0,0,0,0,0,0,0,0,0,0,0]
      + [0,0,0,0,0,0,0,0,0,0,0,0,0,0,0,0]
      + [0,0,0,0,1,1,1,1,1,1,1,1,1,1,1,1]
      + [1,1,1,1,1,1,1,1,0,0,0,0,0,0,0,0]

  lemma {:induction false} BinaryByRows(p: seq<seq<int>>)
    requires forall r :: 0 <= r < |p| ==> BinaryRow(p[r])
    ensures Binary(p)
  {
    forall r, c | 0 <= r < |p| && 0 <= c < |p[r]|
      ensures p[r][c] == 0 || p[r][c] == 1
    {
      assert p[r][c] in p[r] && BinaryRow(p[r]);
    }
  }

  /** `arrow_s` is the 7x4 grid of bits its comment states. */
  lemma ArrowSShape()
    ensures Rectangular(ArrowS, 7, 4) && Binary(ArrowS)
  {
    BinaryByRows(ArrowS);
  }

  /** `lightning` is the 7x14 grid of bits its comment states. */
  lemma LightningShape()
    ensures Rectangular(Lightning, 7, 14) && Binary(Lightning)
  {
    BinaryByRows(Lightning);
  }

  /** Row by row, `excmark` has 64 entries, each 0 or 1. */
  lemma ExcmarkRow0Bits()
    ensures |ExcmarkRow0| == 64 && BinaryRow(ExcmarkRow0)
  {
  }

  lemma ExcmarkRow1Bits()
    ensures |ExcmarkRow1| == 64 && BinaryRow(ExcmarkRow1)
  {
  }

  lemma ExcmarkRow2Bits()
    ensures |ExcmarkRow2| == 64 && BinaryRow(ExcmarkRow2)
  {
  }

  lemma ExcmarkRow3Bits()
    ensures |ExcmarkRow3| == 64 && BinaryRow(ExcmarkRow3)
  {
  }

  lemma ExcmarkRow4Bits()
    ensures |ExcmarkRow4| == 64 && BinaryRow(ExcmarkRow4)
  {
  }

  lemma ExcmarkRow5Bits()
    ensures |ExcmarkRow5| == 64 && BinaryRow(ExcmarkRow5)
  {
  }

  lemma ExcmarkRow6Bits()
    ensures |ExcmarkRow6| == 64 && BinaryRow(ExcmarkRow6)
  {
  }

  /** `excmark` is the 7x64 grid of bits its comment states. */
  lemma ExcmarkShape()
    ensures Rectangular(Excmark, 7, 64) && Binary(Excmark)
  {
    ExcmarkRow0Bits();
    ExcmarkRow1Bits();
    ExcmarkRow2Bits();
    ExcmarkRow3Bits();
    ExcmarkRow4Bits();
    ExcmarkRow5Bits();
    ExcmarkRow6Bits();
    BinaryByRows(Excmark);
  }

  /** A rectangular table fits every pair of loop bounds within its shape:
      the animators then read `pattern[rowindex][colindex]` inside the table. */
  lemma RectangularFits(p: seq<seq<int>>, rows: nat, cols: nat, rowMax: int, colMax: int)
    requires Rectangular(p, rows, cols) && rowMax <= rows && colMax <= cols
    ensures Fits(p, rowMax, colMax)
  {
  }
}
