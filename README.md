# Pattern animators of the DMD32 demo sketch

This project models the two bitmap animators of the demo sketch
`active_workspace/xsarj_test.cpp` and proves what they do. It also models the
bitmap tables they are fed.

- **`draw_blinking_pattern`** draws a pattern at a fixed place on the LED
  panel, holds, and erases it. It then holds again and counts down `cycle`.
- **`draw_scrolling_pattern`** draws the pattern shifted `pxjmp_step`
  columns to the left, holds, and erases it. It then moves one column
  further. When the offset reaches 63 it restarts at 0 and counts down
  `cycle`.

Both animators run the same nested loops. They walk the pattern row by row,
and within a row column by column. Pattern cell (r, c) goes to panel column
`COL_START - shift - c` of panel row `ROW_START + r`, so the glyph is laid
out right to left. A draw pass writes the pattern value and an erase pass
writes 0, to the same cells in the same order.

The modules follow the sketch's structure:

- `Display` (canvas.dfy) models the panel buffer that `dmd.writePixel`
  updates. It is a `Canvas` class with a map from cells to values and a ghost
  log of every write. The module also holds the algebra of write sequences:
  `Apply`, `Cells` and `Erased`.
- `Patterns` (patterns.dfy) holds the tables `arrow_s`, `lightning` and
  `excmark`, and shows that a rectangular table meets the animators' index
  precondition `Fits` for any loop bounds within its shape.
- `Blit` (blit.dfy) holds the nested `for` loops as the methods `BlitRow`
  and `BlitPass`, and their specification: `Pass`, `DrawErase` and
  `Footprint`.
- `Blinking` (blinking.dfy) and `Scrolling` (scrolling.dfy) each hold one
  animator as a method with its loop. Each method is proved against a
  specification function of the whole write log: `BlinkLog` and
  `ScrollLog`.
- `Sketch` (sketch.dfy) connects the tables to the animators for the bounds
  the main loop uses.

The scrolling loop state (`pxjmp_step`, `cycle`) is the `Session` value.
`Advance` is one iteration's update.

- `Iterations` counts the iterations of a call that returns:
  `(63 - pxjmp_step) + 63 * (cycle - 1)`.
- `Offsets` lists the offsets used, in order.
- With `cycle > 0`, the call returns exactly when it starts below offset
  63; see `TerminatesIff`. With `cycle <= 0` the loop is not entered and
  the call returns at once, whatever the offset.

Points about how the code behaves:

- The first sweep starts at the given `pxjmp_step`, so the call performs
  `cycle` full sweeps of the 63 offsets only when it starts at 0.
- With `cycle > 0`, a start at 63 or beyond never returns (with unbounded
  integers, see Left out).
- With `cycle >= 2` and a positive start, every offset 0..62 is used.
  With `cycle == 1`, only the offsets from the start offset to 62 are used.
- The erased band reaches `colMax - 1` columns past column
  `COL_START - 62`. For `arrow_s` at `COL_START = 63` that means columns
  -2 and -1, off the panel's left edge.

## Model

| member | source | states |
|---|---|---|
| Patterns.ArrowSShape | active_workspace/xsarj_test.cpp:143-153 | `arrow_s` has 7 rows of 4 entries, and every entry is 0 or 1 |
| Patterns.LightningShape | active_workspace/xsarj_test.cpp:155-164 | `lightning` has 7 rows of 14 entries, and every entry is 0 or 1 |
| Patterns.ExcmarkRow0Bits | active_workspace/xsarj_test.cpp:168 | the first row of `excmark` has 64 entries, each 0 or 1 |
| Patterns.ExcmarkRow1Bits | active_workspace/xsarj_test.cpp:169 | the second row of `excmark` has 64 entries, each 0 or 1 |
| Patterns.ExcmarkRow2Bits | active_workspace/xsarj_test.cpp:170 | the third row of `excmark` has 64 entries, each 0 or 1 |
| Patterns.ExcmarkRow3Bits | active_workspace/xsarj_test.cpp:171 | the fourth row of `excmark` has 64 entries, each 0 or 1 |
| Patterns.ExcmarkRow4Bits | active_workspace/xsarj_test.cpp:172 | the fifth row of `excmark` has 64 entries, each 0 or 1 |
| Patterns.ExcmarkRow5Bits | active_workspace/xsarj_test.cpp:173 | the sixth row of `excmark` has 64 entries, each 0 or 1 |
| Patterns.ExcmarkRow6Bits | active_workspace/xsarj_test.cpp:174 | the seventh row of `excmark` has 64 entries, each 0 or 1 |
| Patterns.ExcmarkShape | active_workspace/xsarj_test.cpp:166-175 | `excmark` has 7 rows of 64 entries, and every entry is 0 or 1 |
| Patterns.RectangularFits | active_workspace/xsarj_test.cpp:187-191 | a table of `rows` rows of `cols` entries lets the loops read `pattern[rowindex][colindex]` for any bounds `rowMax <= rows`, `colMax <= cols` |
| Sketch.MainLoopBounds | active_workspace/xsarj_test.cpp:274-290 | `excmark` covers the bounds 7x64 and `arrow_s` the bounds 7x4 that `loop()` draws them with |
| Sketch.MainLoopBlinkCount | active_workspace/xsarj_test.cpp:226-256 | blinking the 7x64 `excmark` for `cycle` cycles issues `896 * cycle` writes (none for `cycle <= 0`), 2688 for the main loop's three cycles |
| Display.Canvas.WritePixel | active_workspace/xsarj_test.cpp:191 | `writePixel` in normal mode replaces the value of cell (col, row), changes no other cell, and appends that write to the log |
| Display.ApplyAllOff | active_workspace/xsarj_test.cpp:204-210 | a run of writes that all store 0 sets exactly the cells it writes to 0 and leaves every other cell as it was |
| Display.ErasedAbsorbs | active_workspace/xsarj_test.cpp:187-210 | erasing a set of cells hides every earlier write to those cells |
| Display.DrawThenErase | active_workspace/xsarj_test.cpp:187-210 | a draw followed by an all-zero erase that covers every drawn cell leaves only the erased cells changed, all to 0 |
| Blit.RowWritesAt | active_workspace/xsarj_test.cpp:189-191 | the column loop of row r issues one write per column. Write c goes to column `colStart - c`, row `rowStart + r`, and stores `pattern[r][c]` (or 0 when erasing) |
| Blit.PassRowsAt | active_workspace/xsarj_test.cpp:187-195 | after n rows of the nested loops there are `n * colMax` writes. Write `r * colMax + c` is the one for pattern cell (r, c) |
| Blit.PassAt | active_workspace/xsarj_test.cpp:187-195 | a whole pass has `rowMax * colMax` writes (none when a bound is not positive), row-major in pattern order |
| Blit.RowCells | active_workspace/xsarj_test.cpp:189-193 | one row of the loops writes exactly its `colMax` cells of that panel row |
| Blit.PassRowsCells | active_workspace/xsarj_test.cpp:187-195 | the first n rows of the loops write exactly the top n rows of the footprint |
| Blit.PassCells | active_workspace/xsarj_test.cpp:187-195 | a pass writes exactly the cells of its rectangle: columns `colStart - colMax + 1 .. colStart`, rows `rowStart .. rowStart + rowMax - 1` |
| Blit.BlankOff | active_workspace/xsarj_test.cpp:204-210 | every write of the erase loops stores 0 |
| Blit.EraseMatchesDraw | active_workspace/xsarj_test.cpp:187-210 | the erase loops issue as many writes as the draw loops, to the same cells in the same order, each storing 0 |
| Blit.DrawEraseSize | active_workspace/xsarj_test.cpp:187-210 | one draw-and-erase issues `2 * rowMax * colMax` writes |
| Blit.DrawEraseAt | active_workspace/xsarj_test.cpp:187-210 | in a draw-and-erase, write `r * colMax + c` stores `pattern[r][c]` in cell (`colStart - c`, `rowStart + r`). The write `rowMax * colMax` places later stores 0 in the same cell |
| Blit.DrawEraseCells | active_workspace/xsarj_test.cpp:187-210 | a draw-and-erase writes exactly the pattern's footprint |
| Blit.DrawEraseClears | active_workspace/xsarj_test.cpp:187-210 | after a draw-and-erase the footprint holds 0 and every other cell is unchanged |
| Blit.BlitRow | active_workspace/xsarj_test.cpp:189-193 | the column loop appends exactly the writes of one pattern row to the log and applies them to the canvas |
| Blit.BlitPass | active_workspace/xsarj_test.cpp:187-195 | the nested loops append exactly one pass to the log and apply it to the canvas |
| Blit.DrawAndErase | active_workspace/xsarj_test.cpp:187-210 | a draw pass followed by an erase pass of the same region appends one draw-and-erase to the log and applies it to the canvas; it is the loop body of the scroll here and of the blink at lines 231-250 |
| Blinking.BlinkLogCount | active_workspace/xsarj_test.cpp:228-255 | n cycles issue `2 * n * rowMax * colMax` writes, and none when `cycle <= 0` |
| Blinking.BlinkLogCycle | active_workspace/xsarj_test.cpp:228-255 | cycle i of the log is exactly one draw-and-erase of the fixed region |
| Blinking.BlinkAt | active_workspace/xsarj_test.cpp:231-250 | in cycle i, the draw write for cell (r, c) stores `pattern[r][c]` at (`COL_START - c`, `ROW_START + r`). The matching erase write stores 0 there |
| Blinking.BlinkLogClears | active_workspace/xsarj_test.cpp:228-255 | after one or more cycles the footprint holds 0 and every other cell is unchanged. With no cycles the canvas is untouched |
| Blinking.DrawBlinkingPattern | active_workspace/xsarj_test.cpp:226-256 | the routine's writes are exactly the blink log of `cycle` cycles. The canvas ends with the footprint at 0 (for `cycle >= 1`) or unchanged (for `cycle <= 0`) |
| Scrolling.AdvanceRule | active_workspace/xsarj_test.cpp:212-220 | inside a sweep the offset steps by one modulo 63. The cycle count drops by one exactly when the offset wraps |
| Scrolling.RunClosedForm | active_workspace/xsarj_test.cpp:184-222 | the closed form of the loop state after k iterations, for any start below 63 |
| Scrolling.RunStuck | active_workspace/xsarj_test.cpp:212-220 | from an offset of 63 or more, the offset only grows and the cycle count never changes |
| Scrolling.ScrollStops | active_workspace/xsarj_test.cpp:184-222 | a call started below 63 runs exactly `(63 - pxjmp_step) + 63 * (cycle - 1)` iterations, and the guard holds before each one. The state ends at offset 0 with cycle 0 |
| Scrolling.TerminatesIff | active_workspace/xsarj_test.cpp:184-222 | with `cycle > 0`, the loop ends if and only if the starting offset is below 63 |
| Scrolling.OffsetsAt | active_workspace/xsarj_test.cpp:189 | iteration i uses the offset the loop state holds after i iterations |
| Scrolling.OffsetsWithin | active_workspace/xsarj_test.cpp:212-220 | every offset a returning call uses lies in `Lowest .. 62` |
| Scrolling.OffsetsReach | active_workspace/xsarj_test.cpp:212-220 | every offset in `Lowest .. 62` is used by some iteration |
| Scrolling.OffsetsRange | active_workspace/xsarj_test.cpp:212-220 | a returning call uses the offsets `Lowest .. 62`, each at least once, and no other |
| Scrolling.SweepLogCount | active_workspace/xsarj_test.cpp:184-222 | each iteration issues `2 * rowMax * colMax` writes |
| Scrolling.SweepLogIteration | active_workspace/xsarj_test.cpp:187-210 | iteration i of the log is exactly one draw-and-erase of the region moved left by that iteration's offset |
| Scrolling.SweepAt | active_workspace/xsarj_test.cpp:187-210 | in iteration i, the draw write for cell (r, c) stores `pattern[r][c]` at column `COL_START - offset - c`, row `ROW_START + r`. The matching erase write stores 0 there |
| Scrolling.SweepCells | active_workspace/xsarj_test.cpp:187-210 | a cell is written if and only if it lies in the footprint at one of the offsets used |
| Scrolling.SweepClears | active_workspace/xsarj_test.cpp:204-210 | after any run of iterations every written cell holds 0 and every other cell is unchanged |
| Scrolling.ScrollLogCount | active_workspace/xsarj_test.cpp:184-222 | a returning call issues `Iterations * 2 * rowMax * colMax` writes, and none when `cycle <= 0` |
| Scrolling.ScrollAt | active_workspace/xsarj_test.cpp:187-210 | in iteration i of a call, the draw write for cell (r, c) stores `pattern[r][c]` at column `COL_START - offset_i - c`. The erase write stores 0 there |
| Scrolling.ScrollCells | active_workspace/xsarj_test.cpp:184-222 | the cells a returning call writes form one band: rows `ROW_START .. ROW_START + rowMax - 1`, columns `COL_START - 62 - colMax + 1 .. COL_START - Lowest` |
| Scrolling.DrawScrollingPattern | active_workspace/xsarj_test.cpp:181-223 | the routine's writes are exactly the scroll log. The canvas ends with every written cell at 0 and every other cell unchanged |

## Left out

- Hold times are not modelled. These are `delay(...)` in both animators and
  the float `step` of the scroll with its easing: it starts at 35, loses 0.6
  per step while it is not below 12, and is reset at a wrap. Timing has no
  effect on which pixels are written. The `msdelay` parameter is therefore
  unused in the model.
- The display library's `writePixel` is modelled only for `GRAPHICS_NORMAL`
  with plain replace semantics.
  - The library's own clipping of coordinates off the 64×16 panel (unsigned
    column and row) is not modelled.
  - Neither is its conversion of the value to a byte.
  - The model's canvas is an unbounded grid.
- Integers are unbounded. A 32-bit overflow of `COL_START - pxjmp_step - c`,
  or of the counters, is not modelled.
- `setup()` (including `clearScreen`), the timer interrupt, `resetModule`
  and the body of `loop()` are not modelled; the global `dmd` appears only
  as the `Canvas` passed to the animators. `Sketch` states what the bounds
  `loop()` sets mean for the two tables it draws. The two calls in `loop()`
  do not match the animators' definitions: the blinking call passes six
  arguments to seven parameters and the scrolling call passes eight. The
  calls themselves are not part of this model.
- Blinking.DrawBlinkingPattern: requires the pattern to cover the loop
  bounds. An indexing past the end of the C++ vectors is undefined
  behaviour, so there is nothing to model there.
- Scrolling.DrawScrollingPattern: requires, besides the bounds, a start
  offset below 63 when `cycle > 0`. With `cycle > 0` and a start of 63 or
  beyond, the source loop never
  ends (with unbounded integers; in the source `pxjmp_step + 1` eventually
  overflows a 32-bit `int`), and the model's methods are proved to
  terminate. That case is stated instead by
  `Scrolling.TerminatesIff` and `Scrolling.RunStuck`.
- The inner and outer loops of one pass are shared by the draw and erase
  passes of both animators, as `Blit.BlitPass` over an `Ink` (draw with the
  pattern, or erase with 0). The inner loop is its own method,
  `Blit.BlitRow`.
