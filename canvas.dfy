/** The pixel canvas the animators draw on: the `dmd` object's
    `writePixel(col, row, GRAPHICS_NORMAL, value)`, with replace semantics,
    over an unbounded grid of cells addressed by (column, row). */
module Display {

  /** A canvas cell, as (column, row). */
  type Cell = (int, int)

  /** One `writePixel` call: the cell it addresses and the value it stores. */
  datatype Write = Write(col: int, row: int, value: int)
  {
    function At(): Cell { (col, row) }
  }

  /** The canvas after `ws` is applied to `m` in order: each write replaces
      the value of its cell, so the last write to a cell decides it. */
  function Apply(m: map<Cell, int>, ws: seq<Write>): map<Cell, int>
    decreases |ws|
  {
    if ws == [] then m
    else
      var w := ws[|ws| - 1];
      Apply(m, ws[..|ws| - 1])[w.At() := w.value]
  }

  /** The cells that `ws` writes to. */
  function Cells(ws: seq<Write>): (cs: set<Cell>)
    ensures forall i :: 0 <= i < |ws| ==> ws[i].At() in cs
    ensures forall c :: c in cs ==> exists i :: 0 <= i < |ws| && ws[i].At() == c
  {
    set i | 0 <= i < |ws| :: ws[i].At()
  }

  lemma CellsSingle(w: Write)
    ensures Cells([w]) == {w.At()}
  {
    assert [w][0] == w;
  }

  /** Every write of `ws` stores 0 (turns its pixel off). */
  predicate AllOff(ws: seq<Write>)
  {
    forall i :: 0 <= i < |ws| ==> ws[i].value == 0
  }

  /** `m` with every cell of `cs` set to 0 and nothing else changed. */
  function Erased(m: map<Cell, int>, cs: set<Cell>): (r: map<Cell, int>)
  {
    map c | c in m.Keys + cs :: if c in cs then 0 else m[c]
  }

  /** What an erased canvas means: the cells of `cs` hold 0, every other
      cell is exactly as before (present with the same value, or absent). */
  lemma ErasedMeaning(m: map<Cell, int>, cs: set<Cell>, c: Cell)
    ensures c in cs ==> c in Erased(m, cs) && Erased(m, cs)[c] == 0
    ensures c !in cs ==> (c in Erased(m, cs) <==> c in m)
    ensures c !in cs && c in m ==> Erased(m, cs)[c] == m[c]
  {
  }

  lemma {:induction false} CellsConcat(a: seq<Write>, b: seq<Write>)
    ensures Cells(a + b) == Cells(a) + Cells(b)
  {
    forall c | c in Cells(a + b) ensures c in Cells(a) + Cells(b) {
      var i :| 0 <= i < |a + b| && (a + b)[i].At() == c;
      if i >= |a| { assert (a + b)[i] == b[i - |a|]; }
    }
    forall c | c in Cells(a) + Cells(b) ensures c in Cells(a + b) {
      if c in Cells(b) {
        var i :| 0 <= i < |b| && b[i].At() == c;
        assert (a + b)[|a| + i] == b[i];
      } else {
        var i :| 0 <= i < |a| && a[i].At() == c;
        assert (a + b)[i] == a[i];
      }
    }
  }

  lemma ConcatAssoc<T>(a: seq<T>, b: seq<T>, c: seq<T>)
    ensures a + b + c == a + (b + c)
  {
  }

  /** Appending one more batch of writes, `step`, to a log that stands at
      `log0 + done` and a canvas that stands at `done` applied to `m0`. */
  lemma Extend(m0: map<Cell, int>, log0: seq<Write>, done: seq<Write>, step: seq<Write>,
               log: seq<Write>, pixels: map<Cell, int>)
    requires log == log0 + done + step && pixels == Apply(Apply(m0, done), step)
    ensures log == log0 + (done + step) && pixels == Apply(m0, done + step)
  {
    ConcatAssoc(log0, done, step);
    ApplyConcat(m0, done, step);
  }

  /** `Extend` for a single write, which updates the cell it addresses. */
  lemma ExtendOne(m0: map<Cell, int>, log0: seq<Write>, done: seq<Write>, w: Write,
                  log: seq<Write>, pixels: map<Cell, int>)
    requires log == log0 + done + [w] && pixels == Apply(m0, done)[w.At() := w.value]
    ensures log == log0 + (done + [w]) && pixels == Apply(m0, done + [w])
  {
    ConcatAssoc(log0, done, [w]);
    ApplySnoc(m0, done, w);
  }

  /** One more write updates the cell it addresses. */
  lemma ApplySnoc(m: map<Cell, int>, ws: seq<Write>, w: Write)
    ensures Apply(m, ws + [w]) == Apply(m, ws)[w.At() := w.value]
  {
    assert (ws + [w])[..|ws|] == ws;
  }

  /** Applying two write sequences in turn is applying their concatenation. */
  lemma {:induction false} ApplyConcat(m: map<Cell, int>, a: seq<Write>, b: seq<Write>)
    ensures Apply(m, a + b) == Apply(Apply(m, a), b)
    decreases |b|
  {
    if b == [] {
      assert a + b == a;
    } else {
      var b' := b[..|b| - 1];
      assert (a + b)[..|a + b| - 1] == a + b';
      ApplyConcat(m, a, b');
    }
  }

  /** A sequence of writes that all store 0 erases exactly the cells it writes. */
  lemma {:induction false} ApplyAllOff(m: map<Cell, int>, ws: seq<Write>)
    requires AllOff(ws)
    ensures Apply(m, ws) == Erased(m, Cells(ws))
    decreases |ws|
  {
    if ws == [] {
      assert Cells(ws) == {};
    } else {
      var ws' := ws[..|ws| - 1];
      var w := ws[|ws| - 1];
      assert ws == ws' + [w];
      CellsConcat(ws', [w]);
      CellsSingle(w);
      ApplyAllOff(m, ws');
      ApplySnoc(m, ws', w);
      ErasedOneMore(m, Cells(ws'), w.At());
    }
  }

  /** Clearing one more cell of an erased canvas erases that cell too. */
  lemma ErasedOneMore(m: map<Cell, int>, cs: set<Cell>, c: Cell)
    ensures Erased(m, cs)[c := 0] == Erased(m, cs + {c})
  {
  }

  /** Erasing a set of cells hides whatever writes to those cells came before. */
  lemma {:induction false} ErasedAbsorbs(m: map<Cell, int>, ws: seq<Write>, cs: set<Cell>)
    requires Cells(ws) <= cs
    ensures Erased(Apply(m, ws), cs) == Erased(m, cs)
    decreases |ws|
  {
    if ws != [] {
      var ws', w := ws[..|ws| - 1], ws[|ws| - 1];
      assert ws == ws' + [w];
      CellsConcat(ws', [w]);
      CellsSingle(w);
      ErasedAbsorbs(m, ws', cs);
      ApplySnoc(m, ws', w);
      ErasedHides(Apply(m, ws'), cs, w.At(), w.value);
    }
  }

  /** Whatever was stored in a cell that is then erased does not matter. */
  lemma ErasedHides(m: map<Cell, int>, cs: set<Cell>, c: Cell, v: int)
    requires c in cs
    ensures Erased(m[c := v], cs) == Erased(m, cs)
  {
  }

  lemma ErasedTwice(m: map<Cell, int>, s: set<Cell>, t: set<Cell>)
    ensures Erased(Erased(m, s), t) == Erased(m, s + t)
  {
  }

  /** A draw followed by an all-zero erase that covers every drawn cell
      leaves the canvas as if only the erased cells had been cleared. */
  lemma DrawThenErase(m: map<Cell, int>, draw: seq<Write>, erase: seq<Write>)
    requires Cells(draw) <= Cells(erase) && AllOff(erase)
    ensures Apply(m, draw + erase) == Erased(m, Cells(erase))
  {
    ApplyConcat(m, draw, erase);
    ApplyAllOff(Apply(m, draw), erase);
    ErasedAbsorbs(m, draw, Cells(erase));
  }

  /** The display buffer behind `dmd`: the value of every pixel written so
      far, and (for the proofs) the log of every `writePixel` call. */
  class Canvas {
    var pixels: map<Cell, int>
    ghost var log: seq<Write>

    /** `writePixel(col, row, GRAPHICS_NORMAL, value)`: replaces the pixel. */
    method WritePixel(col: int, row: int, value: int)
      modifies this
      ensures pixels == old(pixels)[(col, row) := value]
      ensures log == old(log) + [Write(col, row, value)]
    {
      pixels := pixels[(col, row) := value];
      log := log + [Write(col, row, value)];
    }
  }
}
