/** Nearest-neighbour scaling (src/resize.cpp). One pass over the larger of both grids writes each output
    pixel one or more times, and the last write wins. Scale factors are exact reals here. */
module Resize {

  import opened Options
  import opened Pixels
  import opened Placement

  // ---------- one dimension: n input cells, m output cells, a pass of `Span(n, m)` steps ----------

  function Span(n: nat, m: nat): nat { if n >= m then n else m }

  /** The cell that step `k` touches: the integer part of k * (size / span). */
  function Cell(k: nat, size: nat, span: nat): int
    requires span > 0
  {
    (k as real * (size as real / span as real)).Floor
  }

  /** Step k lies in cell o of `size`. */
  predicate InCell(k: int, o: int, size: nat, span: nat) {
    o * span <= k * size < (o + 1) * span
  }

  lemma QuotientTimes(a: real, b: real)
    requires b > 0.0
    ensures a / b * b == a
  {
  }

  lemma ScaledBack(k: real, size: real, span: real)
    requires span > 0.0
    ensures k * (size / span) * span == k * size
  {
    QuotientTimes(size, span);
    Associative(k, size / span, span);
  }

  lemma Associative(a: real, b: real, c: real)
    ensures a * b * c == a * (b * c)
  {
  }

  lemma QuotientNonNegative(a: real, b: real)
    requires a >= 0.0 && b > 0.0
    ensures a / b >= 0.0
  {
  }

  lemma ProductNonNegative(a: real, b: real)
    requires a >= 0.0 && b >= 0.0
    ensures a * b >= 0.0
  {
  }

  lemma MulLess(a: real, b: real, c: real)
    requires c > 0.0
    ensures a < b <==> a * c < b * c
  {
  }

  /** The real-valued scaling lands in the cell that integer arithmetic says it does. */
  lemma CellIsInCell(k: nat, size: nat, span: nat)
    requires span > 0
    ensures Cell(k, size, span) >= 0 && InCell(k, Cell(k, size, span), size, span)
  {
    var r := k as real * (size as real / span as real);
    var o := Cell(k, size, span);
    ScaledBack(k as real, size as real, span as real);
    assert o as real <= r < (o + 1) as real;
    MulLess(r, o as real, span as real);
    MulLess(r, (o + 1) as real, span as real);
    assert (o * span) as real == o as real * span as real;
    assert ((o + 1) * span) as real == (o + 1) as real * span as real;
    assert (k * size) as real == k as real * size as real;
    assert r >= 0.0 by {
      QuotientNonNegative(size as real, span as real);
      ProductNonNegative(k as real, size as real / span as real);
    }
  }

  lemma InCellUnique(k: int, o: int, o': int, size: nat, span: nat)
    requires InCell(k, o, size, span) && InCell(k, o', size, span)
    ensures o == o'
  {
    MulMonotone(o + 1, o', span);
    MulMonotone(o' + 1, o, span);
  }

  lemma CellInRange(k: nat, size: nat, span: nat)
    requires k < span && size > 0
    ensures 0 <= Cell(k, size, span) < size
  {
    CellIsInCell(k, size, span);
    var o := Cell(k, size, span);
    if o >= size {
      MulMonotone(size, o, span);
      StrictMul(k, span, size);
      assert false;
    }
  }

  lemma StrictMul(a: nat, b: nat, c: nat)
    requires a < b && c > 0
    ensures a * c < b * c
  {
  }

  /** With no more cells than steps, the cell moves on by at most one per step. */
  lemma CellAdvances(k: nat, size: nat, span: nat)
    requires 0 < size <= span
    ensures Cell(k, size, span) <= Cell(k + 1, size, span) <= Cell(k, size, span) + 1
  {
    hide Cell;
    var o, o' := Cell(k, size, span), Cell(k + 1, size, span);
    CellIsInCell(k, size, span);
    CellIsInCell(k + 1, size, span);
    assert (k + 1) * size == k * size + size;
    MulMonotone(o' + 1, o, span);
    assert (o + 2) * span == (o + 1) * span + span;
    if o' >= o + 2 {
      MulMonotone(o + 2, o', span);
      assert false;
    }
  }

  /** The last step of the pass that lies in output cell `o`. */
  function LastWriter(o: nat, m: nat, span: nat): int
    requires m > 0
  {
    ((o + 1) * span - 1) / m
  }

  lemma LastWriterBounds(o: nat, m: nat, span: nat)
    requires m > 0
    ensures LastWriter(o, m, span) * m < (o + 1) * span <= (LastWriter(o, m, span) + 1) * m
  {
    var a := (o + 1) * span - 1;
    assert a / m * m <= a < (a / m + 1) * m;
  }

  /** It lies in the cell, and no later step does. */
  lemma LastWriterIsLast(o: nat, m: nat, span: nat)
    requires 0 < m <= span && o < m
    ensures 0 <= LastWriter(o, m, span) < span
    ensures InCell(LastWriter(o, m, span), o, m, span)
    ensures forall k :: k > LastWriter(o, m, span) ==> !InCell(k, o, m, span)
  {
    var l := LastWriter(o, m, span);
    LastWriterBounds(o, m, span);
    assert (o + 1) * span == o * span + span && (l + 1) * m == l * m + m;
    MulMonotone(o + 1, m, span);
    if l >= span {
      MulMonotone(span, l, m);
      assert false;
    }
    MulMonotone(1, o + 1, span);
    if l < 0 {
      MulMonotone(l + 1, 0, m);
      assert false;
    }
    forall k | k > l
      ensures !InCell(k, o, m, span)
    {
      MulMonotone(l + 1, k, m);
    }
  }

  /** The input cell that output cell `o` ends up showing. */
  function Source(o: nat, n: nat, m: nat): int
    requires m > 0
  {
    if LastWriter(o, m, Span(n, m)) < 0 then 0 else Cell(LastWriter(o, m, Span(n, m)), n, Span(n, m))
  }

  lemma SourceInRange(o: nat, n: nat, m: nat)
    requires n > 0 && o < m
    ensures 0 <= Source(o, n, m) < n
  {
    LastWriterIsLast(o, m, Span(n, m));
    CellInRange(LastWriter(o, m, Span(n, m)), n, Span(n, m));
  }

  /** When the pass leaves a cell, or ends, the step before was that cell's last writer. */
  lemma LeavingCell(k: nat, m: nat, span: nat)
    requires 0 < m <= span && k < span
    requires k + 1 == span || Cell(k + 1, m, span) != Cell(k, m, span)
    ensures 0 <= Cell(k, m, span) < m && LastWriter(Cell(k, m, span), m, span) == k
    ensures k + 1 == span ==> Cell(k, m, span) == m - 1
  {
    hide Cell, LastWriter;
    var o := Cell(k, m, span);
    CellInRange(k, m, span);
    CellIsInCell(k, m, span);
    LastWriterIsLast(o, m, span);
    var l := LastWriter(o, m, span);
    if k + 1 == span {
      assert k <= l;
      LastWriterIsLast(m - 1, m, span);
      assert (m - 1) * span <= k * m by { assert k * m == span * m - m; assert (m - 1) * span == m * span - span; }
      assert InCell(k, m - 1, m, span);
      InCellUnique(k, o, m - 1, m, span);
    } else {
      var next := Cell(k + 1, m, span);
      CellIsInCell(k + 1, m, span);
      CellAdvances(k, m, span);
      MulMonotone(o + 1, next, span);
      MulMonotone(k + 1, l, m);
      if l > k {
        assert false;
      }
    }
  }

  /** Scaling up and back down visits the cell one started from. */
  lemma SourceRoundTrip(o: nat, n: nat, big: nat)
    requires o < n <= big
    ensures 0 <= Source(o, big, n) < big
    ensures Source(Source(o, big, n), n, big) == o
  {
    var l := LastWriter(o, n, big);
    SourceInRange(o, big, n);
    LastWriterIsLast(o, n, big);
    SameGrid(l, big);
    assert Source(o, big, n) == l;
    LastWriterIsLast(l, big, big);
    var l' := LastWriter(l, big, big);
    CellIsInCell(l', big, big);
    SameGridLast(l, big);
    CellIsInCell(l, n, big);
    InCellUnique(l, o, Cell(l, n, big), n, big);
  }

  lemma SameGrid(k: nat, span: nat)
    requires span > 0
    ensures Cell(k, span, span) == k
  {
    CellIsInCell(k, span, span);
    assert (k + 1) * span == k * span + span;
    InCellUnique(k, Cell(k, span, span), k, span, span);
  }

  lemma SameGridLast(o: nat, span: nat)
    requires o < span
    ensures LastWriter(o, span, span) == o
  {
    var l := LastWriter(o, span, span);
    LastWriterIsLast(o, span, span);
    assert (o + 1) * span == o * span + span && (l + 1) * span == l * span + span;
    assert InCell(o, o, span, span) && InCell(l, l, span, span);
    InCellUnique(l, o, l, span, span);
  }

  // ---------- two dimensions ----------

  /** Pixel (ox, oy) of `after` shows pixel (Source(ox), Source(oy)) of `input`. */
  ghost predicate IsScaled(after: seq<Byte>, input: seq<Byte>, win: nat, hin: nat, wout: nat, hout: nat) {
    && |input| == 3 * (win * hin) && |after| == 3 * (wout * hout)
    && forall x: nat, y: nat, c: nat {:trigger At3(wout, x, y, c)} ::
         x < wout && y < hout && c < 3 && At3(wout, x, y, c) < |after| ==>
           ShowsPixel(after[At3(wout, x, y, c)], input, win, Source(x, win, wout), Source(y, hin, hout), c)
  }

  ghost predicate ShowsPixel(b: Byte, input: seq<Byte>, win: nat, x: int, y: int, c: nat) {
    0 <= x < win && 0 <= y && At3(win, x, y, c) < |input| && b == input[At3(win, x, y, c)]
  }

  /** The first `cells` pixels of output row `oy` show row `iy`, each from its final source, and pixel
      `cells` shows column `current`. */
  ghost predicate RowSoFar(out: seq<Byte>, input: seq<Byte>, win: nat, wout: nat, iy: nat, oy: nat, cells: int,
      current: int)
  {
    forall x: nat, c: nat {:trigger At3(wout, x, oy, c)} ::
      x < wout && x <= cells && c < 3 && At3(wout, x, oy, c) < |out| ==>
        ShowsPixel(out[At3(wout, x, oy, c)], input, win, if x == cells then current else Source(x, win, wout), iy, c)
  }

  ghost predicate OtherRowsKept(out: seq<Byte>, before: seq<Byte>, wout: nat, hout: nat, oy: nat) {
    && |out| == |before|
    && forall x: nat, y: nat, c: nat {:trigger At3(wout, x, y, c)} ::
         x < wout && y < hout && y != oy && c < 3 && At3(wout, x, y, c) < |out| ==>
           out[At3(wout, x, y, c)] == before[At3(wout, x, y, c)]
  }

  lemma At3Unique(w: nat, x: nat, y: nat)
    requires x < w
    ensures forall x': nat, y': nat, c': nat {:trigger At3(w, x', y', c')} ::
              x' < w && c' < 3 && At3(w, x, y, 0) <= At3(w, x', y', c') < At3(w, x, y, 0) + 3 ==> x' == x && y' == y
  {
    AtUnique(w, x, y);
  }

  method CopyPixel(out: array<Byte>, w: nat, h: nat, x: nat, y: nat, input: array<Byte>, win: nat, hin: nat, ix: nat,
      iy: nat)
    requires out != input && out.Length == 3 * (w * h) && input.Length == 3 * (win * hin)
    requires x < w && y < h && ix < win && iy < hin
    modifies out
    ensures forall c: nat {:trigger At3(w, x, y, c)} :: c < 3 && At3(w, x, y, c) < out.Length ==>
              ShowsPixel(out[At3(w, x, y, c)], input[..], win, ix, iy, c)
    ensures forall x': nat, y': nat, c: nat {:trigger At3(w, x', y', c)} ::
              x' < w && c < 3 && At3(w, x', y', c) < out.Length && (x' != x || y' != y) ==>
                out[At3(w, x', y', c)] == old(out[At3(w, x', y', c)])
  {
    var o, i := y * w * 3 + x * 3, iy * win * 3 + ix * 3;
    assert o == At3(w, x, y, 0) && i == At3(win, ix, iy, 0);
    AtInBounds(w, h, x, y);
    AtInBounds(win, hin, ix, iy);
    At3Unique(w, x, y);
    out[o + 0] := input[i + 0];
    out[o + 1] := input[i + 1];
    out[o + 2] := input[i + 2];
  }

  /** The inner loop: fill output row `oy` from input row `iy`. */
  method ScaleRow(input: array<Byte>, win: nat, hin: nat, iy: nat, out: array<Byte>, wout: nat, hout: nat, oy: nat)
    requires out != input && input.Length == 3 * (win * hin) && out.Length == 3 * (wout * hout)
    requires win > 0 && wout > 0 && iy < hin && oy < hout
    modifies out
    ensures RowSoFar(out[..], input[..], win, wout, iy, oy, wout, 0)
    ensures OtherRowsKept(out[..], old(out[..]), wout, hout, oy)
  {
    hide At3, Source, InCell, RowSoFar, OtherRowsKept;
    var maxw := Span(win, wout);
    var wins, wouts := win as real / maxw as real, wout as real / maxw as real;
    var x := 0;
    assert OtherRowsKept(out[..], old(out[..]), wout, hout, oy) by { NothingChanged(out[..], wout, hout, oy); }
    while x < maxw
      invariant 0 <= x <= maxw
      invariant x > 0 ==> RowSoFar(out[..], input[..], win, wout, iy, oy, Cell(x - 1, wout, maxw),
                Cell(x - 1, win, maxw))
      invariant OtherRowsKept(out[..], old(out[..]), wout, hout, oy)
    {
      ScaleStep(input, win, hin, iy, out, wout, hout, oy, x, (x as real * wouts).Floor, (x as real * wins).Floor,
        old(out[..]));
      x := x + 1;
    }
    RowComplete(out[..], input[..], win, wout, iy, oy);
  }

  lemma NothingChanged(out: seq<Byte>, wout: nat, hout: nat, oy: nat)
    ensures OtherRowsKept(out, out, wout, hout, oy)
  {
  }

  /** One step of the pass: write input column `ix` to output column `ox`. */
  method ScaleStep(input: array<Byte>, win: nat, hin: nat, iy: nat, out: array<Byte>, wout: nat, hout: nat, oy: nat,
                   x: nat, ox: int, ix: int, ghost before: seq<Byte>)
    requires out != input && input.Length == 3 * (win * hin) && out.Length == 3 * (wout * hout)
    requires win > 0 && wout > 0 && iy < hin && oy < hout && x < Span(win, wout)
    requires ox == Cell(x, wout, Span(win, wout)) && ix == Cell(x, win, Span(win, wout))
    requires x > 0 ==> RowSoFar(out[..], input[..], win, wout, iy, oy,
                                Cell(x - 1, wout, Span(win, wout)), Cell(x - 1, win, Span(win, wout)))
    requires OtherRowsKept(out[..], before, wout, hout, oy)
    modifies out
    ensures RowSoFar(out[..], input[..], win, wout, iy, oy, ox, ix)
    ensures OtherRowsKept(out[..], before, wout, hout, oy)
  {
    hide At3, Source, Cell, InCell, ShowsPixel;
    var span := Span(win, wout);
    CellInRange(x, win, span);
    CellInRange(x, wout, span);
    if x > 0 {
      CellInRange(x - 1, wout, span);
      CellAdvances(x - 1, wout, span);
      if ox != Cell(x - 1, wout, span) {
        SettleCell(x - 1, win, wout, span);
      }
    } else {
      FirstCell(wout, span);
    }
    CopyPixel(out, wout, hout, ox, oy, input, win, hin, ix, iy);
  }

  lemma RowComplete(out: seq<Byte>, input: seq<Byte>, win: nat, wout: nat, iy: nat, oy: nat)
    requires win > 0 && wout > 0
    requires var k := Span(win, wout) - 1;
             RowSoFar(out, input, win, wout, iy, oy, Cell(k, wout, k + 1), Cell(k, win, k + 1))
    ensures RowSoFar(out, input, win, wout, iy, oy, wout, 0)
  {
    hide At3, Source, Cell, ShowsPixel;
    var k := Span(win, wout) - 1;
    SettleCell(k, win, wout, k + 1);
    LeavingCell(k, wout, k + 1);
  }

  lemma FirstCell(size: nat, span: nat)
    requires 0 < size <= span
    ensures Cell(0, size, span) == 0
  {
    CellIsInCell(0, size, span);
    assert InCell(0, 0, size, span);
    InCellUnique(0, 0, Cell(0, size, span), size, span);
  }

  /** What a cell shows when the pass leaves it is its final source. */
  lemma SettleCell(k: nat, n: nat, m: nat, span: nat)
    requires n > 0 && m > 0 && span == Span(n, m) && k < span
    requires k + 1 == span || Cell(k + 1, m, span) != Cell(k, m, span)
    ensures 0 <= Cell(k, m, span) < m && Source(Cell(k, m, span), n, m) == Cell(k, n, span)
  {
    LeavingCell(k, m, span);
  }

  ghost predicate RowsSoFar(out: seq<Byte>, input: seq<Byte>, win: nat, hin: nat, wout: nat, hout: nat, rows: int,
      current: int)
  {
    forall x: nat, y: nat, c: nat {:trigger At3(wout, x, y, c)} ::
      x < wout && y < hout && y <= rows && c < 3 && At3(wout, x, y, c) < |out| ==>
        ShowsPixel(out[At3(wout, x, y, c)], input, win, Source(x, win, wout),
                   if y == rows then current else Source(y, hin, hout), c)
  }

  /** The first byte the pass writes, unless the test for the last row stops it before. */
  function FirstWrite(win: nat, hin: nat, wout: nat, hout: nat): Option<int>
    requires win > 0 && hin > 0
  {
    var oy, ox := Cell(0, hout, Span(hin, hout)), Cell(0, wout, Span(win, wout));
    if oy >= hout then None else Some(3 * (oy * wout) + 3 * ox)
  }

  predicate WritesOutside(win: nat, hin: nat, wout: nat, hout: nat)
    requires win > 0 && hin > 0
  {
    var i := FirstWrite(win, hin, wout, hout);
    i.Some? && i.value >= 3 * (wout * hout)
  }

  /** The first write is already outside the buffer exactly when there are output rows but no columns. */
  lemma WritesOutsideExactly(win: nat, hin: nat, wout: nat, hout: nat)
    requires win > 0 && hin > 0
    ensures WritesOutside(win, hin, wout, hout) <==> wout == 0 && hout > 0
  {
    if wout > 0 && hout > 0 {
      FirstCell(hout, Span(hin, hout));
      FirstCell(wout, Span(win, wout));
      assert wout * hout > 0;
    }
  }

  /** The scaled overload asks for that when its percentage leaves rows but no column. Some percentage does
      so exactly when the least one that leaves a row leaves no column. */
  lemma ScaledOverloadWritesOutside(win: nat, hin: nat)
    requires win > 0 && hin > 0
    ensures forall perc: nat ::
              WritesOutside(win, hin, win * perc / 100, hin * perc / 100) <==> win * perc < 100 <= hin * perc
    ensures (exists perc: nat :: WritesOutside(win, hin, win * perc / 100, hin * perc / 100)) <==>
            win * ((99 + hin) / hin) < 100
  {
    hide WritesOutside;
    forall perc: nat
      ensures WritesOutside(win, hin, win * perc / 100, hin * perc / 100) <==> win * perc < 100 <= hin * perc
    {
      WritesOutsideExactly(win, hin, win * perc / 100, hin * perc / 100);
    }
    var least := (99 + hin) / hin;
    LeastPercentage(hin);
    forall perc: nat | hin * perc >= 100
      ensures win * perc >= win * least
    {
      if perc < least {
        MulMonotone(perc, least - 1, hin);
        assert false;
      }
      MulMonotone(least, perc, win);
    }
    if win * least < 100 {
      assert WritesOutside(win, hin, win * least / 100, hin * least / 100);
    }
  }

  lemma LeastPercentage(hin: nat)
    requires hin > 0
    ensures var least := (99 + hin) / hin; hin * (least - 1) < 100 <= hin * least
  {
  }

  /** `do_resize`, for the sizes it is defined for. */
  method DoResize(win: nat, hin: nat, input: array<Byte>, wout: nat, hout: nat) returns (out: array<Byte>)
    requires win > 0 && hin > 0 && input.Length == 3 * (win * hin)
    requires wout > 0 || hout == 0
    ensures fresh(out) && IsScaled(out[..], input[..], win, hin, wout, hout)
  {
    hide Source, InCell, RowsSoFar, At3, ShowsPixel;
    out := new Byte[wout * hout * 3];
    var maxh := Span(hin, hout);
    var hins, houts := hin as real / maxh as real, hout as real / maxh as real;
    var y := 0;
    while y < maxh
      invariant 0 <= y <= maxh && (hout == 0 ==> y == 0)
      invariant y > 0 ==> RowsSoFar(out[..], input[..], win, hin, wout, hout, Cell(y - 1, hout, maxh),
                Cell(y - 1, hin, maxh))
    {
      var outScaledY := (y as real * houts).Floor;
      if outScaledY >= hout {
        if hout > 0 {
          CellInRange(y, hout, maxh);
        }
        break;
      }
      var inScaledY := (y as real * hins).Floor;
      ScaleRowStep(input, win, hin, out, wout, hout, y, outScaledY, inScaledY);
      y := y + 1;
    }
    if hout > 0 {
      RowsComplete(out[..], input[..], win, hin, wout, hout);
    }
  }

  method ScaleRowStep(input: array<Byte>, win: nat, hin: nat, out: array<Byte>, wout: nat, hout: nat, y: nat, oy: int,
      iy: int)
    requires out != input && input.Length == 3 * (win * hin) && out.Length == 3 * (wout * hout)
    requires win > 0 && wout > 0 && hin > 0 && hout > 0 && y < Span(hin, hout)
    requires oy == Cell(y, hout, Span(hin, hout)) && iy == Cell(y, hin, Span(hin, hout))
    requires y > 0 ==> RowsSoFar(out[..], input[..], win, hin, wout, hout,
                                 Cell(y - 1, hout, Span(hin, hout)), Cell(y - 1, hin, Span(hin, hout)))
    modifies out
    ensures RowsSoFar(out[..], input[..], win, hin, wout, hout, oy, iy)
  {
    hide At3, Source, Cell, InCell, ShowsPixel;
    var span := Span(hin, hout);
    CellInRange(y, hin, span);
    CellInRange(y, hout, span);
    if y > 0 {
      CellInRange(y - 1, hout, span);
      CellAdvances(y - 1, hout, span);
      if oy != Cell(y - 1, hout, span) {
        SettleCell(y - 1, hin, hout, span);
      }
    } else {
      FirstCell(hout, span);
    }
    ScaleRow(input, win, hin, iy, out, wout, hout, oy);
  }

  lemma RowsComplete(out: seq<Byte>, input: seq<Byte>, win: nat, hin: nat, wout: nat, hout: nat)
    requires |input| == 3 * (win * hin) && |out| == 3 * (wout * hout) && hin > 0 && hout > 0
    requires var k := Span(hin, hout) - 1;
             RowsSoFar(out, input, win, hin, wout, hout, Cell(k, hout, k + 1), Cell(k, hin, k + 1))
    ensures IsScaled(out, input, win, hin, wout, hout)
  {
    hide At3, Source, Cell, ShowsPixel;
    var k := Span(hin, hout) - 1;
    SettleCell(k, hin, hout, k + 1);
    LeavingCell(k, hout, k + 1);
  }

  // ---------- consequences ----------

  lemma ScaledPixel(after: seq<Byte>, input: seq<Byte>, win: nat, hin: nat, wout: nat, hout: nat, x: nat, y: nat,
      c: nat)
    requires IsScaled(after, input, win, hin, wout, hout) && x < wout && y < hout && c < 3
    ensures At3(wout, x, y, c) < |after|
    ensures ShowsPixel(after[At3(wout, x, y, c)], input, win, Source(x, win, wout), Source(y, hin, hout), c)
  {
    At3InBounds(wout, hout, x, y, c);
  }

  lemma QuotientIs(a: int, b: nat, q: int)
    requires b > 0 && q * b <= a < (q + 1) * b
    ensures a / b == q
  {
    var d := a / b;
    assert d * b <= a < (d + 1) * b;
    if d > q {
      MulMonotone(q + 1, d, b);
    } else if d < q {
      MulMonotone(d + 1, q, b);
    }
  }

  /** Shrinking shows the last input cell that falls on an output cell, enlarging the cell that it lies in. */
  lemma SourceExactly(o: nat, n: nat, m: nat)
    requires n > 0 && o < m
    ensures Source(o, n, m) == if n >= m then ((o + 1) * n - 1) / m else o * n / m
  {
    hide Cell, InCell;
    if n >= m {
      LastWriterIsLast(o, m, n);
      SameGrid(LastWriter(o, m, n), n);
    } else {
      SameGridLast(o, m);
      CellIsInCell(o, n, m);
      CellQuotient(o, n, m);
    }
  }

  lemma CellQuotient(k: nat, size: nat, span: nat)
    requires span > 0 && InCell(k, Cell(k, size, span), size, span)
    ensures Cell(k, size, span) == k * size / span
  {
    hide Cell;
    QuotientIs(k * size, span, Cell(k, size, span));
  }

  /** Every byte of a scaled image, by its index. */
  lemma ScaledByte(after: seq<Byte>, input: seq<Byte>, win: nat, hin: nat, wout: nat, hout: nat, x: nat, y: nat, c: nat)
      returns (sx: nat, sy: nat)
    requires IsScaled(after, input, win, hin, wout, hout) && x < wout && y < hout && c < 3
    ensures 3 * (y * wout + x) + c < |after| && 3 * (sy * win + sx) + c < |input|
    ensures after[3 * (y * wout + x) + c] == input[3 * (sy * win + sx) + c]
    ensures sx == Source(x, win, wout) && sy == Source(y, hin, hout)
  {
    hide Source, IsScaled;
    ScaledPixel(after, input, win, hin, wout, hout, x, y, c);
    sx, sy := Source(x, win, wout), Source(y, hin, hout);
  }

  /** Scaling an image up, by any amount in each direction, and back down gives exactly the original. */
  lemma UpAndDownIsIdentity(img: seq<Byte>, up: seq<Byte>, back: seq<Byte>, w: nat, h: nat, bigW: nat, bigH: nat)
    requires 0 < w <= bigW && 0 < h <= bigH
    requires IsScaled(up, img, w, h, bigW, bigH) && IsScaled(back, up, bigW, bigH, w, h)
    ensures back == img
  {
    forall i | 0 <= i < |img|
      ensures back[i] == img[i]
    {
      AtSurjective(w, h, i / 3);
      PixelRoundTrip(img, up, back, w, h, bigW, bigH, (i / 3) % w, (i / 3) / w, i % 3);
    }
  }

  lemma PixelRoundTrip(img: seq<Byte>, up: seq<Byte>, back: seq<Byte>, w: nat, h: nat, bigW: nat, bigH: nat, x: nat,
      y: nat, c: nat)
    requires 0 < w <= bigW && 0 < h <= bigH
    requires IsScaled(up, img, w, h, bigW, bigH) && IsScaled(back, up, bigW, bigH, w, h)
    requires x < w && y < h && c < 3
    ensures At3(w, x, y, c) < |img| == |back| && back[At3(w, x, y, c)] == img[At3(w, x, y, c)]
  {
    hide Source, At3;
    SourceRoundTrip(x, w, bigW);
    SourceRoundTrip(y, h, bigH);
    SourceInRange(y, bigH, h);
    ScaledPixel(back, up, bigW, bigH, w, h, x, y, c);
    ScaledPixel(up, img, w, h, bigW, bigH, Source(x, bigW, w), Source(y, bigH, h), c);
  }

  /** The scaled overload of `picture_in_picture`. */
  method PictureInPictureScaled(tgt: array<Byte>, tgtW: nat, tgtH: nat, input: array<Byte>, win: nat, hin: nat,
      perc: nat, p: Position)
      returns (ghost scaled: seq<Byte>)
    requires tgt != input && tgt.Length == 3 * (tgtW * tgtH) && input.Length == 3 * (win * hin)
    requires win > 0 && hin > 0 && (win * perc / 100 > 0 || hin * perc / 100 == 0)
    requires p.Wrapped? ==> tgtW > 0 && tgtH > 0
    requires var (x0, y0) := Corner(p, win * perc / 100, hin * perc / 100, tgtW, tgtH);
             win * perc / 100 > 0 && SomeRowVisible(y0, hin * perc / 100, tgtH) ==> 0 <= x0 + win * perc / 100
    modifies tgt
    ensures IsScaled(scaled, input[..], win, hin, win * perc / 100, hin * perc / 100)
    ensures p.Nowhere? ==> tgt[..] == old(tgt[..])
    ensures !p.Nowhere? ==>
              var wout, hout := win * perc / 100, hin * perc / 100;
              var (x0, y0) := Corner(p, wout, hout, tgtW, tgtH);
              IsPaste(tgt[..], old(tgt[..]), tgtW, tgtH, scaled, wout, hout, x0, y0, 0, 0)
  {
    var wout, hout := win * perc / 100, hin * perc / 100;
    var temp := DoResize(win, hin, input, wout, hout);
    scaled := temp[..];
    PictureInPicture(tgt, tgtW, tgtH, temp, wout, hout, p);
  }
}
