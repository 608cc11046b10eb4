/** The averaging resizer of src/resize_fine.cpp: every output pixel is a weighted mean of input pixels
    sampled one apart from the start of its window, the last sample weighted by what is left of the
    window. Doubles are exact reals here. */
module ResizeFine {

  import opened Pixels

  type Plane = (int, int) -> real

  datatype Accumulator = Accumulator(n: real, r: real, g: real, b: real)

  // ---------- what a pixel accumulates ----------

  /** Multiplication, named so that proofs can treat it as a symbol with the laws below. */
  function Times(a: real, b: real): real { a * b }

  function Weight(t: real, end: real): real { if end - t < 1.0 then end - t else 1.0 }

  function RowSum(f: Plane, y: int, mulY: real, t: real, end: real): real
    decreases end - t
  {
    if t >= end then 0.0 else Times(Times(Weight(t, end), mulY), f(t.Floor, y)) + RowSum(f, y, mulY, t + 1.0, end)
  }

  function BoxSum(f: Plane, s: real, endY: real, t: real, endX: real): real
    decreases endY - s
  {
    if s >= endY then 0.0 else RowSum(f, s.Floor, Weight(s, endY), t, endX) + BoxSum(f, s + 1.0, endY, t, endX)
  }

  const ONE: Plane := (x, y) => 1.0

  function Channel(img: seq<Byte>, win: nat, hin: nat, c: nat): Plane
    requires |img| == 3 * (win * hin) && c < 3
  {
    (x: int, y: int) =>
      if 0 <= x < win && 0 <= y < hin then (AtInBounds(win, hin, x, y); img[At3(win, x, y, c)] as real) else 0.0
  }

  function Scale(n: nat, m: nat): real { if m == 0 then 0.0 else n as real / m as real }

  /** The window of output cell `o`, when `n` input cells become `m`. */
  function From(o: nat, n: nat, m: nat): real { o as real * Scale(n, m) }

  function To(o: nat, n: nat, m: nat): real { From(o, n, m) + Scale(n, m) }

  /** Channel `f` accumulated over the window of output pixel (x, y). */
  function Gathered(f: Plane, win: nat, hin: nat, wout: nat, hout: nat, x: nat, y: nat): real {
    BoxSum(f, From(y, hin, hout), To(y, hin, hout), From(x, win, wout), To(x, win, wout))
  }

  /** One channel of an output pixel. */
  function FinePixel(img: seq<Byte>, win: nat, hin: nat, wout: nat, hout: nat, x: nat, y: nat, c: nat): int
    requires |img| == 3 * (win * hin) && c < 3
  {
    var n := Gathered(ONE, win, hin, wout, hout, x, y);
    if n == 0.0 then 0 else (Gathered(Channel(img, win, hin, c), win, hin, wout, hout, x, y) / n).Floor
  }

  // ---------- properties ----------

  lemma Distribute(a: real, b: real, c: real)
    ensures Times(a + b, c) == Times(a, c) + Times(b, c)
    ensures Times(c, a + b) == Times(c, a) + Times(c, b)
  {
  }

  lemma Units(a: real)
    ensures Times(1.0, a) == a && Times(a, 1.0) == a && Times(0.0, a) == 0.0 && Times(a, 0.0) == 0.0
  {
  }

  lemma Commutes(a: real, b: real)
    ensures Times(a, b) == Times(b, a)
  {
  }

  lemma Monotone(a: real, b: real, w: real)
    requires a <= b && w >= 0.0
    ensures Times(w, a) <= Times(w, b) && Times(a, w) <= Times(b, w)
  {
  }

  lemma StrictlyMonotone(a: real, b: real, w: real)
    requires a < b && w > 0.0
    ensures Times(a, w) < Times(b, w)
  {
  }

  lemma {:induction false} RowWeights(y: int, mulY: real, t: real, end: real)
    requires t <= end
    ensures RowSum(ONE, y, mulY, t, end) == Times(end - t, mulY)
    decreases end - t
  {
    hide Times;
    Units(mulY);
    if t < end {
      Units(Times(Weight(t, end), mulY));
      assert ONE(t.Floor, y) == 1.0;
      if end - t >= 1.0 {
        RowWeights(y, mulY, t + 1.0, end);
        Distribute(end - t - 1.0, 1.0, mulY);
      } else {
        assert RowSum(ONE, y, mulY, t + 1.0, end) == 0.0;
      }
    }
  }

  /** The weights of a window add up to its area. */
  lemma {:induction false} BoxWeights(s: real, endY: real, t: real, endX: real)
    requires s <= endY && t <= endX
    ensures BoxSum(ONE, s, endY, t, endX) == Times(endX - t, endY - s)
    decreases endY - s
  {
    hide Times;
    Units(endX - t);
    if s < endY {
      RowWeights(s.Floor, Weight(s, endY), t, endX);
      if endY - s >= 1.0 {
        BoxWeights(s + 1.0, endY, t, endX);
        Distribute(endY - s - 1.0, 1.0, endX - t);
      } else {
        assert BoxSum(ONE, s + 1.0, endY, t, endX) == 0.0;
      }
    }
  }

  ghost predicate Bounded(f: Plane, lo: real, hi: real, w: int, h: int) {
    forall x, y :: 0 <= x < w && 0 <= y < h ==> lo <= f(x, y) <= hi
  }

  /** A sum of weighted samples lies between the bounds of the samples times the sum of the weights. */
  lemma {:induction false} RowBounded(f: Plane, lo: real, hi: real, w: int, h: int, y: int, mulY: real, t: real,
      end: real)
    requires Bounded(f, lo, hi, w, h) && 0 <= y < h && mulY >= 0.0 && 0.0 <= t && end <= w as real
    ensures Times(lo, RowSum(ONE, y, mulY, t, end)) <= RowSum(f, y, mulY, t, end)
            <= Times(hi, RowSum(ONE, y, mulY, t, end))
    decreases end - t
  {
    hide Times;
    Units(lo);
    Units(hi);
    if t < end {
      var m := Times(Weight(t, end), mulY);
      Monotone(0.0, Weight(t, end), mulY);
      Units(mulY);
      Units(m);
      var v := f(t.Floor, y);
      assert lo <= v <= hi;
      Monotone(lo, v, m);
      Monotone(v, hi, m);
      Commutes(m, lo);
      Commutes(m, hi);
      RowBounded(f, lo, hi, w, h, y, mulY, t + 1.0, end);
      var rest := RowSum(ONE, y, mulY, t + 1.0, end);
      Distribute(m, rest, lo);
      Distribute(m, rest, hi);
      assert ONE(t.Floor, y) == 1.0;
    }
  }

  lemma {:induction false} BoxBounded(f: Plane, lo: real, hi: real, w: int, h: int, s: real, endY: real, t: real,
      endX: real)
    requires Bounded(f, lo, hi, w, h) && 0.0 <= s && endY <= h as real && 0.0 <= t && endX <= w as real
    ensures Times(lo, BoxSum(ONE, s, endY, t, endX)) <= BoxSum(f, s, endY, t, endX)
            <= Times(hi, BoxSum(ONE, s, endY, t, endX))
    decreases endY - s
  {
    hide Times, RowSum, Bounded;
    Units(lo);
    Units(hi);
    if s < endY {
      RowBounded(f, lo, hi, w, h, s.Floor, Weight(s, endY), t, endX);
      BoxBounded(f, lo, hi, w, h, s + 1.0, endY, t, endX);
      var row, rest := RowSum(ONE, s.Floor, Weight(s, endY), t, endX), BoxSum(ONE, s + 1.0, endY, t, endX);
      Distribute(row, rest, lo);
      Distribute(row, rest, hi);
    }
  }

  lemma DivideMultiply(a: real, b: real)
    requires b > 0.0
    ensures Times(a / b, b) == a
  {
  }

  lemma Positive(a: real, b: real)
    ensures a > 0.0 && b > 0.0 ==> Times(a, b) > 0.0
    ensures a >= 0.0 && b >= 0.0 ==> Times(a, b) >= 0.0
    ensures a < 0.0 && b > 0.0 ==> Times(a, b) < 0.0
    ensures a == 0.0 && b > 0.0 ==> Times(a, b) == 0.0
  {
  }

  lemma ScalePositive(n: nat, m: nat)
    requires m > 0
    ensures if n > 0 then Scale(n, m) > 0.0 else Scale(n, m) == 0.0
  {
    hide Times;
    DivideMultiply(n as real, m as real);
    Positive(Scale(n, m), m as real);
  }

  lemma FromIsTimes(x: nat, n: nat, m: nat)
    ensures From(x, n, m) == Times(x as real, Scale(n, m))
  {
  }

  /** The windows of one direction tile the input. */
  lemma WindowInside(x: nat, n: nat, m: nat)
    requires x < m
    ensures 0.0 <= From(x, n, m) <= To(x, n, m) <= n as real
    ensures To(x, n, m) == From(x + 1, n, m)
  {
    hide Times, Scale, From;
    var s := Scale(n, m);
    ScalePositive(n, m);
    FromIsTimes(x, n, m);
    FromIsTimes(x + 1, n, m);
    Positive(x as real, s);
    Monotone((x + 1) as real, m as real, s);
    Distribute(x as real, 1.0, s);
    Units(s);
    ScaleTimes(n, m);
  }

  lemma ScaleTimes(n: nat, m: nat)
    requires m > 0
    ensures Times(m as real, Scale(n, m)) == n as real
  {
    hide Times;
    DivideMultiply(n as real, m as real);
    Commutes(m as real, Scale(n, m));
  }

  lemma QuotientBetween(lo: real, hi: real, r: real, n: real)
    requires n > 0.0 && Times(lo, n) <= r <= Times(hi, n)
    ensures lo <= r / n <= hi
  {
    hide Times;
    var q := r / n;
    DivideMultiply(r, n);
    if q < lo {
      StrictlyMonotone(q, lo, n);
    } else if q > hi {
      StrictlyMonotone(hi, q, n);
    }
  }

  /** The accumulated weight is the area of a window: (win / wout) * (hin / hout). */
  lemma WeightIsArea(win: nat, hin: nat, wout: nat, hout: nat, x: nat, y: nat)
    requires x < wout && y < hout
    ensures Gathered(ONE, win, hin, wout, hout, x, y) == Scale(win, wout) * Scale(hin, hout)
    ensures if win > 0 && hin > 0 then Gathered(ONE, win, hin, wout, hout, x, y) > 0.0
            else Gathered(ONE, win, hin, wout, hout, x, y) == 0.0
  {
    hide BoxSum, Scale, From;
    ScalePositive(win, wout);
    ScalePositive(hin, hout);
    WindowInside(x, win, wout);
    WindowInside(y, hin, hout);
    Positive(Scale(win, wout), Scale(hin, hout));
    Units(Scale(win, wout));
    Units(Scale(hin, hout));
    BoxWeights(From(y, hin, hout), To(y, hin, hout), From(x, win, wout), To(x, win, wout));
  }

  /** Every output channel lies between the least and the greatest value of that channel in the input. */
  lemma PixelWithinRange(img: seq<Byte>, win: nat, hin: nat, wout: nat, hout: nat, x: nat, y: nat, c: nat, lo: int,
      hi: int)
    requires |img| == 3 * (win * hin) && c < 3 && x < wout && y < hout && win > 0 && hin > 0
    requires Bounded(Channel(img, win, hin, c), lo as real, hi as real, win, hin)
    ensures lo <= FinePixel(img, win, hin, wout, hout, x, y, c) <= hi
  {
    hide Times, BoxSum, From, Channel, Bounded;
    var f := Channel(img, win, hin, c);
    WeightIsArea(win, hin, wout, hout, x, y);
    WindowInside(x, win, wout);
    WindowInside(y, hin, hout);
    BoxBounded(f, lo as real, hi as real, win, hin, From(y, hin, hout), To(y, hin, hout), From(x, win, wout),
      To(x, win, wout));
    QuotientBetween(lo as real, hi as real, Gathered(f, win, hin, wout, hout, x, y),
      Gathered(ONE, win, hin, wout, hout, x, y));
  }

  lemma PixelIsByte(img: seq<Byte>, win: nat, hin: nat, wout: nat, hout: nat, x: nat, y: nat, c: nat)
    requires |img| == 3 * (win * hin) && c < 3 && x < wout && y < hout
    ensures 0 <= FinePixel(img, win, hin, wout, hout, x, y, c) <= 255
  {
    WeightIsArea(win, hin, wout, hout, x, y);
    if win > 0 && hin > 0 {
      ChannelBytes(img, win, hin, c);
      PixelWithinRange(img, win, hin, wout, hout, x, y, c, 0, 255);
    }
  }

  lemma ChannelBytes(img: seq<Byte>, win: nat, hin: nat, c: nat)
    requires |img| == 3 * (win * hin) && c < 3
    ensures Bounded(Channel(img, win, hin, c), 0.0, 255.0, win, hin)
  {
    forall x, y | 0 <= x < win && 0 <= y < hin
      ensures 0.0 <= Channel(img, win, hin, c)(x, y) <= 255.0
    {
      AtInBounds(win, hin, x, y);
    }
  }

  /** Where a channel is constant, every resize of it is that constant. */
  lemma ConstantStays(img: seq<Byte>, win: nat, hin: nat, wout: nat, hout: nat, x: nat, y: nat, c: nat, v: int)
    requires |img| == 3 * (win * hin) && c < 3 && x < wout && y < hout && win > 0 && hin > 0
    requires forall x, y :: 0 <= x < win && 0 <= y < hin ==> Channel(img, win, hin, c)(x, y) == v as real
    ensures FinePixel(img, win, hin, wout, hout, x, y, c) == v
  {
    PixelWithinRange(img, win, hin, wout, hout, x, y, c, v, v);
  }

  /** Resizing to the same size changes nothing. */
  lemma SameSizeIsIdentity(img: seq<Byte>, w: nat, h: nat, x: nat, y: nat, c: nat)
    requires |img| == 3 * (w * h) && c < 3 && x < w && y < h
    ensures At3(w, x, y, c) < |img| && FinePixel(img, w, h, w, h, x, y, c) == img[At3(w, x, y, c)]
  {
    AtInBounds(w, h, x, y);
    var f := Channel(img, w, h, c);
    UnitScale(w);
    UnitScale(h);
    assert Gathered(f, w, h, w, h, x, y) == BoxSum(f, y as real, y as real + 1.0, x as real, x as real + 1.0);
    assert Gathered(ONE, w, h, w, h, x, y) == BoxSum(ONE, y as real, y as real + 1.0, x as real, x as real + 1.0);
    OneSample(f, x, y);
    OneSample(ONE, x, y);
  }

  lemma UnitScale(n: nat)
    requires n > 0
    ensures Scale(n, n) == 1.0
  {
  }

  lemma OneSample(f: Plane, x: nat, y: nat)
    ensures BoxSum(f, y as real, y as real + 1.0, x as real, x as real + 1.0) == f(x, y)
  {
    assert (x as real).Floor == x && (y as real).Floor == y;
    assert RowSum(f, y, 1.0, x as real + 1.0, x as real + 1.0) == 0.0;
    assert RowSum(f, y, 1.0, x as real, x as real + 1.0) == f(x, y);
    assert BoxSum(f, y as real + 1.0, y as real + 1.0, x as real, x as real + 1.0) == 0.0;
  }

  // ---------- which input pixels a window averages ----------

  /** The weight that the samples t, t + 1, ... before `end` give to cell `i`: the sample in that cell, if any. */
  function CellWeight(i: int, t: real, end: real): real {
    var sample := t + (i - t.Floor) as real;
    if i < t.Floor || sample >= end then 0.0 else if end - sample < 1.0 then end - sample else 1.0
  }

  function Indicator(i: int, j: int): Plane { (x, y) => if x == i && y == j then 1.0 else 0.0 }

  function Added(f: Plane, g: Plane): Plane { (x, y) => f(x, y) + g(x, y) }

  function Scaled(a: real, f: Plane): Plane { (x, y) => Times(a, f(x, y)) }

  lemma {:induction false} RowAdds(f: Plane, g: Plane, y: int, mulY: real, t: real, end: real)
    ensures RowSum(Added(f, g), y, mulY, t, end) == RowSum(f, y, mulY, t, end) + RowSum(g, y, mulY, t, end)
    decreases end - t
  {
    hide Times;
    if t < end {
      Distribute(f(t.Floor, y), g(t.Floor, y), Times(Weight(t, end), mulY));
      RowAdds(f, g, y, mulY, t + 1.0, end);
    }
  }

  lemma TimesAssociative(a: real, b: real, c: real)
    ensures Times(a, Times(b, c)) == Times(Times(a, b), c)
  {
  }

  lemma {:induction false} RowScales(a: real, f: Plane, y: int, mulY: real, t: real, end: real)
    ensures RowSum(Scaled(a, f), y, mulY, t, end) == Times(a, RowSum(f, y, mulY, t, end))
    decreases end - t
  {
    hide Times;
    Units(a);
    if t < end {
      var m, v := Times(Weight(t, end), mulY), f(t.Floor, y);
      TimesAssociative(m, a, v);
      TimesAssociative(a, m, v);
      Commutes(m, a);
      Distribute(Times(m, v), RowSum(f, y, mulY, t + 1.0, end), a);
      RowScales(a, f, y, mulY, t + 1.0, end);
    }
  }

  /** What a window gathers is linear in the picture. */
  lemma {:induction false} BoxLinear(a: real, f: Plane, g: Plane, s: real, endY: real, t: real, endX: real)
    ensures BoxSum(Added(f, g), s, endY, t, endX) == BoxSum(f, s, endY, t, endX) + BoxSum(g, s, endY, t, endX)
    ensures BoxSum(Scaled(a, f), s, endY, t, endX) == Times(a, BoxSum(f, s, endY, t, endX))
    decreases endY - s
  {
    hide Times, RowSum;
    Units(a);
    if s < endY {
      RowAdds(f, g, s.Floor, Weight(s, endY), t, endX);
      RowScales(a, f, s.Floor, Weight(s, endY), t, endX);
      Distribute(RowSum(f, s.Floor, Weight(s, endY), t, endX), BoxSum(f, s + 1.0, endY, t, endX), a);
      BoxLinear(a, f, g, s + 1.0, endY, t, endX);
    }
  }

  lemma CellWeightStep(i: int, t: real, end: real)
    requires t < end
    ensures CellWeight(i, t, end) == if i == t.Floor then Weight(t, end) else CellWeight(i, t + 1.0, end)
    ensures CellWeight(t.Floor, t + 1.0, end) == 0.0
  {
    assert (t + 1.0).Floor == t.Floor + 1;
  }

  lemma {:induction false} RowOfIndicator(i: int, j: int, y: int, mulY: real, t: real, end: real)
    ensures RowSum(Indicator(i, j), y, mulY, t, end) == if y == j then Times(CellWeight(i, t, end), mulY) else 0.0
    decreases end - t
  {
    hide Times;
    Units(mulY);
    if t < end {
      Units(Times(Weight(t, end), mulY));
      CellWeightStep(i, t, end);
      RowOfIndicator(i, j, y, mulY, t + 1.0, end);
    } else {
      assert CellWeight(i, t, end) == 0.0;
    }
  }

  /** A single bright input pixel (i, j) contributes the weight of its row times the weight of its column, and
      nothing when no sample falls into it. With linearity that settles what every picture gives. */
  lemma {:induction false} BoxOfIndicator(i: int, j: int, s: real, endY: real, t: real, endX: real)
    ensures BoxSum(Indicator(i, j), s, endY, t, endX) == Times(CellWeight(i, t, endX), CellWeight(j, s, endY))
    decreases endY - s
  {
    hide Times, RowSum;
    Units(CellWeight(i, t, endX));
    if s < endY {
      RowOfIndicator(i, j, s.Floor, Weight(s, endY), t, endX);
      CellWeightStep(j, s, endY);
      BoxOfIndicator(i, j, s + 1.0, endY, t, endX);
    } else {
      assert CellWeight(j, s, endY) == 0.0;
    }
  }

  // ---------- whole blocks ----------

  /** Channel `c` of `n` neighbouring pixels of row `y`, from column `x` on. */
  function BytesOfRow(img: seq<Byte>, w: nat, h: nat, c: nat, x: nat, y: nat, n: nat): nat
    requires |img| == 3 * (w * h) && c < 3 && x + n <= w && y < h
  {
    if n == 0 then 0
    else
      AtInBounds(w, h, x + n - 1, y);
      BytesOfRow(img, w, h, c, x, y, n - 1) + img[3 * (y * w + x + n - 1) + c]
  }

  /** Channel `c` of the `rows` times `n` pixels with their upper left corner at (x, y). */
  function BytesOfBlock(img: seq<Byte>, w: nat, h: nat, c: nat, x: nat, y: nat, n: nat, rows: nat): nat
    requires |img| == 3 * (w * h) && c < 3 && x + n <= w && y + rows <= h
  {
    if rows == 0 then 0
    else BytesOfBlock(img, w, h, c, x, y, n, rows - 1) + BytesOfRow(img, w, h, c, x, y + rows - 1, n)
  }

  /** A row sum over whole cells, one sample taken off its end. */
  lemma {:induction false} RowWhole(f: Plane, y: int, a: int, b: int)
    requires a <= b
    ensures RowSum(f, y, 1.0, a as real, (b + 1) as real) == RowSum(f, y, 1.0, a as real, b as real) + f(b, y)
    decreases b - a
  {
    var t, end := a as real, (b + 1) as real;
    assert t.Floor == a && Weight(t, end) == 1.0 && t + 1.0 == (a + 1) as real;
    assert Times(Times(1.0, 1.0), f(a, y)) == f(a, y);
    if a < b {
      assert Weight(t, b as real) == 1.0;
      RowWhole(f, y, a + 1, b);
    } else {
      assert RowSum(f, y, 1.0, t + 1.0, end) == 0.0;
    }
  }

  lemma {:induction false} BoxWhole(f: Plane, s: int, endY: int, t: int, endX: int)
    requires s <= endY
    ensures BoxSum(f, s as real, (endY + 1) as real, t as real, endX as real) ==
            BoxSum(f, s as real, endY as real, t as real, endX as real) +
            RowSum(f, endY, 1.0, t as real, endX as real)
    decreases endY - s
  {
    hide RowSum;
    assert (s as real).Floor == s && Weight(s as real, (endY + 1) as real) == 1.0;
    assert s as real + 1.0 == (s + 1) as real;
    if s < endY {
      assert Weight(s as real, endY as real) == 1.0;
      BoxWhole(f, s + 1, endY, t, endX);
    } else {
      assert BoxSum(f, (s + 1) as real, (endY + 1) as real, t as real, endX as real) == 0.0;
    }
  }

  lemma {:induction false} RowOfBytes(img: seq<Byte>, w: nat, h: nat, c: nat, x: nat, y: nat, n: nat)
    requires |img| == 3 * (w * h) && c < 3 && x + n <= w && y < h
    ensures RowSum(Channel(img, w, h, c), y, 1.0, x as real, (x + n) as real) ==
            BytesOfRow(img, w, h, c, x, y, n) as real
  {
    var f := Channel(img, w, h, c);
    if n > 0 {
      AtInBounds(w, h, x + n - 1, y);
      RowOfBytes(img, w, h, c, x, y, n - 1);
      RowWhole(f, y, x, x + n - 1);
      assert f(x + n - 1, y) == img[3 * (y * w + x + n - 1) + c] as real;
    }
  }

  lemma {:induction false} BoxOfBytes(img: seq<Byte>, w: nat, h: nat, c: nat, x: nat, y: nat, n: nat, rows: nat)
    requires |img| == 3 * (w * h) && c < 3 && x + n <= w && y + rows <= h
    ensures BoxSum(Channel(img, w, h, c), y as real, (y + rows) as real, x as real, (x + n) as real) ==
            BytesOfBlock(img, w, h, c, x, y, n, rows) as real
  {
    hide RowSum, Channel, BytesOfRow;
    if rows > 0 {
      hide BoxSum;
      var last := y + rows - 1;
      RowOfBytes(img, w, h, c, x, last, n);
      BoxOfBytes(img, w, h, c, x, y, n, rows - 1);
      BoxWhole(Channel(img, w, h, c), y, last, x, x + n);
    }
  }

  lemma BlockWindow(o: nat, k: nat, m: nat)
    requires o < m
    ensures From(o, k * m, m) == (o * k) as real && To(o, k * m, m) == (o * k + k) as real
    ensures o * k + k <= k * m && Scale(k * m, m) == k as real
  {
    assert (k * m) as real == k as real * m as real;
    DivideMultiply(k as real, m as real);
    assert Scale(k * m, m) == k as real;
    assert o as real * k as real == (o * k) as real;
    MulMonotone(o + 1, m, k);
  }

  lemma FloorOfQuotient(a: nat, b: nat)
    requires b > 0
    ensures (a as real / b as real).Floor == a / b
  {
    hide Times;
    var q := a as real / b as real;
    DivideMultiply(a as real, b as real);
    var n := a / b;
    assert n * b <= a < (n + 1) * b;
    ProductAsReal(n, b);
    ProductAsReal(n + 1, b);
    if q < n as real {
      StrictlyMonotone(q, n as real, b as real);
    } else if q >= (n + 1) as real {
      Monotone((n + 1) as real, q, b as real);
    }
  }

  lemma ProductAsReal(a: nat, b: nat)
    ensures Times(a as real, b as real) == (a * b) as real
  {
  }

  lemma WindowMean(img: seq<Byte>, win: nat, hin: nat, wout: nat, hout: nat, x: nat, y: nat, c: nat,
      x0: nat, y0: nat, k: nat, l: nat, area: nat)
    requires |img| == 3 * (win * hin) && c < 3 && area > 0 && x0 + k <= win && y0 + l <= hin
    requires From(x, win, wout) == x0 as real && To(x, win, wout) == (x0 + k) as real
    requires From(y, hin, hout) == y0 as real && To(y, hin, hout) == (y0 + l) as real
    requires Gathered(ONE, win, hin, wout, hout, x, y) == area as real
    ensures FinePixel(img, win, hin, wout, hout, x, y, c) == BytesOfBlock(img, win, hin, c, x0, y0, k, l) / area
  {
    hide From, To, BoxSum, Channel, BytesOfBlock;
    BoxOfBytes(img, win, hin, c, x0, y0, k, l);
    FloorOfQuotient(BytesOfBlock(img, win, hin, c, x0, y0, k, l), area);
  }

  /** Shrinking by whole factors k and l gives each output pixel the plain mean of its block of k times l
      pixels, rounded down. */
  lemma BlockMean(img: seq<Byte>, win: nat, hin: nat, k: nat, l: nat, wout: nat, hout: nat, x: nat, y: nat, c: nat)
    requires win == k * wout && hin == l * hout && |img| == 3 * (win * hin)
    requires k > 0 && l > 0 && x < wout && y < hout && c < 3
    ensures x * k + k <= win && y * l + l <= hin
    ensures FinePixel(img, win, hin, wout, hout, x, y, c) ==
            BytesOfBlock(img, win, hin, c, x * k, y * l, k, l) / (k * l)
  {
    hide From, To, Scale, Gathered, FinePixel, BytesOfBlock;
    BlockWindow(x, k, wout);
    BlockWindow(y, l, hout);
    WeightIsArea(win, hin, wout, hout, x, y);
    ProductAsReal(k, l);
    WindowMean(img, win, hin, wout, hout, x, y, c, x * k, y * l, k, l, k * l);
  }

  // ---------- the loops ----------

  const EMPTY := Accumulator(0.0, 0.0, 0.0, 0.0)

  function Plus(a: Accumulator, b: Accumulator): Accumulator {
    Accumulator(a.n + b.n, a.r + b.r, a.g + b.g, a.b + b.b)
  }

  function RowAcc(img: seq<Byte>, win: nat, hin: nat, y: int, mulY: real, t: real, end: real): Accumulator
    requires |img| == 3 * (win * hin)
  {
    Accumulator(RowSum(ONE, y, mulY, t, end), RowSum(Channel(img, win, hin, 0), y, mulY, t, end),
                RowSum(Channel(img, win, hin, 1), y, mulY, t, end), RowSum(Channel(img, win, hin, 2), y, mulY, t, end))
  }

  function BoxAcc(img: seq<Byte>, win: nat, hin: nat, s: real, endY: real, t: real, endX: real): Accumulator
    requires |img| == 3 * (win * hin)
  {
    Accumulator(BoxSum(ONE, s, endY, t, endX), BoxSum(Channel(img, win, hin, 0), s, endY, t, endX),
                BoxSum(Channel(img, win, hin, 1), s, endY, t, endX),
                BoxSum(Channel(img, win, hin, 2), s, endY, t, endX))
  }

  function PixelAcc(img: seq<Byte>, win: nat, hin: nat, wout: nat, hout: nat, x: nat, y: nat): Accumulator
    requires |img| == 3 * (win * hin)
  {
    BoxAcc(img, win, hin, From(y, hin, hout), To(y, hin, hout), From(x, win, wout), To(x, win, wout))
  }

  lemma ChannelRead(img: seq<Byte>, win: nat, hin: nat, x: nat, y: nat)
    requires |img| == 3 * (win * hin) && x < win && y < hin
    ensures y * win * 3 + x * 3 == At3(win, x, y, 0) && At3(win, x, y, 0) + 2 < |img|
    ensures forall c: nat {:trigger Channel(img, win, hin, c)} :: c < 3 ==>
              Channel(img, win, hin, c)(x, y) == img[At3(win, x, y, 0) + c] as real
  {
    AtInBounds(win, hin, x, y);
  }

  /** The innermost loop: add the samples of one input row to one accumulator. */
  method AddRow(work: array<Accumulator>, p: nat, input: array<Byte>, win: nat, hin: nat,
                inY: real, mulY: real, inXOffset: real, endX: real)
    requires p < work.Length && input.Length == 3 * (win * hin)
    requires 0.0 <= inY && inY.Floor < hin && 0.0 <= inXOffset && endX <= win as real
    modifies work
    ensures work[p] == Plus(old(work[p]), RowAcc(input[..], win, hin, inY.Floor, mulY, inXOffset, endX))
    ensures forall i :: 0 <= i < work.Length && i != p ==> work[i] == old(work[i])
  {
    hide Channel, At3;
    var oY := inY.Floor * win * 3;
    var inX := inXOffset;
    ghost var all := Plus(work[p], RowAcc(input[..], win, hin, inY.Floor, mulY, inXOffset, endX));
    while inX < endX
      invariant inXOffset <= inX
      invariant Plus(work[p], RowAcc(input[..], win, hin, inY.Floor, mulY, inX, endX)) == all
      invariant forall i :: 0 <= i < work.Length && i != p ==> work[i] == old(work[i])
      decreases endX - inX
    {
      var mulX := if endX - inX < 1.0 then endX - inX else 1.0;
      var mul := Times(mulX, mulY);
      ChannelRead(input[..], win, hin, inX.Floor, inY.Floor);
      var getOffset := oY + inX.Floor * 3;
      work[p] := Accumulator(work[p].n + mul, work[p].r + Times(mul, input[getOffset + 0] as real),
                             work[p].g + Times(mul, input[getOffset + 1] as real),
                             work[p].b + Times(mul, input[getOffset + 2] as real));
      AddSample(mul, mulX, mulY, inX, endX, inY.Floor);
      inX := inX + 1.0;
    }
  }

  lemma AddSample(mul: real, mulX: real, mulY: real, t: real, end: real, y: int)
    requires t < end && mulX == Weight(t, end) && mul == Times(mulX, mulY)
    ensures RowSum(ONE, y, mulY, t, end) == mul + RowSum(ONE, y, mulY, t + 1.0, end)
  {
    assert ONE(t.Floor, y) == 1.0;
    Units(mul);
  }

  /** The loop over the output columns, for one input row. */
  method AddScan(work: array<Accumulator>, input: array<Byte>, win: nat, hin: nat, wout: nat, hout: nat, y: nat,
      inY: real, mulY: real)
    requires work.Length == wout * hout && input.Length == 3 * (win * hin)
    requires y < hout && 0.0 <= inY && inY.Floor < hin
    modifies work
    ensures forall x: nat, y': nat {:trigger At(wout, x, y')} ::
            x < wout && y' < hout && At(wout, x, y') < work.Length ==>
              work[At(wout, x, y')] ==
              if y' == y then Plus(old(work[At(wout, x, y')]),
                                   RowAcc(input[..], win, hin, inY.Floor, mulY, From(x, win, wout), To(x, win, wout)))
              else old(work[At(wout, x, y')])
  {
    hide RowAcc, Plus, From, To;
    for x := 0 to wout
      invariant forall x': nat, y': nat {:trigger At(wout, x', y')} ::
                x' < wout && y' < hout && At(wout, x', y') < work.Length ==>
                  work[At(wout, x', y')] ==
                  if y' == y && x' < x
                  then Plus(old(work[At(wout, x', y')]),
                            RowAcc(input[..], win, hin, inY.Floor, mulY, From(x', win, wout), To(x', win, wout)))
                  else old(work[At(wout, x', y')])
    {
      WindowInside(x, win, wout);
      AtInBounds(wout, hout, x, y);
      AtUnique(wout, x, y);
      var inXOffset, endX := From(x, win, wout), To(x, win, wout);
      AddRow(work, y * wout + x, input, win, hin, inY, mulY, inXOffset, endX);
    }
  }

  lemma BoxAccStep(img: seq<Byte>, win: nat, hin: nat, s: real, endY: real, t: real, endX: real, a: Accumulator)
    requires |img| == 3 * (win * hin)
    ensures s < endY ==>
              Plus(Plus(a, RowAcc(img, win, hin, s.Floor, Weight(s, endY), t, endX)),
                BoxAcc(img, win, hin, s + 1.0, endY, t, endX)) ==
              Plus(a, BoxAcc(img, win, hin, s, endY, t, endX))
    ensures s >= endY ==> Plus(a, BoxAcc(img, win, hin, s, endY, t, endX)) == a
  {
    hide RowSum, Channel;
  }

  lemma PlusEmpty(a: Accumulator)
    ensures Plus(EMPTY, a) == a
  {
  }

  /** Accumulators of row `y` still lack the input rows from `inY` on; earlier rows are complete. */
  ghost predicate Progress(work: seq<Accumulator>, img: seq<Byte>, win: nat, hin: nat, wout: nat, hout: nat, y: nat,
      inY: real)
  {
    && |img| == 3 * (win * hin) && |work| == wout * hout
    && forall x: nat, y': nat {:trigger At(wout, x, y')} :: x < wout && y' < hout && At(wout, x, y') < |work| ==>
         if y' < y then work[At(wout, x, y')] == PixelAcc(img, win, hin, wout, hout, x, y')
         else if y' > y then work[At(wout, x, y')] == EMPTY
         else Plus(work[At(wout, x, y')],
           BoxAcc(img, win, hin, inY, To(y, hin, hout), From(x, win, wout), To(x, win, wout))) ==
              PixelAcc(img, win, hin, wout, hout, x, y)
  }

  /** The loop over the input rows of one output row. */
  method GatherRow(work: array<Accumulator>, input: array<Byte>, win: nat, hin: nat, wout: nat, hout: nat, y: nat)
    requires y < hout && Progress(work[..], input[..], win, hin, wout, hout, y, From(y, hin, hout))
    modifies work
    ensures forall x: nat, y': nat {:trigger At(wout, x, y')} ::
            x < wout && y' < hout && At(wout, x, y') < work.Length ==>
              work[At(wout, x, y')] == if y' <= y then PixelAcc(input[..], win, hin, wout, hout, x, y') else EMPTY
  {
    hide RowAcc, BoxAcc, Plus, From, To, At, PixelAcc, Scale;
    WindowInside(y, hin, hout);
    var inYOffset, endY := From(y, hin, hout), To(y, hin, hout);
    var inY := inYOffset;
    while inY < endY
      invariant 0.0 <= inY
      invariant Progress(work[..], input[..], win, hin, wout, hout, y, inY)
      decreases endY - inY
    {
      var mulY := if endY - inY < 1.0 then endY - inY else 1.0;
      ghost var before := work[..];
      AddScan(work, input, win, hin, wout, hout, y, inY, mulY);
      forall x: nat {:trigger At(wout, x, y)} | x < wout && At(wout, x, y) < work.Length
        ensures Plus(work[At(wout, x, y)],
                BoxAcc(input[..], win, hin, inY + 1.0, endY, From(x, win, wout), To(x, win, wout))) ==
                PixelAcc(input[..], win, hin, wout, hout, x, y)
      {
        BoxAccStep(input[..], win, hin, inY, endY, From(x, win, wout), To(x, win, wout), before[At(wout, x, y)]);
      }
      inY := inY + 1.0;
    }
    forall x: nat {:trigger At(wout, x, y)} | x < wout && At(wout, x, y) < work.Length
      ensures work[At(wout, x, y)] == PixelAcc(input[..], win, hin, wout, hout, x, y)
    {
      BoxAccStep(input[..], win, hin, inY, endY, From(x, win, wout), To(x, win, wout), work[At(wout, x, y)]);
    }
  }

  /** All accumulation loops. */
  method Gather(input: array<Byte>, win: nat, hin: nat, wout: nat, hout: nat) returns (work: array<Accumulator>)
    requires input.Length == 3 * (win * hin)
    ensures fresh(work) && work.Length == wout * hout
    ensures forall x: nat, y: nat {:trigger At(wout, x, y)} :: x < wout && y < hout && At(wout, x, y) < work.Length ==>
              work[At(wout, x, y)] == PixelAcc(input[..], win, hin, wout, hout, x, y)
  {
    hide BoxAcc, Plus, From, To, At, PixelAcc, Scale;
    work := new Accumulator[wout * hout](_ => EMPTY);
    for y := 0 to hout
      invariant work.Length == wout * hout
      invariant forall x: nat, y': nat {:trigger At(wout, x, y')} ::
                x < wout && y' < hout && At(wout, x, y') < work.Length ==>
                  work[At(wout, x, y')] == if y' < y then PixelAcc(input[..], win, hin, wout, hout, x, y') else EMPTY
    {
      BeginRow(work[..], input[..], win, hin, wout, hout, y);
      GatherRow(work, input, win, hin, wout, hout, y);
    }
  }

  lemma BeginRow(work: seq<Accumulator>, img: seq<Byte>, win: nat, hin: nat, wout: nat, hout: nat, y: nat)
    requires |img| == 3 * (win * hin) && |work| == wout * hout && y < hout
    requires forall x: nat, y': nat {:trigger At(wout, x, y')} :: x < wout && y' < hout && At(wout, x, y') < |work| ==>
               work[At(wout, x, y')] == if y' < y then PixelAcc(img, win, hin, wout, hout, x, y') else EMPTY
    ensures Progress(work, img, win, hin, wout, hout, y, From(y, hin, hout))
  {
    hide BoxAcc, Plus, From, To, At;
    forall x: nat {:trigger At(wout, x, y)} | x < wout && At(wout, x, y) < |work|
      ensures Plus(work[At(wout, x, y)], PixelAcc(img, win, hin, wout, hout, x, y)) ==
              PixelAcc(img, win, hin, wout, hout, x, y)
    {
      PlusEmpty(PixelAcc(img, win, hin, wout, hout, x, y));
    }
  }

  /** `resize_fine::do_resize`: every channel of every output pixel is its weighted mean, rounded down. */
  method DoResize(win: nat, hin: nat, input: array<Byte>, wout: nat, hout: nat) returns (out: array<Byte>)
    requires input.Length == 3 * (win * hin)
    ensures fresh(out) && out.Length == 3 * (wout * hout)
    ensures forall x: nat, y: nat, c: nat {:trigger At3(wout, x, y, c)} ::
              x < wout && y < hout && c < 3 && At3(wout, x, y, c) < out.Length ==>
              out[At3(wout, x, y, c)] == FinePixel(input[..], win, hin, wout, hout, x, y, c)
  {
    hide FinePixel, PixelAcc, At;
    out := new Byte[wout * hout * 3];
    var work := Gather(input, win, hin, wout, hout);
    ghost var gathered := work[..];
    for y := 0 to hout
      invariant work[..] == gathered
      invariant out.Length == 3 * (wout * hout)
      invariant forall x: nat, y': nat, c: nat {:trigger At3(wout, x, y', c)} ::
                  x < wout && y' < y && c < 3 && At3(wout, x, y', c) < out.Length ==>
                  out[At3(wout, x, y', c)] == FinePixel(input[..], win, hin, wout, hout, x, y', c)
    {
      for x := 0 to wout
        invariant work[..] == gathered
        invariant out.Length == 3 * (wout * hout)
        invariant forall x': nat, y': nat, c: nat {:trigger At3(wout, x', y', c)} ::
                    x' < wout && (y' < y || (y' == y && x' < x)) && c < 3 && At3(wout, x', y', c) < out.Length ==>
                      out[At3(wout, x', y', c)] == FinePixel(input[..], win, hin, wout, hout, x', y', c)
      {
        AtInBounds(wout, hout, x, y);
        AtUnique(wout, x, y);
        assert work[At(wout, x, y)] == gathered[At(wout, x, y)];
        WritePixel(work, input[..], win, hin, out, wout, hout, x, y);
      }
    }
  }

  method WritePixel(work: array<Accumulator>, ghost img: seq<Byte>, ghost win: nat, ghost hin: nat,
                    out: array<Byte>, wout: nat, ghost hout: nat, x: nat, y: nat)
    requires |img| == 3 * (win * hin) && x < wout && y < hout
    requires At(wout, x, y) < work.Length && 3 * work.Length == out.Length
    requires work[At(wout, x, y)] == PixelAcc(img, win, hin, wout, hout, x, y)
    modifies out
    ensures forall c :: 0 <= c < 3 ==> out[3 * At(wout, x, y) + c] == FinePixel(img, win, hin, wout, hout, x, y, c)
    ensures forall i :: 0 <= i < out.Length && !(3 * At(wout, x, y) <= i < 3 * At(wout, x, y) + 3) ==>
            out[i] == old(out[i])
  {
    hide BoxSum;
    PixelIsByte(img, win, hin, wout, hout, x, y, 0);
    PixelIsByte(img, win, hin, wout, hout, x, y, 1);
    PixelIsByte(img, win, hin, wout, hout, x, y, 2);
    var i := y * wout + x;
    var o := 3 * i;
    var a := work[i];
    assert a.n == Gathered(ONE, win, hin, wout, hout, x, y);
    if a.n != 0.0 {
      out[o + 0] := (a.r / a.n).Floor;
      out[o + 1] := (a.g / a.n).Floor;
      out[o + 2] := (a.b / a.n).Floor;
    } else {
      out[o + 0], out[o + 1], out[o + 2] := 0, 0, 0;
    }
  }
}
