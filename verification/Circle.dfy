/** The circle marker of src/filter_marker_simple.cpp: an integer stepper over one octant whose points
    are mirrored eight ways. Its decision variable is updated with the new coordinates, so it follows
    its own closed form and not the textbook one. */
module Circle {

  import opened Pixels

  // ---------- one octant ----------

  /** One turn of the loop: the new coordinates and decision variable. */
  function Next(x: int, y: int, d: int): (int, int, int) {
    if d > 0 then (x + 1, y - 1, d + 4 * ((x + 1) - (y - 1)) + 10) else (x + 1, y, d + 4 * (x + 1) + 6)
  }

  /** The points plotted from (x, y) on, decision variable `d`. */
  function Octant(x: int, y: int, d: int): seq<(int, int)>
    decreases if y >= x then y - x + 1 else 0
  {
    if y < x then [(x, y)]
    else var (x', y', d') := Next(x, y, d); [(x, y)] + Octant(x', y', d')
  }

  function Points(r: int): seq<(int, int)> { Octant(0, r, 3 - 2 * r) }

  /** How far the squared distance of (x, y) is off. */
  function Excess(x: int, y: int, r: int): int { x * x + y * y - r * r }

  predicate ClosedForm(x: int, y: int, d: int, r: int) {
    d == 2 * x * x + 8 * x + 2 * y * y - 6 * y + 3 - 2 * r * r + 4 * r
  }

  lemma ExcessStep(x: int, y: int, r: int)
    ensures Excess(x + 1, y, r) == Excess(x, y, r) + 2 * x + 1
    ensures Excess(x + 1, y - 1, r) == Excess(x, y, r) + 2 * x + 1 - 2 * y + 1
  {
  }

  lemma ClosedFormByExcess(x: int, y: int, d: int, r: int)
    ensures ClosedForm(x, y, d, r) <==> d == 2 * Excess(x, y, r) + 8 * x - 6 * y + 3 + 4 * r
  {
    assert 2 * x * x == 2 * (x * x) && 2 * y * y == 2 * (y * y) && 2 * r * r == 2 * (r * r);
  }

  /** The stepper keeps the closed form, at every step from any start. */
  lemma ClosedFormKept(x: int, y: int, d: int, r: int)
    requires ClosedForm(x, y, d, r)
    ensures var (x', y', d') := Next(x, y, d); ClosedForm(x', y', d', r)
  {
    var (x', y', d') := Next(x, y, d);
    ExcessStep(x, y, r);
    ClosedFormByExcess(x, y, d, r);
    ClosedFormByExcess(x', y', d', r);
  }

  /** By how much the decision variable may exceed 4x + 6 once the octant is nearly done. */
  function Slack(gap: int): int {
    if gap >= 2 then 0 else if gap == 1 then 2 else if gap == 0 then 6 else if gap == -1 then 12 else 20
  }

  ghost predicate Invariant(x: int, y: int, d: int, r: int) {
    && ClosedForm(x, y, d, r)
    && 0 <= x <= r && x - 2 <= y <= r
    && d <= 4 * x + 6 + Slack(y - x)
    && (Excess(x, y, r) >= 0 || Excess(x, y, r) >= y - 2 * x - 2 * r + 4)
  }

  /** In terms of the closed form the bounds on the decision variable bound the distance. */
  lemma InvariantBounds(x: int, y: int, d: int, r: int)
    requires r >= 2 && Invariant(x, y, d, r)
    ensures 2 - 3 * r <= Excess(x, y, r) <= r + 1
  {
    hide Excess, ClosedForm;
    ClosedFormByExcess(x, y, d, r);
  }

  lemma Corner(r: int)
    requires r >= 2
    ensures Excess(r, r, r) > r + 1
  {
    assert r * r >= 2 * r;
  }

  lemma InvariantKept(x: int, y: int, d: int, r: int)
    requires r >= 2 && y >= x && Invariant(x, y, d, r)
    ensures var (x', y', d') := Next(x, y, d); Invariant(x', y', d', r)
  {
    InvariantBounds(x, y, d, r);
    if x == r {
      Corner(r);
    }
    ClosedFormKept(x, y, d, r);
    ExcessStep(x, y, r);
    hide Excess, ClosedForm;
    ClosedFormByExcess(x, y, d, r);
  }

  ghost predicate NearCircle(p: (int, int), r: int) {
    && 0 <= p.0 <= r && -r <= p.1 <= r
    && 2 - 3 * r <= Excess(p.0, p.1, r) <= r + 1
  }

  lemma {:induction false} OctantNearCircle(x: int, y: int, d: int, r: int)
    requires r >= 2 && Invariant(x, y, d, r)
    ensures forall p :: p in Octant(x, y, d) ==> NearCircle(p, r)
    decreases if y >= x then y - x + 1 else 0
  {
    InvariantBounds(x, y, d, r);
    hide Excess, ClosedForm;
    if y >= x {
      InvariantKept(x, y, d, r);
      var (x', y', d') := Next(x, y, d);
      OctantNearCircle(x', y', d', r);
    }
  }

  /** Every plotted point is less than 2 pixels inside the circle and half a pixel, rounded, outside it. */
  lemma PointsNearCircle(r: int, p: (int, int))
    requires r >= 1 && p in Points(r)
    ensures 0 <= p.0 <= r && -r <= p.1 <= r
    ensures (r - 2) * (r - 2) <= p.0 * p.0 + p.1 * p.1 <= r * r + r + 1
  {
    if r == 1 {
      assert Octant(1, 0, 15) == [(1, 0)];
      assert Points(1) == [(0, 1)] + Octant(1, 0, 15);
    } else {
      assert Invariant(0, r, 3 - 2 * r, r) by {
        ClosedFormByExcess(0, r, 3 - 2 * r, r);
      }
      OctantNearCircle(0, r, 3 - 2 * r, r);
      assert NearCircle(p, r);
      assert (r - 2) * (r - 2) == r * r - 4 * r + 4;
    }
  }

  /** A radius of zero plots its centre and the diagonal neighbour. */
  lemma RadiusZero()
    ensures Points(0) == [(0, 0), (1, -1)]
  {
    assert Octant(1, -1, 21) == [(1, -1)];
    assert Points(0) == [(0, 0)] + Octant(1, -1, 21);
  }

  /** The ring holds the points exactly for the positive radii. A negative radius plots a single point. */
  lemma NearCircleExactly(r: int)
    ensures (forall p :: p in Points(r) ==> (r - 2) * (r - 2) <= p.0 * p.0 + p.1 * p.1 <= r * r + r + 1) <==> r >= 1
    ensures r < 0 ==> Points(r) == [(0, r)]
  {
    if r >= 1 {
      forall p | p in Points(r)
        ensures (r - 2) * (r - 2) <= p.0 * p.0 + p.1 * p.1 <= r * r + r + 1
      {
        PointsNearCircle(r, p);
      }
    } else {
      if r == 0 {
        RadiusZero();
      }
      assert (0, r) in Points(r) && (r - 2) * (r - 2) == r * r - 4 * r + 4;
    }
  }

  predicate Gapless(ps: seq<(int, int)>, x: int, y: int) {
    && |ps| >= 1 && ps[0] == (x, y)
    && (forall k :: 0 <= k < |ps| ==> ps[k].0 == x + k)
    && (forall k :: 0 <= k < |ps| - 1 ==> ps[k].1 - 1 <= ps[k + 1].1 <= ps[k].1)
  }

  lemma GaplessCons(x: int, y: int, rest: seq<(int, int)>, y': int)
    requires Gapless(rest, x + 1, y') && y - 1 <= y' <= y
    ensures Gapless([(x, y)] + rest, x, y)
    ensures |rest| >= 1
  {
    var ps := [(x, y)] + rest;
    forall k | 0 <= k < |ps| - 1
      ensures ps[k].1 - 1 <= ps[k + 1].1 <= ps[k].1
    {
      assert ps[k + 1] == rest[k];
    }
  }

  /** The octant is drawn without gaps: one point per column, each at most a row below the last, until
      the diagonal is crossed. */
  lemma {:induction false} OctantWithoutGaps(x: int, y: int, d: int)
    ensures var ps := Octant(x, y, d); Gapless(ps, x, y) && ps[|ps| - 1].1 < ps[|ps| - 1].0
    decreases if y >= x then y - x + 1 else 0
  {
    if y >= x {
      hide Gapless;
      var (x', y', d') := Next(x, y, d);
      OctantWithoutGaps(x', y', d');
      GaplessCons(x, y, Octant(x', y', d'), y');
    }
  }

  // ---------- painting ----------

  datatype Mode = Red | RedInvert | Invert | Color(r: Byte, g: Byte, b: Byte)

  datatype Rgb = Rgb(r: Byte, g: Byte, b: Byte)

  /** The effect of `update_pixel` on one pixel; xor with 255 is 255 minus the value. */
  function Painted(m: Mode, p: Rgb): Rgb {
    match m
    case Red => Rgb(255, p.g, p.b)
    case RedInvert => Rgb(255 - p.r, p.g, p.b)
    case Invert => Rgb(255 - p.r, 255 - p.g, 255 - p.b)
    case Color(r, g, b) => Rgb(r, g, b)
  }

  function PixelAt(img: seq<Byte>, i: int): Rgb
    requires 0 <= i && 3 * i + 2 < |img|
  {
    Rgb(img[3 * i], img[3 * i + 1], img[3 * i + 2])
  }

  /** The eight mirror images of (x, y) around (xc, yc), as pixel numbers in an image of width `w`. */
  function Mirrored(w: int, xc: int, yc: int, x: int, y: int): seq<int> {
    FourWays(w, xc, yc, x, y) + FourWays(w, xc, yc, y, x)
  }

  function FourWays(w: int, xc: int, yc: int, x: int, y: int): seq<int> {
    [Number(w, xc + x, yc + y), Number(w, xc - x, yc + y), Number(w, xc + x, yc - y), Number(w, xc - x, yc - y)]
  }

  /** The pixel that coordinates reach in memory, which for coordinates outside the row is another row's. */
  function Number(w: int, x: int, y: int): int { y * w + x }

  function AllMirrored(w: int, xc: int, yc: int, ps: seq<(int, int)>): seq<int> {
    if ps == [] then [] else Mirrored(w, xc, yc, ps[0].0, ps[0].1) + AllMirrored(w, xc, yc, ps[1..])
  }

  function Times(s: seq<int>, i: int): nat {
    if s == [] then 0 else (if s[0] == i then 1 else 0) + Times(s[1..], i)
  }

  function PaintedTimes(m: Mode, p: Rgb, n: nat): Rgb
    decreases n
  {
    if n == 0 then p else PaintedTimes(m, Painted(m, p), n - 1)
  }

  /** `after` is `before` with every pixel painted as often as it is listed. */
  ghost predicate IsPainted(m: Mode, after: seq<Byte>, before: seq<Byte>, indices: seq<int>) {
    && |after| == |before|
    && forall i :: 0 <= i && 3 * i + 2 < |before| ==>
      PixelAt(after, i) == PaintedTimes(m, PixelAt(before, i), Times(indices, i))
  }

  ghost predicate InImage(indices: seq<int>, w: nat, h: nat) {
    forall i :: i in indices ==> 0 <= i < w * h
  }

  lemma {:induction false} TimesAppend(a: seq<int>, b: seq<int>, i: int)
    ensures Times(a + b, i) == Times(a, i) + Times(b, i)
  {
    if a == [] {
      assert a + b == b;
    } else {
      assert (a + b)[1..] == a[1..] + b;
      TimesAppend(a[1..], b, i);
    }
  }

  lemma {:induction false} PaintedTimesAdd(m: Mode, p: Rgb, a: nat, b: nat)
    ensures PaintedTimes(m, p, a + b) == PaintedTimes(m, PaintedTimes(m, p, a), b)
    decreases a
  {
    if a > 0 {
      PaintedTimesAdd(m, Painted(m, p), a - 1, b);
    }
  }

  lemma PaintedCompose(m: Mode, c: seq<Byte>, b: seq<Byte>, a: seq<Byte>, first: seq<int>, second: seq<int>)
    requires IsPainted(m, b, a, first) && IsPainted(m, c, b, second)
    ensures IsPainted(m, c, a, first + second)
  {
    forall i | 0 <= i && 3 * i + 2 < |a|
      ensures PixelAt(c, i) == PaintedTimes(m, PixelAt(a, i), Times(first + second, i))
    {
      TimesAppend(first, second, i);
      PaintedTimesAdd(m, PixelAt(a, i), Times(first, i), Times(second, i));
    }
  }

  lemma PaintedNothing(m: Mode, a: seq<Byte>)
    ensures IsPainted(m, a, a, [])
  {
  }

  method UpdatePixel(out: array<Byte>, x: int, y: int, w: int, m: Mode)
    requires 0 <= Number(w, x, y) && 3 * Number(w, x, y) + 2 < out.Length
    modifies out
    ensures IsPainted(m, out[..], old(out[..]), [Number(w, x, y)])
  {
    var o := y * w * 3 + x * 3;
    ghost var i, before := y * w + x, out[..];
    assert o == 3 * i;
    match m {
      case Red => out[o + 0] := 255;
      case RedInvert => out[o + 0] := 255 - out[o + 0];
      case Invert =>
        out[o + 0] := 255 - out[o + 0];
        out[o + 1] := 255 - out[o + 1];
        out[o + 2] := 255 - out[o + 2];
      case Color(r, g, b) =>
        out[o + 0] := r;
        out[o + 1] := g;
        out[o + 2] := b;
    }
    PaintedOnce(m, out[..], before, i);
  }

  lemma PaintedOnce(m: Mode, after: seq<Byte>, before: seq<Byte>, i: nat)
    requires |after| == |before| && 3 * i + 2 < |before|
    requires PixelAt(after, i) == Painted(m, PixelAt(before, i))
    requires forall k :: 0 <= k < |after| && !(3 * i <= k <= 3 * i + 2) ==> after[k] == before[k]
    ensures IsPainted(m, after, before, [i])
  {
    forall j | 0 <= j && 3 * j + 2 < |before|
      ensures PixelAt(after, j) == PaintedTimes(m, PixelAt(before, j), Times([i], j))
    {
      assert Times([i][1..], j) == 0;
      assert PaintedTimes(m, PixelAt(before, i), 1) == Painted(m, PixelAt(before, i));
    }
  }

  /** `draw_circle_do`: the eight images of one point, in order. */
  method DrawCircleDo(tgt: array<Byte>, w: int, h: nat, xc: int, yc: int, x: int, y: int, m: Mode)
    requires 0 <= w && tgt.Length == 3 * (w * h) && InImage(Mirrored(w, xc, yc, x, y), w, h)
    modifies tgt
    ensures IsPainted(m, tgt[..], old(tgt[..]), Mirrored(w, xc, yc, x, y))
  {
    ghost var before := tgt[..];
    FourWaysFit(w, h, xc, yc, x, y);
    DrawFour(tgt, w, h, xc, yc, x, y, m);
    ghost var between := tgt[..];
    DrawFour(tgt, w, h, xc, yc, y, x, m);
    PaintedCompose(m, tgt[..], between, before, FourWays(w, xc, yc, x, y), FourWays(w, xc, yc, y, x));
  }

  lemma FourWaysFit(w: int, h: nat, xc: int, yc: int, x: int, y: int)
    requires 0 <= w && InImage(Mirrored(w, xc, yc, x, y), w, h)
    ensures InImage(FourWays(w, xc, yc, x, y), w, h) && InImage(FourWays(w, xc, yc, y, x), w, h)
  {
    hide FourWays;
    var all := Mirrored(w, xc, yc, x, y);
    forall i | i in FourWays(w, xc, yc, x, y) || i in FourWays(w, xc, yc, y, x)
      ensures i in all
    {
    }
  }

  method DrawFour(tgt: array<Byte>, w: int, h: nat, xc: int, yc: int, x: int, y: int, m: Mode)
    requires 0 <= w && tgt.Length == 3 * (w * h) && InImage(FourWays(w, xc, yc, x, y), w, h)
    modifies tgt
    ensures IsPainted(m, tgt[..], old(tgt[..]), FourWays(w, xc, yc, x, y))
  {
    ghost var before, s := tgt[..], FourWays(w, xc, yc, x, y);
    FourIndices(tgt.Length, s, w, h);
    ghost var plotted: seq<int> := [];
    hide IsPainted, InImage, Number;
    PaintedNothing(m, before);
    Plot(tgt, xc + x, yc + y, w, m, before, plotted);
    plotted := plotted + [s[0]];
    Plot(tgt, xc - x, yc + y, w, m, before, plotted);
    plotted := plotted + [s[1]];
    Plot(tgt, xc + x, yc - y, w, m, before, plotted);
    plotted := plotted + [s[2]];
    Plot(tgt, xc - x, yc - y, w, m, before, plotted);
    assert s == plotted + [s[3]];
  }

  lemma FourIndices(n: nat, s: seq<int>, w: int, h: nat)
    requires 0 <= w && n == 3 * (w * h) && InImage(s, w, h) && |s| == 4
    ensures 0 <= s[0] && 3 * s[0] + 2 < n && 0 <= s[1] && 3 * s[1] + 2 < n
    ensures 0 <= s[2] && 3 * s[2] + 2 < n && 0 <= s[3] && 3 * s[3] + 2 < n
  {
    assert s[0] in s && s[1] in s && s[2] in s && s[3] in s;
  }

  /** One call of `update_pixel` after those listed in `plotted`. */
  method Plot(tgt: array<Byte>, x: int, y: int, w: int, m: Mode, ghost before: seq<Byte>, ghost plotted: seq<int>)
    requires 0 <= Number(w, x, y) && 3 * Number(w, x, y) + 2 < tgt.Length
    requires IsPainted(m, tgt[..], before, plotted)
    modifies tgt
    ensures IsPainted(m, tgt[..], before, plotted + [Number(w, x, y)])
  {
    ghost var between := tgt[..];
    UpdatePixel(tgt, x, y, w, m);
    PaintedCompose(m, tgt[..], between, before, plotted, [Number(w, x, y)]);
  }

  /** `draw_circle_bresenham`: every pixel is painted once for each time it is a mirror image of an octant
      point, and no other pixel is touched. */
  method DrawCircle(tgt: array<Byte>, w: int, h: nat, xc: int, yc: int, r: int, m: Mode)
    requires 0 <= w && tgt.Length == 3 * (w * h) && InImage(AllMirrored(w, xc, yc, Points(r)), w, h)
    modifies tgt
    ensures IsPainted(m, tgt[..], old(tgt[..]), AllMirrored(w, xc, yc, Points(r)))
  {
    var x, y := 0, r;
    var d := 3 - 2 * r;
    ghost var before, plotted := tgt[..], [(x, y)];
    assert Points(r) == plotted + Rest(x, y, d);
    PaintedNothing(m, before);
    PlotPoint(tgt, w, h, xc, yc, x, y, m, before, [], r, d);
    assert [] + [(x, y)] == [(x, y)];
    hide IsPainted, AllMirrored, InImage, Octant, Points, Rest;
    while y >= x
      invariant Points(r) == plotted + Rest(x, y, d)
      invariant IsPainted(m, tgt[..], before, AllMirrored(w, xc, yc, plotted))
      decreases y - x
    {
      RestUnfolds(x, y, d, plotted);
      x := x + 1;
      if d > 0 {
        y := y - 1;
        d := d + 4 * (x - y) + 10;
      } else {
        d := d + 4 * x + 6;
      }
      PlotPoint(tgt, w, h, xc, yc, x, y, m, before, plotted, r, d);
      plotted := plotted + [(x, y)];
    }
    RestUnfolds(x, y, d, plotted);
  }

  lemma RestUnfolds(x: int, y: int, d: int, plotted: seq<(int, int)>)
    ensures y < x ==> plotted + Rest(x, y, d) == plotted
    ensures y >= x ==> var (x', y', d') := Next(x, y, d);
                       plotted + Rest(x, y, d) == plotted + [(x', y')] + Rest(x', y', d')
  {
    RestAfter(x, y, d);
    if y >= x {
      var (x', y', d') := Next(x, y, d);
      RestAfter(x', y', d');
      hide Octant, Rest, Next;
      assert plotted + ([(x', y')] + Rest(x', y', d')) == plotted + [(x', y')] + Rest(x', y', d');
    }
  }

  lemma RestAfter(x: int, y: int, d: int)
    ensures Octant(x, y, d) == [(x, y)] + Rest(x, y, d)
    ensures Rest(x, y, d) == if y < x then [] else var (x', y', d') := Next(x, y, d); Octant(x', y', d')
  {
    hide Next;
  }

  /** One call of `draw_circle_do` after those for the points in `plotted`. */
  method PlotPoint(tgt: array<Byte>, w: int, h: nat, xc: int, yc: int, x: int, y: int, m: Mode,
                   ghost before: seq<Byte>, ghost plotted: seq<(int, int)>, ghost r: int, ghost d: int)
    requires 0 <= w && tgt.Length == 3 * (w * h)
    requires InImage(AllMirrored(w, xc, yc, Points(r)), w, h) && Points(r) == plotted + [(x, y)] + Rest(x, y, d)
    requires IsPainted(m, tgt[..], before, AllMirrored(w, xc, yc, plotted))
    modifies tgt
    ensures IsPainted(m, tgt[..], before, AllMirrored(w, xc, yc, plotted + [(x, y)]))
  {
    hide IsPainted, Mirrored, InImage;
    PlottedFits(w, h, xc, yc, plotted, (x, y), Rest(x, y, d));
    ghost var between := tgt[..];
    DrawCircleDo(tgt, w, h, xc, yc, x, y, m);
    PaintedCompose(m, tgt[..], between, before, AllMirrored(w, xc, yc, plotted), Mirrored(w, xc, yc, x, y));
    AllMirroredSnoc(w, xc, yc, plotted, (x, y));
  }

  /** The octant points after the current one. */
  function Rest(x: int, y: int, d: int): seq<(int, int)> {
    Octant(x, y, d)[1..]
  }

  lemma PlottedFirst(w: int, xc: int, yc: int, x: int, y: int)
    ensures AllMirrored(w, xc, yc, [(x, y)]) == Mirrored(w, xc, yc, x, y)
  {
    assert AllMirrored(w, xc, yc, [(x, y)][1..]) == [];
  }

  lemma {:induction false} AllMirroredAppend(w: int, xc: int, yc: int, a: seq<(int, int)>, b: seq<(int, int)>)
    ensures AllMirrored(w, xc, yc, a + b) == AllMirrored(w, xc, yc, a) + AllMirrored(w, xc, yc, b)
  {
    hide Mirrored;
    if a == [] {
      assert a + b == b;
    } else {
      assert (a + b)[1..] == a[1..] + b;
      AllMirroredAppend(w, xc, yc, a[1..], b);
    }
  }

  lemma AllMirroredSnoc(w: int, xc: int, yc: int, a: seq<(int, int)>, p: (int, int))
    ensures AllMirrored(w, xc, yc, a + [p]) == AllMirrored(w, xc, yc, a) + Mirrored(w, xc, yc, p.0, p.1)
  {
    AllMirroredAppend(w, xc, yc, a, [p]);
    PlottedFirst(w, xc, yc, p.0, p.1);
  }

  lemma PlottedFits(w: int, h: nat, xc: int, yc: int, a: seq<(int, int)>, p: (int, int), b: seq<(int, int)>)
    requires 0 <= w && InImage(AllMirrored(w, xc, yc, a + [p] + b), w, h)
    ensures InImage(Mirrored(w, xc, yc, p.0, p.1), w, h)
  {
    AllMirroredAppend(w, xc, yc, a + [p], b);
    AllMirroredSnoc(w, xc, yc, a, p);
    var all := AllMirrored(w, xc, yc, a + [p] + b);
    forall i | i in Mirrored(w, xc, yc, p.0, p.1)
      ensures i in all
    {
    }
  }

  // ---------- what ends up on the image ----------

  lemma {:induction false} TimesListed(s: seq<int>, i: int)
    ensures Times(s, i) > 0 <==> i in s
  {
    if s != [] {
      TimesListed(s[1..], i);
      assert s == [s[0]] + s[1..];
    }
  }

  lemma {:induction false} MirroredOf(w: int, xc: int, yc: int, ps: seq<(int, int)>, i: int) returns (k: nat)
    requires i in AllMirrored(w, xc, yc, ps)
    ensures k < |ps| && i in Mirrored(w, xc, yc, ps[k].0, ps[k].1)
  {
    hide Mirrored;
    if i in Mirrored(w, xc, yc, ps[0].0, ps[0].1) {
      k := 0;
    } else {
      k := MirroredOf(w, xc, yc, ps[1..], i);
      k := k + 1;
    }
  }

  predicate SameUpToMirror(x: int, y: int, a: int, b: int) {
    ((a == x || a == -x) && (b == y || b == -y)) || ((a == y || a == -y) && (b == x || b == -x))
  }

  lemma OffsetOf(w: int, xc: int, yc: int, x: int, y: int, i: int) returns (a: int, b: int)
    requires i in Mirrored(w, xc, yc, x, y)
    ensures i == Number(w, xc + a, yc + b)
    ensures SameUpToMirror(x, y, a, b)
  {
    hide Number;
    var four := FourWays(w, xc, yc, x, y);
    var swapped := i !in four;
    var (p, q) := if swapped then (y, x) else (x, y);
    var s := FourWays(w, xc, yc, p, q);
    assert i in s;
    if i == s[0] {
      a, b := p, q;
    } else if i == s[1] {
      a, b := -p, q;
    } else if i == s[2] {
      a, b := p, -q;
    } else {
      a, b := -p, -q;
      assert i == s[3];
    }
  }

  lemma SameSquares(x: int, y: int, a: int, b: int)
    requires SameUpToMirror(x, y, a, b)
    ensures a * a + b * b == x * x + y * y
  {
  }

  predicate Fits(w: nat, h: nat, xc: int, yc: int, r: int) {
    r <= xc && xc + r < w && r <= yc && yc + r < h
  }

  /** When the whole circle lies within the image, every pixel that is touched lies between the circles of
      radius r - 2 and r + 1/2 around the centre, and nothing is written outside the image. */
  lemma TouchedNearCircle(w: nat, h: nat, xc: int, yc: int, r: int, i: int) returns (a: int, b: int)
    requires r >= 1 && Fits(w, h, xc, yc, r)
    requires i in AllMirrored(w, xc, yc, Points(r))
    ensures 0 <= xc + a < w && 0 <= yc + b < h && i == Number(w, xc + a, yc + b) && 0 <= i < w * h
    ensures (r - 2) * (r - 2) <= a * a + b * b <= r * r + r + 1
  {
    var k := MirroredOf(w, xc, yc, Points(r), i);
    var p := Points(r)[k];
    PointsNearCircle(r, p);
    a, b := OffsetOf(w, xc, yc, p.0, p.1, i);
    SameSquares(p.0, p.1, a, b);
    AtInBounds(w, h, xc + a, yc + b);
  }

  // ---------- exactly when the marker writes inside its buffer ----------

  /** The decision variable after k steps along the first row. */
  function Decision(r: int, k: int): int { 3 - 2 * r + 2 * k * k + 8 * k }

  lemma DecisionStep(r: int, k: int)
    ensures Decision(r, k + 1) == Decision(r, k) + 4 * (k + 1) + 6
  {
  }

  /** The column after which the octant leaves its first row: the first one from `k` on with a positive
      decision variable. */
  function Flat(r: nat, k: nat): (t: nat)
    ensures t >= k && Decision(r, t) > 0
    decreases r - k
  {
    if Decision(r, k) > 0 then k else Flat(r, k + 1)
  }

  lemma {:induction false} OctantDescends(x: int, y: int, d: int)
    ensures forall p :: p in Octant(x, y, d) ==> p.1 <= y
    decreases if y >= x then y - x + 1 else 0
  {
    if y >= x {
      var (x', y', d') := Next(x, y, d);
      OctantDescends(x', y', d');
    }
  }

  /** The first row holds the columns up to `Flat`, and no others. */
  lemma {:induction false} FirstRow(r: nat, k: nat)
    requires k <= r
    ensures var ps := Octant(k, r, Decision(r, k));
            (Flat(r, k), r) in ps && forall p :: p in ps && p.1 == r ==> p.0 <= Flat(r, k)
    decreases r - k
  {
    var d := Decision(r, k);
    var (x', y', d') := Next(k, r, d);
    var rest := Octant(x', y', d');
    assert Octant(k, r, d) == [(k, r)] + rest;
    if d > 0 {
      hide Octant, Decision;
      OctantDescends(x', y', d');
    } else {
      assert k < r;
      DecisionStep(r, k);
      hide Octant, Decision;
      FirstRow(r, k + 1);
      assert (Flat(r, k + 1), r) in rest;
    }
  }

  /** How far from the centre a circle reaches, and how far to the side it does so. */
  function Reach(r: int): nat { if r > 0 then r else if r == 0 then 1 else -r }

  function Overhang(r: int): nat { if r > 0 then Flat(r, 0) else if r == 0 then 1 else 0 }

  /** The rows fit. If the outermost row is the first or the last one of the image, it may not stick out there. */
  predicate InBuffer(w: nat, h: nat, xc: int, yc: int, r: int) {
    && Reach(r) <= yc && yc + Reach(r) < h
    && (yc == Reach(r) ==> Overhang(r) <= xc)
    && (yc + Reach(r) == h - 1 ==> xc + Overhang(r) < w)
  }

  /** Where a mirrored point can lie relative to the centre. */
  predicate Offset(r: int, a: int, b: int) {
    var reach: int := Reach(r);
    var over: int := Overhang(r);
    && -reach <= a <= reach && -reach <= b <= reach
    && (b == reach || b == -reach ==> -over <= a <= over)
    && (r < 0 ==> a == 0 || b == 0)
  }

  lemma SmallCircles()
    ensures Points(1) == [(0, 1), (1, 0)]
    ensures Points(2) == [(0, 2), (1, 2), (2, 1)]
    ensures Points(3) == [(0, 3), (1, 3), (2, 2), (3, 1)]
    ensures Points(4) == [(0, 4), (1, 4), (2, 3), (3, 2)]
  {
    assert Octant(1, 0, 15) == [(1, 0)];
    assert Octant(1, 2, 9) == [(1, 2)] + Octant(2, 1, 23);
    assert Octant(2, 1, 23) == [(2, 1)];
    assert Octant(2, 2, 17) == [(2, 2)] + Octant(3, 1, 35);
    assert Octant(3, 1, 35) == [(3, 1)];
    assert Octant(2, 3, 11) == [(2, 3)] + Octant(3, 2, 25);
    assert Octant(3, 2, 25) == [(3, 2)];
  }

  lemma {:induction false} OctantStaysAbove(x: int, y: int, d: int)
    requires 0 <= x && x - 2 <= y
    ensures forall p :: p in Octant(x, y, d) ==> p.0 - 2 <= p.1 && -2 <= p.1
    decreases if y >= x then y - x + 1 else 0
  {
    if y >= x {
      var (x', y', d') := Next(x, y, d);
      OctantStaysAbove(x', y', d');
    }
  }

  lemma SquareBeyond(r: int, y: int)
    requires r > 4 && y >= r - 2
    ensures y * y > r + 1
  {
    MulMonotone(3, y, y);
  }

  lemma SmallCircle(r: int, p: (int, int))
    requires 0 < r <= 4 && p in Points(r)
    ensures 0 <= p.1 && (p.0 == r ==> p.1 == if r == 1 then 0 else 1)
  {
    SmallCircles();
    hide Points, Octant;
  }

  lemma FirstRowOfPoints(r: nat)
    ensures (Flat(r, 0), r) in Points(r) && forall p :: p in Points(r) && p.1 == r ==> p.0 <= Flat(r, 0)
    ensures r >= 2 ==> Flat(r, 0) >= 1
  {
    hide Octant;
    FirstRow(r, 0);
    assert Decision(r, 0) == 3 - 2 * r;
  }

  /** A circle reaches its radius only with its first row and, if it is small, with its last point. */
  lemma OutermostPoints(r: int, p: (int, int))
    requires r > 0 && p in Points(r)
    ensures 0 <= p.0 <= r && -r < p.1 <= r
    ensures p.1 == r ==> p.0 <= Flat(r, 0)
    ensures p.0 == r ==> 0 <= p.1 <= Flat(r, 0)
  {
    OctantStaysAbove(0, r, 3 - 2 * r);
    PointsNearCircle(r, p);
    FirstRowOfPoints(r);
    assert p.0 - 2 <= p.1 && -2 <= p.1;
    hide Points, Octant, Flat;
    if r <= 4 {
      SmallCircle(r, p);
    } else if p.0 == r {
      SquareBeyond(r, p.1);
      assert false;
    }
  }

  /** Whichever way a point is mirrored. */
  lemma PointsAreOffsets(r: int, p: (int, int))
    requires p in Points(r)
    ensures forall a, b :: SameUpToMirror(p.0, p.1, a, b) ==> Offset(r, a, b)
  {
    if r > 0 {
      OutermostPoints(r, p);
      hide Points, Octant, Flat, Decision;
    } else {
      NearCircleExactly(r);
      RadiusZero();
      hide Octant, Flat;
    }
  }

  /** An index given by a row and a column of at most a width to the left or right of it. */
  lemma IndexInBuffer(w: nat, h: nat, row: int, col: int)
    requires 0 <= row < h && 0 <= w + col && col < 2 * w && (row == 0 ==> col >= 0) && (row == h - 1 ==> col < w)
    ensures 0 <= Number(w, col, row) < w * h
  {
    MulMonotone(1, row, w);
    MulMonotone(row, h - 2, w);
    assert (h - 2) * w == h * w - 2 * w && (h - 1) * w == h * w - w;
  }

  lemma SidewaysInBuffer(w: nat, h: nat, xc: int, yc: int, a: int)
    requires 0 <= xc < w && -yc <= a <= yc && yc + a < h && yc - a < h
    ensures 0 <= Number(w, xc + a, yc) < w * h
  {
    var below := h - 1 - yc;
    assert (w - 1) * yc >= 0 && (w - 1) * below >= 0;
    assert below * w == h * w - w - yc * w;
  }

  lemma OffsetInBuffer(w: nat, h: nat, xc: int, yc: int, r: int, a: int, b: int)
    requires 0 <= xc < w && r <= w && InBuffer(w, h, xc, yc, r) && Offset(r, a, b)
    ensures 0 <= Number(w, xc + a, yc + b) < w * h
  {
    hide Flat, Number;
    if r < 0 && b == 0 {
      SidewaysInBuffer(w, h, xc, yc, a);
    } else {
      IndexInBuffer(w, h, yc + b, xc + a);
    }
  }

  lemma {:induction false} MirroredListed(w: int, xc: int, yc: int, ps: seq<(int, int)>, p: (int, int), i: int)
    requires p in ps && i in Mirrored(w, xc, yc, p.0, p.1)
    ensures i in AllMirrored(w, xc, yc, ps)
  {
    hide Mirrored;
    if ps[0] != p {
      assert p in ps[1..];
      MirroredListed(w, xc, yc, ps[1..], p, i);
    }
  }

  lemma FourListed(w: int, xc: int, yc: int, ps: seq<(int, int)>, p: (int, int))
    requires p in ps
    ensures var all := AllMirrored(w, xc, yc, ps);
            && Number(w, xc + p.0, yc + p.1) in all && Number(w, xc - p.0, yc + p.1) in all
            && Number(w, xc + p.0, yc - p.1) in all && Number(w, xc - p.0, yc - p.1) in all
  {
    var four := FourWays(w, xc, yc, p.0, p.1);
    hide Number, AllMirrored;
    assert four[0] in four && four[1] in four && four[2] in four && four[3] in four;
    forall i | i in four
      ensures i in AllMirrored(w, xc, yc, ps)
    {
      MirroredListed(w, xc, yc, ps, p, i);
    }
  }

  /** The two outermost corners are plotted. */
  lemma OutermostPlotted(w: int, xc: int, yc: int, r: int)
    ensures var all := AllMirrored(w, xc, yc, Points(r));
            && Number(w, xc - Overhang(r), yc - Reach(r)) in all
            && Number(w, xc + Overhang(r), yc + Reach(r)) in all
  {
    hide AllMirrored, Number, Octant, Flat;
    if r > 0 {
      FirstRowOfPoints(r);
      hide Points;
      FourListed(w, xc, yc, Points(r), (Flat(r, 0), r));
    } else if r == 0 {
      RadiusZero();
      FourListed(w, xc, yc, Points(r), (1, -1));
    } else {
      NearCircleExactly(r);
      FourListed(w, xc, yc, Points(r), (0, r));
    }
  }

  /** For a centre in the image and a radius no larger than its width, whether or not the circle fits: all
      writes stay in the buffer if and only if its rows do and its outermost ones do not stick out. */
  lemma InBufferExactly(w: nat, h: nat, xc: int, yc: int, r: int)
    requires 0 <= xc < w && r <= w
    ensures InImage(AllMirrored(w, xc, yc, Points(r)), w, h) <==> InBuffer(w, h, xc, yc, r)
  {
    var all := AllMirrored(w, xc, yc, Points(r));
    if InBuffer(w, h, xc, yc, r) {
      hide InBuffer, Points, AllMirrored, Number;
      forall i | i in all
        ensures 0 <= i < w * h
      {
        var k := MirroredOf(w, xc, yc, Points(r), i);
        var p := Points(r)[k];
        var a, b := OffsetOf(w, xc, yc, p.0, p.1, i);
        PointsAreOffsets(r, p);
        OffsetInBuffer(w, h, xc, yc, r, a, b);
      }
    } else if InImage(all, w, h) {
      OutermostPlotted(w, xc, yc, r);
      hide Points, AllMirrored, Flat;
      RowsInBuffer(w, h, xc, yc, Overhang(r), Reach(r));
      assert false;
    }
  }

  lemma RowsInBuffer(w: nat, h: nat, xc: int, yc: int, over: nat, reach: nat)
    requires 0 <= xc < w
    requires 0 <= Number(w, xc - over, yc - reach) && Number(w, xc + over, yc + reach) < w * h
    ensures reach <= yc && yc + reach < h
    ensures yc == reach ==> over <= xc
    ensures yc + reach == h - 1 ==> xc + over < w
  {
    if yc < reach {
      MulMonotone(yc - reach, -1, w);
    }
    if yc + reach >= h {
      MulMonotone(h, yc + reach, w);
    }
    assert (h - 1) * w == h * w - w;
  }

  /** A circle between the left and right edges writes inside the buffer exactly when it fits the image. */
  lemma CircleFits(w: nat, h: nat, xc: int, yc: int, r: int)
    requires r >= 1 && r <= xc && xc + r < w
    ensures InImage(AllMirrored(w, xc, yc, Points(r)), w, h) <==> Fits(w, h, xc, yc, r)
  {
    InBufferExactly(w, h, xc, yc, r);
    FirstRowOfPoints(r);
    PointsNearCircle(r, (Flat(r, 0), r));
  }

  // ---------- the centre and the radius the marker chooses ----------

  function Sum(s: seq<nat>): nat {
    if s == [] then 0 else s[0] + Sum(s[1..])
  }

  function Mean(s: seq<nat>): nat
    requires s != []
  {
    Sum(s) / |s|
  }

  function Deviations(s: seq<nat>, c: nat): (r: seq<nat>)
    ensures |r| == |s|
  {
    seq(|s|, i requires 0 <= i < |s| => if s[i] >= c then s[i] - c else c - s[i])
  }

  /** The centre and the radius of the circle number `d`, from the coordinates of the changed pixels. */
  function Marker(xs: seq<nat>, ys: seq<nat>, d: nat): (int, int, int)
    requires xs != [] && ys != []
  {
    var (xc, yc) := (Mean(xs), Mean(ys));
    var (xdist, ydist) := (Mean(Deviations(xs, xc)), Mean(Deviations(ys, yc)));
    (xc, yc, (if xdist <= ydist then xdist else ydist) - d)
  }

  lemma {:induction false} SumBound(s: seq<nat>, m: nat)
    requires forall k :: 0 <= k < |s| ==> s[k] <= m
    ensures Sum(s) <= |s| * m
  {
    if s != [] {
      SumBound(s[1..], m);
    }
  }

  lemma MeanBound(s: seq<nat>, m: nat)
    requires s != [] && forall k :: 0 <= k < |s| ==> s[k] <= m
    ensures Mean(s) <= m
  {
    SumBound(s, m);
    if Mean(s) > m {
      MulMonotone(m + 1, Mean(s), |s|);
      assert false;
    }
  }

  lemma MarkerInImage(xs: seq<nat>, ys: seq<nat>, w: nat, h: nat, d: nat)
    requires xs != [] && ys != []
    requires (forall k :: 0 <= k < |xs| ==> xs[k] < w) && forall k :: 0 <= k < |ys| ==> ys[k] < h
    ensures var (xc, yc, r) := Marker(xs, ys, d); 0 <= xc < w && 0 <= yc < h && r < w && r < h
  {
    assert xs[0] < w && ys[0] < h;
    MeanBound(xs, w - 1);
    MeanBound(ys, h - 1);
    MeanBound(Deviations(xs, Mean(xs)), w - 1);
    MeanBound(Deviations(ys, Mean(ys)), h - 1);
  }

  /** For every set of changed pixels, the circles of the marker write inside the buffer if and only if this
      test on their centre and radius holds. */
  lemma MarkerInBufferExactly(xs: seq<nat>, ys: seq<nat>, w: nat, h: nat, d: nat)
    requires xs != [] && ys != []
    requires (forall k :: 0 <= k < |xs| ==> xs[k] < w) && forall k :: 0 <= k < |ys| ==> ys[k] < h
    ensures var (xc, yc, r) := Marker(xs, ys, d);
            InImage(AllMirrored(w, xc, yc, Points(r)), w, h) <==> InBuffer(w, h, xc, yc, r)
  {
    MarkerInImage(xs, ys, w, h, d);
    hide Marker, InBuffer, InImage, AllMirrored, Points;
    var (xc, yc, r) := Marker(xs, ys, d);
    InBufferExactly(w, h, xc, yc, r);
  }

  /** The marker does leave its buffer: three changed pixels in one corner and one in the other. */
  lemma MarkerLeavesBuffer()
    ensures var (xc, yc, r) := Marker([0, 1, 0, 100], [0, 0, 1, 100], 0);
            (xc, yc, r) == (25, 25, 37) && !InImage(AllMirrored(101, xc, yc, Points(r)), 101, 101)
  {
    hide InImage, AllMirrored, Points, Flat, Sum;
    SumOfFour([0, 1, 0, 100]);
    SumOfFour([0, 0, 1, 100]);
    assert Deviations([0, 1, 0, 100], 25) == [25, 24, 25, 75];
    assert Deviations([0, 0, 1, 100], 25) == [25, 25, 24, 75];
    SumOfFour([25, 24, 25, 75]);
    SumOfFour([25, 25, 24, 75]);
    InBufferExactly(101, 101, 25, 25, 37);
  }

  lemma SumOfFour(s: seq<nat>)
    requires |s| == 4
    ensures Sum(s) == s[0] + s[1] + s[2] + s[3]
  {
    assert Sum(s[3..]) == s[3] by { assert s[3..][1..] == []; }
    assert s[1..][1..] == s[2..] && s[2..][1..] == s[3..];
  }

  /** Pixels away from the circle keep their value. */
  lemma ElsewhereUnchanged(m: Mode, after: seq<Byte>, before: seq<Byte>, w: nat, h: nat, xc: int, yc: int, r: int,
      x: nat, y: nat)
    requires r >= 1 && Fits(w, h, xc, yc, r) && |before| == 3 * (w * h) && x < w && y < h
    requires IsPainted(m, after, before, AllMirrored(w, xc, yc, Points(r)))
    requires var d2 := (x - xc) * (x - xc) + (y - yc) * (y - yc); d2 < (r - 2) * (r - 2) || r * r + r + 1 < d2
    ensures At(w, x, y) < w * h && PixelAt(after, At(w, x, y)) == PixelAt(before, At(w, x, y))
  {
    var all, i := AllMirrored(w, xc, yc, Points(r)), At(w, x, y);
    AtInBounds(w, h, x, y);
    if i in all {
      var a, b := TouchedNearCircle(w, h, xc, yc, r, i);
      AtInjective(w, x, y, xc + a, yc + b);
      assert false;
    }
    TimesListed(all, i);
  }

  /** In colour mode a listed pixel gets the colour and in red mode full red, however often it is listed; the
      inverting modes invert all channels or the red one of the pixels that are listed an odd number of times
      and restore the others. */
  lemma {:induction false} RepeatedPainting(m: Mode, p: Rgb, n: nat)
    ensures n == 0 ==> PaintedTimes(m, p, n) == p
    ensures m.Color? && n > 0 ==> PaintedTimes(m, p, n) == Rgb(m.r, m.g, m.b)
    ensures m.Red? && n > 0 ==> PaintedTimes(m, p, n) == Rgb(255, p.g, p.b)
    ensures m.RedInvert? ==> PaintedTimes(m, p, n) == if n % 2 == 0 then p else Rgb(255 - p.r, p.g, p.b)
    ensures m.Invert? ==> PaintedTimes(m, p, n) == if n % 2 == 0 then p else Rgb(255 - p.r, 255 - p.g, 255 - p.b)
    decreases n
  {
    if n > 0 {
      RepeatedPainting(m, Painted(m, p), n - 1);
    }
  }

  // ---------- symmetry, and the gaps of an inverted circle ----------

  /** Each octant point is plotted in exactly its eight mirror images. */
  lemma EightWays(w: int, xc: int, yc: int, x: int, y: int, i: int)
    ensures |Mirrored(w, xc, yc, x, y)| == 8
    ensures i in Mirrored(w, xc, yc, x, y) <==>
            exists a, b :: SameUpToMirror(x, y, a, b) && i == Number(w, xc + a, yc + b)
  {
    if i in Mirrored(w, xc, yc, x, y) {
      var a, b := OffsetOf(w, xc, yc, x, y, i);
    }
    if a, b :| SameUpToMirror(x, y, a, b) && i == Number(w, xc + a, yc + b) {
      MirrorsListed(w, xc, yc, x, y, a, b);
    }
  }

  lemma MirrorsListed(w: int, xc: int, yc: int, x: int, y: int, a: int, b: int)
    requires SameUpToMirror(x, y, a, b)
    ensures Number(w, xc + a, yc + b) in Mirrored(w, xc, yc, x, y)
  {
    var s, t := FourWays(w, xc, yc, x, y), FourWays(w, xc, yc, y, x);
    hide Number;
    var i := Number(w, xc + a, yc + b);
    assert forall j :: j in s || j in t ==> j in s + t;
    if (a == x || a == -x) && (b == y || b == -y) {
      assert i == s[0] || i == s[1] || i == s[2] || i == s[3];
      assert i in s;
    } else {
      assert i == t[0] || i == t[1] || i == t[2] || i == t[3];
      assert i in t;
    }
  }

  function Same(a: int, b: int, a': int, b': int): nat { if a == a' && b == b' then 1 else 0 }

  /** How many of four mirror images have offset (a, b). */
  function FourOffsets(x: int, y: int, a: int, b: int): nat {
    Same(x, y, a, b) + Same(-x, y, a, b) + Same(x, -y, a, b) + Same(-x, -y, a, b)
  }

  predicate OnAxis(a: int, b: int) { a == 0 || b == 0 || a == b || a == -b }

  lemma AxisTwice(x: int, y: int, a: int, b: int)
    requires OnAxis(a, b)
    ensures (FourOffsets(x, y, a, b) + FourOffsets(y, x, a, b)) % 2 == 0
  {
  }

  lemma TimesFour(s: seq<int>, i: int)
    requires |s| == 4
    ensures Times(s, i) == (if s[0] == i then 1 else 0) + (if s[1] == i then 1 else 0)
                         + (if s[2] == i then 1 else 0) + (if s[3] == i then 1 else 0)
  {
    assert s[1..][1..] == s[2..] && s[2..][1..] == s[3..] && s[3..][1..] == [];
    assert Times(s[3..], i) == if s[3] == i then 1 else 0;
    assert Times(s[2..], i) == (if s[2] == i then 1 else 0) + Times(s[3..], i);
    assert Times(s[1..], i) == (if s[1] == i then 1 else 0) + Times(s[2..], i);
  }

  lemma SameNumber(w: nat, h: nat, xc: int, yc: int, x: int, y: int, a: int, b: int)
    requires 0 <= xc + x < w && 0 <= yc + y < h && 0 <= xc + a < w && 0 <= yc + b < h
    ensures Number(w, xc + x, yc + y) == Number(w, xc + a, yc + b) <==> x == a && y == b
  {
    if Number(w, xc + x, yc + y) == Number(w, xc + a, yc + b) {
      AtInjective(w, xc + x, yc + y, xc + a, yc + b);
    }
  }

  lemma TimesFourWays(w: nat, h: nat, xc: int, yc: int, r: int, x: int, y: int, a: int, b: int)
    requires Fits(w, h, xc, yc, r) && -r <= x <= r && -r <= y <= r && -r <= a <= r && -r <= b <= r
    ensures Times(FourWays(w, xc, yc, x, y), Number(w, xc + a, yc + b)) == FourOffsets(x, y, a, b)
  {
    hide Number, Times;
    TimesFour(FourWays(w, xc, yc, x, y), Number(w, xc + a, yc + b));
    SameNumber(w, h, xc, yc, x, y, a, b);
    SameNumber(w, h, xc, yc, -x, y, a, b);
    SameNumber(w, h, xc, yc, x, -y, a, b);
    SameNumber(w, h, xc, yc, -x, -y, a, b);
  }

  lemma {:induction false} AxesListedEvenly(w: nat, h: nat, xc: int, yc: int, r: int, ps: seq<(int, int)>, a: int,
      b: int)
    requires Fits(w, h, xc, yc, r) && -r <= a <= r && -r <= b <= r && OnAxis(a, b)
    requires forall p :: p in ps ==> -r <= p.0 <= r && -r <= p.1 <= r
    ensures Times(AllMirrored(w, xc, yc, ps), Number(w, xc + a, yc + b)) % 2 == 0
  {
    hide Number, FourOffsets, OnAxis;
    if ps != [] {
      var p, i := ps[0], Number(w, xc + a, yc + b);
      AxesListedEvenly(w, h, xc, yc, r, ps[1..], a, b);
      TimesFourWays(w, h, xc, yc, r, p.0, p.1, a, b);
      TimesFourWays(w, h, xc, yc, r, p.1, p.0, a, b);
      AxisTwice(p.0, p.1, a, b);
      hide Times, FourWays;
      TimesAppend(FourWays(w, xc, yc, p.0, p.1), FourWays(w, xc, yc, p.1, p.0), i);
      TimesAppend(Mirrored(w, xc, yc, p.0, p.1), AllMirrored(w, xc, yc, ps[1..]), i);
    }
  }

  /** A pixel straight above, below, beside or diagonal to the centre is painted an even number of times, so an
      inverting marker leaves it as it was: an inverted circle has gaps there. */
  lemma InvertedCircleHasGaps(m: Mode, after: seq<Byte>, before: seq<Byte>, w: nat, h: nat, xc: int, yc: int, r: int,
      a: int, b: int)
    requires r >= 1 && Fits(w, h, xc, yc, r) && |before| == 3 * (w * h) && (m.Invert? || m.RedInvert?)
    requires IsPainted(m, after, before, AllMirrored(w, xc, yc, Points(r)))
    requires -r <= a <= r && -r <= b <= r && OnAxis(a, b)
    ensures At(w, xc + a, yc + b) < w * h
    ensures PixelAt(after, At(w, xc + a, yc + b)) == PixelAt(before, At(w, xc + a, yc + b))
  {
    var all, i := AllMirrored(w, xc, yc, Points(r)), At(w, xc + a, yc + b);
    AtInBounds(w, h, xc + a, yc + b);
    forall p | p in Points(r)
      ensures -r <= p.0 <= r && -r <= p.1 <= r
    {
      PointsNearCircle(r, p);
    }
    assert i == Number(w, xc + a, yc + b);
    AxesListedEvenly(w, h, xc, yc, r, Points(r), a, b);
    RepeatedPainting(m, PixelAt(before, i), Times(all, i));
  }
}
