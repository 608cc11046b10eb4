/** Where a picture goes inside another one (src/pos.cpp) and how it gets there: by clipped row copies
    (`picture_in_picture`, src/resize.cpp) or pixel by pixel (`blit`, src/filter_scroll.cpp). */
module Placement {

  import opened Pixels

  // ---------- anchors ----------

  datatype Position =
    | Nowhere
    | UpperLeft | UpperCenter | UpperRight
    | CenterLeft | CenterCenter | CenterRight
    | LowerLeft | LowerCenter | LowerRight
    | Wrapped(x: int, y: int)   // "xy"
    | Absolute(x: int, y: int)  // "axy"

  datatype Alignment = Near | Middle | Far

  function Align(a: Alignment, size: nat, target: nat): int {
    var half, quarter := size / 2, target / 4;
    match a
    case Near => quarter - half * 3 / 2
    case Middle => quarter * 2 - half
    case Far => quarter * 3 - half * 2 / 3
  }

  function Column(p: Position): Alignment {
    match p
    case UpperLeft | CenterLeft | LowerLeft => Near
    case UpperRight | CenterRight | LowerRight => Far
    case _ => Middle
  }

  function Row(p: Position): Alignment {
    match p
    case UpperLeft | UpperCenter | UpperRight => Near
    case LowerLeft | LowerCenter | LowerRight => Far
    case _ => Middle
  }

  predicate Named(p: Position) {
    !p.Nowhere? && !p.Wrapped? && !p.Absolute?
  }

  /** Where the upper left corner goes; wrapped coordinates are taken modulo the target size. */
  function Corner(p: Position, win: nat, hin: nat, tgtW: nat, tgtH: nat): (int, int)
    requires p.Wrapped? ==> tgtW > 0 && tgtH > 0
  {
    match p
    case Nowhere => (0, 0)
    case Wrapped(x, y) => (x % tgtW, y % tgtH)
    case Absolute(x, y) => (x, y)
    case _ => (Align(Column(p), win, tgtW), Align(Row(p), hin, tgtH))
  }

  lemma MulAtLeast(k: int, w: int)
    requires w > 0 && k >= 1
    ensures k * w >= w
  {
  }

  /** The remainder is the only number below `w` that differs from `x` by a multiple of `w`. */
  lemma RemainderUnique(x: int, k: int, r: int, w: int)
    requires w > 0 && 0 <= r < w && r == x + k * w
    ensures r == x % w
  {
    var d := k + x / w;
    assert x == x / w * w + x % w;
    assert d * w == r - x % w;
    if d >= 1 {
      MulAtLeast(d, w);
    } else if d <= -1 {
      MulAtLeast(-d, w);
    }
  }

  /** The two wrap loops of one coordinate. Without a positive size they would not terminate. */
  method Wrap(x: int, size: nat) returns (r: int)
    requires size > 0
    ensures r == x % size
  {
    r := x;
    ghost var k := 0;
    while r < 0
      invariant r == x + k * size
      decreases -r
    {
      r, k := r + size, k + 1;
    }
    while r >= size
      invariant 0 <= r == x + k * size
    {
      r, k := r - size, k - 1;
    }
    RemainderUnique(x, k, r, size);
  }

  method PosToXy(p: Position, win: nat, hin: nat, tgtW: nat, tgtH: nat) returns (tx: int, ty: int)
    requires p.Wrapped? ==> tgtW > 0 && tgtH > 0
    ensures (tx, ty) == Corner(p, win, hin, tgtW, tgtH)
  {
    var hwin, hhin := win / 2, hin / 2;
    var qw, qh := tgtW / 4, tgtH / 4;
    tx, ty := 0, 0;
    match p
    case Nowhere =>
    case UpperLeft => tx, ty := qw - hwin * 3 / 2, qh - hhin * 3 / 2;
    case UpperCenter => tx, ty := qw * 2 - hwin, qh - hhin * 3 / 2;
    case UpperRight => tx, ty := qw * 3 - hwin * 2 / 3, qh - hhin * 3 / 2;
    case CenterLeft => tx, ty := qw - hwin * 3 / 2, qh * 2 - hhin;
    case CenterCenter => tx, ty := qw * 2 - hwin, qh * 2 - hhin;
    case CenterRight => tx, ty := qw * 3 - hwin * 2 / 3, qh * 2 - hhin;
    case LowerLeft => tx, ty := qw - hwin * 3 / 2, qh * 3 - hhin * 2 / 3;
    case LowerCenter => tx, ty := qw * 2 - hwin, qh * 3 - hhin * 2 / 3;
    case LowerRight => tx, ty := qw * 3 - hwin * 2 / 3, qh * 3 - hhin * 2 / 3;
    case Wrapped(x, y) =>
      tx := Wrap(x, tgtW);
      ty := Wrap(y, tgtH);
    case Absolute(x, y) => tx, ty := x, y;
  }

  lemma AlignBounds(a: Alignment, size: nat, target: nat)
    ensures 0 <= Align(a, size, target) + size
    ensures 3 * size <= target ==> 0 <= Align(a, size, target) && Align(a, size, target) + size <= target
    ensures a.Near? ==> -3 <= 4 * Align(a, size, target) + 3 * size - target <= 5
    ensures a.Middle? ==> -4 <= 2 * Align(a, size, target) + size - target <= 1
    ensures a.Far? ==> -27 <= 12 * Align(a, size, target) + 4 * size - 9 * target <= 12
  {
  }

  /** Up to rounding: the line at three quarters of the picture lies on the first quarter of the target, their
      middles coincide, the line at a third of the picture lies on the third quarter of the target. */
  predicate AtFirstQuarter(x: int, size: nat, target: nat) { -3 <= 4 * x + 3 * size - target <= 5 }

  predicate AtMiddle(x: int, size: nat, target: nat) { -4 <= 2 * x + size - target <= 1 }

  predicate AtLastQuarter(x: int, size: nat, target: nat) { -27 <= 12 * x + 4 * size - 9 * target <= 12 }

  /** Where each named anchor puts the picture. It is never entirely off the left or top edge; a picture of at
      most a third of the target lies entirely inside it. */
  lemma NamedAnchors(p: Position, win: nat, hin: nat, tgtW: nat, tgtH: nat)
    requires Named(p)
    ensures var (x, y) := Corner(p, win, hin, tgtW, tgtH);
            && 0 <= x + win && 0 <= y + hin
            && (3 * win <= tgtW ==> 0 <= x && x + win <= tgtW)
            && (3 * hin <= tgtH ==> 0 <= y && y + hin <= tgtH)
            && (p.UpperLeft? || p.CenterLeft? || p.LowerLeft? ==> AtFirstQuarter(x, win, tgtW))
            && (p.UpperCenter? || p.CenterCenter? || p.LowerCenter? ==> AtMiddle(x, win, tgtW))
            && (p.UpperRight? || p.CenterRight? || p.LowerRight? ==> AtLastQuarter(x, win, tgtW))
            && (p.UpperLeft? || p.UpperCenter? || p.UpperRight? ==> AtFirstQuarter(y, hin, tgtH))
            && (p.CenterLeft? || p.CenterCenter? || p.CenterRight? ==> AtMiddle(y, hin, tgtH))
            && (p.LowerLeft? || p.LowerCenter? || p.LowerRight? ==> AtLastQuarter(y, hin, tgtH))
  {
    AlignBounds(Column(p), win, tgtW);
    AlignBounds(Row(p), hin, tgtH);
    hide Align;
  }

  /** Wrapped coordinates lie in the target and differ from the given ones by whole target sizes; absolute ones
      are kept as they are. */
  lemma GivenCorners(x: int, y: int, win: nat, hin: nat, tgtW: nat, tgtH: nat)
    requires tgtW > 0 && tgtH > 0
    ensures var (cx, cy) := Corner(Wrapped(x, y), win, hin, tgtW, tgtH);
            && 0 <= cx < tgtW && 0 <= cy < tgtH
            && (exists k :: cx == x + k * tgtW) && (exists k :: cy == y + k * tgtH)
    ensures Corner(Absolute(x, y), win, hin, tgtW, tgtH) == (x, y)
  {
    assert x % tgtW == x + (-(x / tgtW)) * tgtW;
    assert y % tgtH == y + (-(y / tgtH)) * tgtH;
  }

  lemma AlignOrdered(size: nat, target: nat)
    ensures Align(Near, size, target) <= Align(Middle, size, target) <= Align(Far, size, target)
    ensures target >= 4 ==> Align(Near, size, target) < Align(Middle, size, target) < Align(Far, size, target)
  {
  }

  predicate InRow(a: Position, b: Position, c: Position, win: nat, hin: nat, tgtW: nat, tgtH: nat)
    requires Named(a) && Named(b) && Named(c)
  {
    var (p, q, r) := (Corner(a, win, hin, tgtW, tgtH), Corner(b, win, hin, tgtW, tgtH),
      Corner(c, win, hin, tgtW, tgtH));
    p.0 < q.0 < r.0 && p.1 == q.1 == r.1
  }

  predicate InColumn(a: Position, b: Position, c: Position, win: nat, hin: nat, tgtW: nat, tgtH: nat)
    requires Named(a) && Named(b) && Named(c)
  {
    var (p, q, r) := (Corner(a, win, hin, tgtW, tgtH), Corner(b, win, hin, tgtW, tgtH),
      Corner(c, win, hin, tgtW, tgtH));
    p.0 == q.0 == r.0 && p.1 < q.1 < r.1
  }

  /** The nine named anchors form a grid. */
  lemma AnchorsFormGrid(win: nat, hin: nat, tgtW: nat, tgtH: nat)
    requires tgtW >= 4 && tgtH >= 4
    ensures InRow(UpperLeft, UpperCenter, UpperRight, win, hin, tgtW, tgtH)
    ensures InRow(CenterLeft, CenterCenter, CenterRight, win, hin, tgtW, tgtH)
    ensures InRow(LowerLeft, LowerCenter, LowerRight, win, hin, tgtW, tgtH)
    ensures InColumn(UpperLeft, CenterLeft, LowerLeft, win, hin, tgtW, tgtH)
    ensures InColumn(UpperCenter, CenterCenter, LowerCenter, win, hin, tgtW, tgtH)
    ensures InColumn(UpperRight, CenterRight, LowerRight, win, hin, tgtW, tgtH)
  {
    hide Align;
    AlignOrdered(win, tgtW);
    AlignOrdered(hin, tgtH);
  }

  // ---------- pasting ----------

  /** `after` is `before` with the part of `input` from (offX, offY) on pasted with its corner at (x0, y0). */
  ghost predicate IsPaste(after: seq<Byte>, before: seq<Byte>, w: nat, h: nat,
                          input: seq<Byte>, inW: nat, inH: nat, x0: int, y0: int, offX: nat, offY: nat)
  {
    && |after| == |before| == 3 * (w * h) && |input| == 3 * (inW * inH)
    && forall x: nat, y: nat, c: nat {:trigger At3(w, x, y, c)} ::
         x < w && y < h && c < 3 && At3(w, x, y, c) < |after| ==>
           after[At3(w, x, y, c)] ==
           if offX <= x - x0 < inW && offY <= y - y0 < inH && At3(inW, x - x0, y - y0, c) < |input|
           then input[At3(inW, x - x0, y - y0, c)]
           else before[At3(w, x, y, c)]
  }

  lemma At3InBounds(w: nat, h: nat, x: nat, y: nat, c: nat)
    requires x < w && y < h && c < 3
    ensures At3(w, x, y, c) < 3 * (w * h)
  {
    AtInBounds(w, h, x, y);
  }

  /** Every byte of an image belongs to a pixel, so a paste determines the whole result. */
  lemma PasteUnique(a: seq<Byte>, b: seq<Byte>, before: seq<Byte>, w: nat, h: nat,
                    input: seq<Byte>, inW: nat, inH: nat, x0: int, y0: int, offX: nat, offY: nat)
    requires IsPaste(a, before, w, h, input, inW, inH, x0, y0, offX, offY)
    requires IsPaste(b, before, w, h, input, inW, inH, x0, y0, offX, offY)
    ensures a == b
  {
    forall i | 0 <= i < |a|
      ensures a[i] == b[i]
    {
      AtSurjective(w, h, i / 3);
      assert i == At3(w, (i / 3) % w, (i / 3) / w, i % 3);
    }
  }

  /** Every byte after a paste, by its index: inside the overlap that of the picture, elsewhere what was there. */
  lemma PastedByte(after: seq<Byte>, before: seq<Byte>, w: nat, h: nat,
                   input: seq<Byte>, inW: nat, inH: nat, x0: int, y0: int, offX: nat, offY: nat, x: nat, y: nat, c: nat)
    requires IsPaste(after, before, w, h, input, inW, inH, x0, y0, offX, offY) && x < w && y < h && c < 3
    ensures 3 * (y * w + x) + c < |after| == |before|
    ensures var (dx, dy) := (x - x0, y - y0);
            if offX <= dx < inW && offY <= dy < inH
            then 3 * (dy * inW + dx) + c < |input| && after[3 * (y * w + x) + c] == input[3 * (dy * inW + dx) + c]
            else after[3 * (y * w + x) + c] == before[3 * (y * w + x) + c]
  {
    At3InBounds(w, h, x, y, c);
    if offX <= x - x0 < inW && offY <= y - y0 < inH {
      At3InBounds(inW, inH, x - x0, y - y0, c);
    }
  }

  /** A picture of the size of the target replaces it. */
  lemma PasteWhole(after: seq<Byte>, before: seq<Byte>, w: nat, h: nat, input: seq<Byte>)
    requires IsPaste(after, before, w, h, input, w, h, 0, 0, 0, 0)
    ensures after == input
  {
    forall i | 0 <= i < |after|
      ensures after[i] == input[i]
    {
      AtSurjective(w, h, i / 3);
      assert i == At3(w, (i / 3) % w, (i / 3) / w, i % 3);
    }
  }

  /** The bytes of pixels x0..x0+n-1 of row `row` are one run of 3 * n bytes. */
  lemma RowRun(w: nat, x0: nat, n: nat, row: nat, x: nat, y: nat, c: nat)
    requires x0 + n <= w && x < w && c < 3
    ensures At3(w, x0, row, 0) <= At3(w, x, y, c) < At3(w, x0, row, 0) + 3 * n <==> y == row && x0 <= x < x0 + n
  {
    AtIncreases(w, x, y, x0, row);
    if y > row && n > 0 {
      AtIncreases(w, x0 + n - 1, row, x, y);
    }
  }

  /** Copy `n` pixels of an input row into a target row, as the program's `memcpy` does. */
  method CopyRow(tgt: array<Byte>, w: nat, h: nat, tx: nat, row: nat,
                 input: array<Byte>, inW: nat, inH: nat, sx: nat, sy: nat, n: nat)
    requires tgt != input && tgt.Length == 3 * (w * h) && input.Length == 3 * (inW * inH)
    requires tx + n <= w && row < h && sx + n <= inW && sy < inH
    modifies tgt
    ensures forall x: nat, y: nat, c: nat {:trigger At3(w, x, y, c)} ::
              x < w && y < h && c < 3 && At3(w, x, y, c) < tgt.Length ==>
                tgt[At3(w, x, y, c)] ==
                if y == row && tx <= x < tx + n && At3(inW, sx + x - tx, sy, c) < input.Length
                then input[At3(inW, sx + x - tx, sy, c)]
                else old(tgt[At3(w, x, y, c)])
  {
    var to, from := row * w * 3 + tx * 3, sy * inW * 3 + sx * 3;
    assert to == At3(w, tx, row, 0) && from == At3(inW, sx, sy, 0);
    RunsFit(w, h, tx, row, n);
    RunsFit(inW, inH, sx, sy, n);
    CopyBytes(tgt, to, input[from..from + 3 * n]);
    forall x: nat, y: nat, c: nat {:trigger At3(w, x, y, c)} |
      x < w && y < h && c < 3 && At3(w, x, y, c) < tgt.Length
      ensures tgt[At3(w, x, y, c)] ==
              if y == row && tx <= x < tx + n && At3(inW, sx + x - tx, sy, c) < input.Length
              then input[At3(inW, sx + x - tx, sy, c)]
              else old(tgt[At3(w, x, y, c)])
    {
      RowRun(w, tx, n, row, x, y, c);
      if y == row && tx <= x < tx + n {
        assert At3(inW, sx + x - tx, sy, c) == from + (At3(w, x, y, c) - to);
      }
    }
  }

  lemma RunsFit(w: nat, h: nat, x: nat, y: nat, n: nat)
    requires x + n <= w && y < h
    ensures At3(w, x, y, 0) + 3 * n <= 3 * (w * h)
  {
    if n > 0 {
      AtInBounds(w, h, x + n - 1, y);
    } else {
      MulMonotone(y + 1, h, w);
    }
  }

  predicate SomeRowVisible(y0: int, inH: nat, h: nat) {
    0 < inH && y0 < h && 0 < y0 + inH
  }

  /** `picture_in_picture`: clipped row copies. With a corner further left than the picture is wide, any
      visible row would ask `memcpy` for a negative number of bytes. */
  method PictureInPicture(tgt: array<Byte>, tgtW: nat, tgtH: nat, input: array<Byte>, win: nat, hin: nat, p: Position)
    requires tgt != input && tgt.Length == 3 * (tgtW * tgtH) && input.Length == 3 * (win * hin)
    requires p.Wrapped? ==> tgtW > 0 && tgtH > 0
    requires var (x0, y0) := Corner(p, win, hin, tgtW, tgtH);
             win > 0 && SomeRowVisible(y0, hin, tgtH) ==> 0 <= x0 + win
    modifies tgt
    ensures p.Nowhere? ==> tgt[..] == old(tgt[..])
    ensures !p.Nowhere? ==>
              var (x0, y0) := Corner(p, win, hin, tgtW, tgtH);
              IsPaste(tgt[..], old(tgt[..]), tgtW, tgtH, input[..], win, hin, x0, y0, 0, 0)
  {
    hide At3;
    var x0, y0 := PosToXy(p, win, hin, tgtW, tgtH);
    if !p.Nowhere? {
      var tx := x0;
      var width := if win <= tgtW - tx then win else tgtW - tx;
      if width > 0 {
        var xOffset := 0;
        if tx < 0 {
          xOffset := -tx;
          tx := 0;
        }
        PasteRows(tgt, tgtW, tgtH, input, win, hin, x0, y0, tx, xOffset, width - xOffset);
      }
    }
  }

  /** The row loop: `n` pixels of every input row that meets the target. */
  method PasteRows(tgt: array<Byte>, tgtW: nat, tgtH: nat, input: array<Byte>, win: nat, hin: nat,
                   ghost x0: int, y0: int, tx: nat, xOffset: nat, n: int)
    requires tgt != input && tgt.Length == 3 * (tgtW * tgtH) && input.Length == 3 * (win * hin)
    requires tx == x0 + xOffset && (xOffset == 0 || tx == 0)
    requires SomeRowVisible(y0, hin, tgtH) ==> 0 <= n
    requires tx + n <= tgtW && xOffset + n <= win && (tx + n == tgtW || xOffset + n == win)
    modifies tgt
    ensures IsPaste(tgt[..], old(tgt[..]), tgtW, tgtH, input[..], win, hin, x0, y0, 0, 0)
  {
    hide At3;
    var y := 0;
    while y < hin
      invariant 0 <= y <= hin
      invariant PastedRows(tgt[..], old(tgt[..]), tgtW, tgtH, input[..], win, hin, x0, y0, 0, 0, y)
    {
      var yo := y + y0;
      if yo >= tgtH {
        break;
      }
      if yo >= 0 {
        CopyRow(tgt, tgtW, tgtH, tx, yo, input, win, hin, xOffset, y, n);
      }
      y := y + 1;
    }
  }

  /** As IsPaste, with only the input rows before `row` pasted so far. */
  ghost predicate PastedRows(after: seq<Byte>, before: seq<Byte>, w: nat, h: nat,
                             input: seq<Byte>, inW: nat, inH: nat, x0: int, y0: int, offX: nat, offY: nat, row: nat)
  {
    && |after| == |before| == 3 * (w * h) && |input| == 3 * (inW * inH)
    && forall x: nat, y: nat, c: nat {:trigger At3(w, x, y, c)} ::
         x < w && y < h && c < 3 && At3(w, x, y, c) < |after| ==>
           after[At3(w, x, y, c)] ==
           if offX <= x - x0 < inW && offY <= y - y0 < inH && y - y0 < row && At3(inW, x - x0, y - y0, c) < |input|
           then input[At3(inW, x - x0, y - y0, c)]
           else before[At3(w, x, y, c)]
  }

  /** `blit`: the same picture from (offX, offY) on, pixel by pixel. */
  method Blit(out: array<Byte>, w: nat, h: nat, x0: int, y0: int, input: array<Byte>, inW: nat, inH: nat, offX: nat,
      offY: nat)
    requires out != input && out.Length == 3 * (w * h) && input.Length == 3 * (inW * inH)
    modifies out
    ensures IsPaste(out[..], old(out[..]), w, h, input[..], inW, inH, x0, y0, offX, offY)
  {
    var wy := offY;
    while wy < inH
      invariant offY <= wy
      invariant PastedRows(out[..], old(out[..]), w, h, input[..], inW, inH, x0, y0, offX, offY, wy)
    {
      var targetY := y0 + wy;
      if targetY >= h {
        break;
      }
      if targetY >= 0 {
        BlitRow(out, w, h, x0, targetY, input, inW, inH, offX, wy);
      }
      wy := wy + 1;
    }
  }

  method BlitRow(out: array<Byte>, w: nat, h: nat, x0: int, row: nat,
                 input: array<Byte>, inW: nat, inH: nat, offX: nat, wy: nat)
    requires out != input && out.Length == 3 * (w * h) && input.Length == 3 * (inW * inH)
    requires row < h && wy < inH
    modifies out
    ensures forall x: nat, y: nat, c: nat {:trigger At3(w, x, y, c)} ::
              x < w && y < h && c < 3 && At3(w, x, y, c) < out.Length ==>
                out[At3(w, x, y, c)] ==
                if y == row && offX <= x - x0 < inW && At3(inW, x - x0, wy, c) < input.Length
                then input[At3(inW, x - x0, wy, c)]
                else old(out[At3(w, x, y, c)])
  {
    var wx := offX;
    while wx < inW
      invariant offX <= wx
      invariant forall x: nat, y: nat, c: nat {:trigger At3(w, x, y, c)} ::
                  x < w && y < h && c < 3 && At3(w, x, y, c) < out.Length ==>
                    out[At3(w, x, y, c)] ==
                    if y == row && offX <= x - x0 < inW && x - x0 < wx && At3(inW, x - x0, wy, c) < input.Length
                    then input[At3(inW, x - x0, wy, c)]
                    else old(out[At3(w, x, y, c)])
    {
      var targetX := wx + x0;
      if targetX >= w {
        break;
      }
      if targetX >= 0 {
        var o, i := row * w * 3 + targetX * 3, wy * inW * 3 + wx * 3;
        assert o == At3(w, targetX, row, 0) && i == At3(inW, wx, wy, 0);
        AtInBounds(w, h, targetX, row);
        AtInBounds(inW, inH, wx, wy);
        AtUnique(w, targetX, row);
        out[o + 0] := input[i + 0];
        out[o + 1] := input[i + 1];
        out[o + 2] := input[i + 2];
      }
      wx := wx + 1;
    }
  }

  // ---------- when the row copies are defined ----------

  /** The number of pixels `picture_in_picture` asks to copy from each visible row. */
  function CopyCount(tx: int, win: nat, tgtW: nat): int {
    (if win <= tgtW - tx then win else tgtW - tx) - (if tx < 0 then -tx else 0)
  }

  /** Whenever there is something to copy, the count is a number of pixels exactly if the corner lies no
      further left than the picture is wide. Every position but `axy` guarantees that. */
  lemma CopyCountDefined(p: Position, win: nat, hin: nat, tgtW: nat, tgtH: nat)
    requires p.Wrapped? ==> tgtW > 0 && tgtH > 0
    ensures var tx := Corner(p, win, hin, tgtW, tgtH).0;
            && (0 < win && tx < tgtW ==> (CopyCount(tx, win, tgtW) >= 0 <==> 0 <= tx + win))
            && (!p.Absolute? ==> 0 <= tx + win)
  {
    if Named(p) {
      NamedAnchors(p, win, hin, tgtW, tgtH);
    }
  }

  lemma AbsoluteMayBeUndefined()
    ensures CopyCount(Corner(Absolute(-5, 0), 4, 4, 8, 8).0, 4, 8) == -1
  {
  }
}
