/** Conversion between RGB and YUYV frames (src/encoding.cpp): two pixels share one U and one V. */
module Encoding {

  import opened Pixels

  function Clamp(v: int): Byte { if v < 0 then 0 else if v > 255 then 255 else v }

  // ---------- one pixel; an arithmetic shift by 8 is division by 256 rounding down ----------

  function RawY(r: int, g: int, b: int): int { (66 * r + 129 * g + 25 * b + 128) / 256 + 16 }

  function RawU(r: int, g: int, b: int): int { (-38 * r - 74 * g + 112 * b + 128) / 256 + 128 }

  function RawV(r: int, g: int, b: int): int { (112 * r - 94 * g - 18 * b + 128) / 256 + 128 }

  function Luma(r: Byte, g: Byte, b: Byte): Byte { Clamp(RawY(r, g, b)) }

  function ChromaU(r: Byte, g: Byte, b: Byte): Byte { Clamp(RawU(r, g, b)) }

  function ChromaV(r: Byte, g: Byte, b: Byte): Byte { Clamp(RawV(r, g, b)) }

  function Mean(a: Byte, b: Byte): Byte { (a + b + 1) / 2 }

  function Red(y: Byte, v: Byte): Byte { Clamp((298 * (y - 16) + 409 * (v - 128) + 128) / 256) }

  function Green(y: Byte, u: Byte, v: Byte): Byte {
    Clamp((298 * (y - 16) - 100 * (u - 128) - 208 * (v - 128) + 128) / 256)
  }

  function Blue(y: Byte, u: Byte): Byte { Clamp((298 * (y - 16) + 516 * (u - 128) + 128) / 256) }

  /** The forward clamps never fire: the components stay in the studio range. */
  lemma StudioRange(r: Byte, g: Byte, b: Byte)
    ensures 16 <= RawY(r, g, b) <= 235 && 16 <= RawU(r, g, b) <= 240 && 16 <= RawV(r, g, b) <= 240
    ensures Luma(r, g, b) == RawY(r, g, b) && ChromaU(r, g, b) == RawU(r, g, b) && ChromaV(r, g, b) == RawV(r, g, b)
  {
  }

  predicate Within(a: int, b: int, d: int) { -d <= a - b <= d }

  lemma RedError(r: Byte, g: Byte, b: Byte)
    ensures Within(Red(Luma(r, g, b), ChromaV(r, g, b)), r, 2)
  {
    StudioRange(r, g, b);
  }

  lemma GreenError(r: Byte, g: Byte, b: Byte)
    ensures Within(Green(Luma(r, g, b), ChromaU(r, g, b), ChromaV(r, g, b)), g, 2)
  {
    StudioRange(r, g, b);
  }

  lemma BlueError(r: Byte, g: Byte, b: Byte)
    ensures Within(Blue(Luma(r, g, b), ChromaU(r, g, b)), b, 3)
  {
    StudioRange(r, g, b);
  }

  lemma Gray(v: Byte)
    ensures ChromaU(v, v, v) == 128 && ChromaV(v, v, v) == 128
    ensures var y := Luma(v, v, v); Red(y, 128) == Green(y, 128, 128) == Blue(y, 128) && Within(Red(y, 128), v, 1)
  {
  }

  lemma BoundsAreSharp()
    ensures Red(Luma(170, 195, 4), ChromaV(170, 195, 4)) == 168
    ensures Green(Luma(0, 184, 141), ChromaU(0, 184, 141), ChromaV(0, 184, 141)) == 182
    ensures Blue(Luma(0, 4, 230), ChromaU(0, 4, 230)) == 227
  {
  }

  // ---------- whole frames, as pairs of pixels ----------

  /** Bytes 4k..4k+3 encode pixels 2k and 2k+1. */
  predicate PairEncoded(yuv: seq<Byte>, rgb: seq<Byte>, k: nat) {
    && 4 * k + 3 < |yuv| && 6 * k + 5 < |rgb|
    && var (r1, g1, b1) := (rgb[6 * k], rgb[6 * k + 1], rgb[6 * k + 2]);
       var (r2, g2, b2) := (rgb[6 * k + 3], rgb[6 * k + 4], rgb[6 * k + 5]);
       && yuv[4 * k] == Luma(r1, g1, b1) && yuv[4 * k + 1] == Mean(ChromaU(r1, g1, b1), ChromaU(r2, g2, b2))
       && yuv[4 * k + 2] == Luma(r2, g2, b2) && yuv[4 * k + 3] == Mean(ChromaV(r1, g1, b1), ChromaV(r2, g2, b2))
  }

  predicate PairDecoded(rgb: seq<Byte>, yuv: seq<Byte>, k: nat) {
    && 4 * k + 3 < |yuv| && 6 * k + 5 < |rgb|
    && var (y0, u, y1, v) := (yuv[4 * k], yuv[4 * k + 1], yuv[4 * k + 2], yuv[4 * k + 3]);
       && rgb[6 * k] == Red(y0, v) && rgb[6 * k + 1] == Green(y0, u, v) && rgb[6 * k + 2] == Blue(y0, u)
       && rgb[6 * k + 3] == Red(y1, v) && rgb[6 * k + 4] == Green(y1, u, v) && rgb[6 * k + 5] == Blue(y1, u)
  }

  /** The bytes that the inner loop writes and reads from column `x` of a row on: four for every pair, and six. */
  function RowWrites(width: nat, x: nat): nat
    decreases width - x
  {
    if x < width then 4 + RowWrites(width, x + 2) else 0
  }

  function Writes(width: nat, height: nat): nat {
    if height == 0 then 0 else Writes(width, height - 1) + RowWrites(width, 0)
  }

  /** One past the last byte that the inner loop reads of row `y` when it starts at column `x`. */
  function RowReads(width: nat, y: nat, x: nat): nat
    requires x < width
    decreases width - x
  {
    if x + 2 < width then RowReads(width, y, x + 2) else y * width * 3 + x * 3 + 6
  }

  lemma {:induction false} RowWritesClosed(width: nat, x: nat)
    ensures RowWrites(width, x) == if x < width then 4 * ((width - x + 1) / 2) else 0
    decreases width - x
  {
    if x < width {
      RowWritesClosed(width, x + 2);
    }
  }

  lemma {:induction false} RowReadsClosed(width: nat, y: nat, x: nat)
    requires x < width
    ensures RowReads(width, y, x) == 3 * (y * width) + 3 * (width + (width - x) % 2)
    decreases width - x
  {
    if x + 2 < width {
      RowReadsClosed(width, y, x + 2);
    } else {
      assert y * width * 3 == 3 * (y * width);
    }
  }

  lemma OneRowMore(width: nat, height: nat)
    requires height > 0
    ensures width * 2 * height == width * 2 * (height - 1) + width * 2
  {
  }

  lemma {:induction false} WritesClosed(width: nat, height: nat)
    ensures Writes(width, height) == width * 2 * height + if width % 2 == 1 then 2 * height else 0
  {
    if height > 0 {
      hide RowWrites;
      WritesClosed(width, height - 1);
      RowWritesClosed(width, 0);
      assert RowWrites(width, 0) == width * 2 + if width % 2 == 1 then 2 else 0;
      OneRowMore(width, height);
    } else {
      assert width * 2 * height == 0;
    }
  }

  /** For odd widths, and for no others, the loops write more bytes than were allocated and read past the end
      of the input, the latter in its last row. */
  lemma OddWidthOverruns(width: nat, height: nat)
    ensures Writes(width, height) > width * 2 * height <==> width % 2 == 1 && height > 0
    ensures width > 0 && height > 0 ==> (RowReads(width, height - 1, 0) > 3 * (width * height) <==> width % 2 == 1)
  {
    hide Writes, RowReads;
    WritesClosed(width, height);
    if width > 0 && height > 0 {
      RowReadsClosed(width, height - 1, 0);
      assert (height - 1) * width == width * height - width;
    }
  }

  /** `rgb_to_yuy2`, for the sizes it is defined for. */
  method RgbToYuy2(input: array<Byte>, width: nat, height: nat) returns (out: array<Byte>)
    requires width % 2 == 0 || height == 0
    requires input.Length == 3 * (width * height)
    ensures fresh(out) && out.Length == 2 * (width * height)
    ensures forall k: nat :: 4 * k < out.Length ==> PairEncoded(out[..], input[..], k)
  {
    hide PairEncoded;
    out := new Byte[width * 2 * height];
    var outo := 0;
    var y := 0;
    while y < height
      invariant 0 <= y <= height && out.Length == 2 * (width * height)
      invariant outo == 2 * (y * width)
      invariant forall j: nat :: 4 * j < outo ==> PairEncoded(out[..], input[..], j)
    {
      MulMonotone(y + 1, height, width);
      assert (y + 1) * width == y * width + width;
      EvenProduct(y, width);
      outo := EncodeRow(input, width, y, out, outo, y * width);
      y := y + 1;
    }
  }

  /** The inner loop: one row of pairs, `start` pixels into the image. */
  method EncodeRow(input: array<Byte>, width: nat, y: nat, out: array<Byte>, from: nat, ghost start: nat)
      returns (outo: nat)
    requires width % 2 == 0 && input != out && start == y * width && from == 2 * start && start % 2 == 0
    requires 3 * (start + width) <= input.Length && 2 * (start + width) <= out.Length
    requires forall j: nat :: 4 * j < from ==> PairEncoded(out[..], input[..], j)
    modifies out
    ensures outo == from + 2 * width
    ensures forall j: nat :: 4 * j < outo ==> PairEncoded(out[..], input[..], j)
  {
    hide PairEncoded;
    outo := from;
    ghost var k, pairs := start / 2, width / 2;
    assert start == 2 * k && width == 2 * pairs;
    var x := 0;
    ghost var m := 0;
    while x < width
      invariant x == 2 * m && m <= pairs && start == 2 * (k - m) && outo == 4 * k
      invariant forall j: nat :: j < k ==> PairEncoded(out[..], input[..], j)
    {
      var o := y * width * 3 + x * 3;
      assert o == 6 * k;
      EncodePair(input, o, out, outo, k);
      outo := outo + 4;
      x := x + 2;
      k, m := k + 1, m + 1;
    }
  }

  lemma EvenProduct(y: nat, width: nat)
    requires width % 2 == 0
    ensures (y * width) % 2 == 0
  {
    assert y * width == 2 * (y * (width / 2));
  }

  /** The body of the inner loop: one pair. */
  method EncodePair(input: array<Byte>, o: nat, out: array<Byte>, outo: nat, ghost k: nat)
    requires o == 6 * k && o + 5 < input.Length && outo == 4 * k && outo + 3 < out.Length && input != out
    modifies out
    ensures PairEncoded(out[..], input[..], k)
    ensures forall j: nat :: j < k && PairEncoded(old(out[..]), input[..], j) ==> PairEncoded(out[..], input[..], j)
  {
    hide Luma, ChromaU, ChromaV, Mean;
    var r1, g1, b1 := input[o + 0], input[o + 1], input[o + 2];
    var r2, g2, b2 := input[o + 3], input[o + 4], input[o + 5];
    out[outo] := Luma(r1, g1, b1);
    out[outo + 1] := Mean(ChromaU(r1, g1, b1), ChromaU(r2, g2, b2));
    out[outo + 2] := Luma(r2, g2, b2);
    out[outo + 3] := Mean(ChromaV(r1, g1, b1), ChromaV(r2, g2, b2));
  }

  /** `yuy2_to_rgb`. */
  method Yuy2ToRgb(input: array<Byte>, width: nat, height: nat) returns (out: array<Byte>)
    requires input.Length >= 4 * (height * width / 2)
    ensures fresh(out) && out.Length == 3 * (width * height)
    ensures forall k: nat :: k < height * width / 2 ==> PairDecoded(out[..], input[..], k)
  {
    hide PairDecoded;
    var nPixels := width * height;
    out := new Byte[nPixels * 3];
    var n := height * width / 2;
    var inWork, outWork := 0, 0;
    for loop := 0 to n
      invariant out.Length == 3 * nPixels && 2 * n <= nPixels
      invariant inWork == 4 * loop && outWork == 6 * loop
      invariant forall k: nat :: k < loop ==> PairDecoded(out[..], input[..], k)
    {
      DecodePair(input, inWork, out, outWork, loop);
      inWork := inWork + 4;
      outWork := outWork + 6;
    }
  }

  method DecodePair(input: array<Byte>, i: nat, out: array<Byte>, o: nat, ghost k: nat)
    requires i == 4 * k && i + 3 < input.Length && o == 6 * k && o + 5 < out.Length && input != out
    modifies out
    ensures PairDecoded(out[..], input[..], k)
    ensures forall j: nat :: j < k && PairDecoded(old(out[..]), input[..], j) ==> PairDecoded(out[..], input[..], j)
  {
    hide Red, Green, Blue;
    var y0, u0, y1, v0 := input[i], input[i + 1], input[i + 2], input[i + 3];
    out[o] := Red(y0, v0);
    out[o + 1] := Green(y0, u0, v0);
    out[o + 2] := Blue(y0, u0);
    out[o + 3] := Red(y1, v0);
    out[o + 4] := Green(y1, u0, v0);
    out[o + 5] := Blue(y1, u0);
  }

  lemma PureRed()
    ensures Luma(255, 0, 0) == 82 && ChromaU(255, 0, 0) == 90 && ChromaV(255, 0, 0) == 240
  {
  }

  lemma PureGreen()
    ensures Luma(0, 255, 0) == 144 && ChromaU(0, 255, 0) == 54 && ChromaV(0, 255, 0) == 34
  {
  }

  lemma PureBlue()
    ensures Luma(0, 0, 255) == 41 && ChromaU(0, 0, 255) == 240 && ChromaV(0, 0, 255) == 110
  {
  }

  lemma BlackAndWhite()
    ensures Luma(0, 0, 0) == 16 && Luma(255, 255, 255) == 235
    ensures ChromaU(0, 0, 0) == ChromaV(0, 0, 0) == ChromaU(255, 255, 255) == ChromaV(255, 255, 255) == 128
  {
    Gray(0);
    Gray(255);
    hide ChromaU, ChromaV;
  }

  lemma MeanOfEqual(a: Byte)
    ensures Mean(a, a) == a
  {
  }

  lemma Decoded()
    ensures Red(82, 240) == 255 && Green(82, 90, 240) == 1 && Blue(82, 90) == 0
    ensures Red(16, 128) == 0 && Green(16, 128, 128) == 0 && Blue(16, 128) == 0
    ensures Red(235, 128) == 255 && Green(235, 128, 128) == 255 && Blue(235, 128) == 255
  {
  }

  /** Pairs of the primary colours have the byte order Y, U, Y, V and the values of ITU-R BT.601, and black and
      white come back exactly. */
  lemma Primaries(yuv: seq<Byte>, rgb: seq<Byte>)
    requires |yuv| == 4 && |rgb| == 6
    ensures PairEncoded(yuv, rgb, 0) ==>
              && (rgb == [255, 0, 0, 255, 0, 0] ==> yuv == [82, 90, 82, 240])
              && (rgb == [0, 255, 0, 0, 255, 0] ==> yuv == [144, 54, 144, 34])
              && (rgb == [0, 0, 255, 0, 0, 255] ==> yuv == [41, 240, 41, 110])
              && (rgb == [0, 0, 0, 255, 255, 255] ==> yuv == [16, 128, 235, 128])
    ensures PairDecoded(rgb, yuv, 0) ==>
              && (yuv == [82, 90, 82, 240] ==> rgb == [255, 1, 0, 255, 1, 0])
              && (yuv == [16, 128, 235, 128] ==> rgb == [0, 0, 0, 255, 255, 255])
  {
    hide Luma, ChromaU, ChromaV, Mean, Red, Green, Blue;
    PureRed();
    PureGreen();
    PureBlue();
    BlackAndWhite();
    Decoded();
    MeanOfEqual(90);
    MeanOfEqual(240);
    MeanOfEqual(54);
    MeanOfEqual(34);
    MeanOfEqual(110);
    MeanOfEqual(128);
  }

  // ---------- the error of a round trip ----------

  function Distance(a: int, b: int): nat { if a >= b then a - b else b - a }

  /** A chroma error of d moves red by at most 409 d / 256, green by 100 and 208, blue by 516 parts, rounded up. */
  lemma ChromaMoves(y: Byte, u: Byte, v: Byte, u': Byte, v': Byte)
    ensures Within(Red(y, v'), Red(y, v), (409 * Distance(v', v) + 255) / 256)
    ensures Within(Green(y, u', v'), Green(y, u, v), (100 * Distance(u', u) + 208 * Distance(v', v) + 255) / 256)
    ensures Within(Blue(y, u'), Blue(y, u), (516 * Distance(u', u) + 255) / 256)
  {
  }

  lemma MeanDistance(a: Byte, b: Byte)
    ensures Distance(Mean(a, b), a) <= (Distance(a, b) + 1) / 2 && Distance(Mean(a, b), b) <= (Distance(a, b) + 1) / 2
    ensures a == b ==> Mean(a, b) == a
  {
  }

  /** The pixel of `back` at byte `i` differs from that of `img` by at most these amounts. */
  predicate PixelWithin(back: seq<Byte>, img: seq<Byte>, i: nat, dr: int, dg: int, db: int) {
    && i + 2 < |img| && i + 2 < |back|
    && Within(back[i], img[i], dr) && Within(back[i + 1], img[i + 1], dg) && Within(back[i + 2], img[i + 2], db)
  }

  function PixelU(img: seq<Byte>, i: nat): Byte
    requires i + 2 < |img|
  {
    ChromaU(img[i], img[i + 1], img[i + 2])
  }

  function PixelV(img: seq<Byte>, i: nat): Byte
    requires i + 2 < |img|
  {
    ChromaV(img[i], img[i + 1], img[i + 2])
  }

  /** One pixel of a pair after encoding and decoding: what the rounding costs, plus what sharing chroma
      with its neighbour costs. */
  lemma PixelError(r: Byte, g: Byte, b: Byte, u: Byte, v: Byte, du: nat, dv: nat)
    requires Distance(u, ChromaU(r, g, b)) <= du && Distance(v, ChromaV(r, g, b)) <= dv
    ensures var y := Luma(r, g, b);
            && Within(Red(y, v), r, 2 + (409 * dv + 255) / 256)
            && Within(Green(y, u, v), g, 2 + (100 * du + 208 * dv + 255) / 256)
            && Within(Blue(y, u), b, 3 + (516 * du + 255) / 256)
  {
    RedError(r, g, b);
    GreenError(r, g, b);
    BlueError(r, g, b);
    ChromaMoves(Luma(r, g, b), ChromaU(r, g, b), ChromaV(r, g, b), u, v);
    hide Luma, ChromaU, ChromaV, Red, Green, Blue;
  }

  /** For every image: the error of pair k is bounded by the difference of its two pixels' chroma. When the
      pixels of the pair have the same chroma it is at most 2 for red and green and 3 for blue. */
  lemma RoundTripError(img: seq<Byte>, yuv: seq<Byte>, back: seq<Byte>, k: nat)
    requires PairEncoded(yuv, img, k) && PairDecoded(back, yuv, k)
    ensures var du := (Distance(PixelU(img, 6 * k), PixelU(img, 6 * k + 3)) + 1) / 2;
            var dv := (Distance(PixelV(img, 6 * k), PixelV(img, 6 * k + 3)) + 1) / 2;
            var (dr, dg, db) := (2 + (409 * dv + 255) / 256, 2 + (100 * du + 208 * dv + 255) / 256,
              3 + (516 * du + 255) / 256);
            PixelWithin(back, img, 6 * k, dr, dg, db) && PixelWithin(back, img, 6 * k + 3, dr, dg, db)
    ensures PixelU(img, 6 * k) == PixelU(img, 6 * k + 3) && PixelV(img, 6 * k) == PixelV(img, 6 * k + 3) ==>
              PixelWithin(back, img, 6 * k, 2, 2, 3) && PixelWithin(back, img, 6 * k + 3, 2, 2, 3)
  {
    hide Luma, ChromaU, ChromaV, Red, Green, Blue, Mean;
    var i, j := 6 * k, 6 * k + 3;
    var du := (Distance(PixelU(img, i), PixelU(img, j)) + 1) / 2;
    var dv := (Distance(PixelV(img, i), PixelV(img, j)) + 1) / 2;
    MeanDistance(PixelU(img, i), PixelU(img, j));
    MeanDistance(PixelV(img, i), PixelV(img, j));
    PixelError(img[i], img[i + 1], img[i + 2], yuv[4 * k + 1], yuv[4 * k + 3], du, dv);
    PixelError(img[j], img[j + 1], img[j + 2], yuv[4 * k + 1], yuv[4 * k + 3], du, dv);
  }
}
