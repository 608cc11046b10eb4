/** The morphological noise filter of src/motion_trigger_generic.cpp: a pattern of dilations and
    erosions run over two buffers that swap roles, the second of them uninitialised. */
module Despeckle {

  import opened Pixels

  // ---------- the meaning of a pattern: minima and maxima over the infinite plane ----------

  type Plane = (int, int) -> int

  /** A 5x4 or 9x8 window: columns x-half..x+half, but rows y-half..y+half-1 only. */
  datatype Kernel = Kernel(dilate: bool, half: nat)

  function Pick(dilate: bool, a: int, b: int): int {
    if dilate == (a >= b) then a else b
  }

  /** What the running extreme starts from. */
  function Neutral(dilate: bool): int { if dilate then -1 else 256 }

  function RowExtreme(dilate: bool, f: Plane, x: int, y: int, n: nat): int {
    if n == 0 then Neutral(dilate) else Pick(dilate, f(x + n - 1, y), RowExtreme(dilate, f, x, y, n - 1))
  }

  function BoxExtreme(dilate: bool, f: Plane, x: int, y: int, n: nat, rows: nat): int {
    if rows == 0 then Neutral(dilate)
    else Pick(dilate, RowExtreme(dilate, f, x, y + rows - 1, n), BoxExtreme(dilate, f, x, y, n, rows - 1))
  }

  function Window(k: Kernel, f: Plane, x: int, y: int): int {
    BoxExtreme(k.dilate, f, x - k.half, y - k.half, 2 * k.half + 1, 2 * k.half)
  }

  function Filtered(k: Kernel, f: Plane): Plane {
    (x, y) => Window(k, f, x, y)
  }

  function Composed(ks: seq<Kernel>, f: Plane): Plane {
    if ks == [] then f else Filtered(ks[|ks| - 1], Composed(ks[..|ks| - 1], f))
  }

  /** How far from a pixel a composition looks. */
  function Radius(ks: seq<Kernel>): nat {
    if ks == [] then 0 else Radius(ks[..|ks| - 1]) + ks[|ks| - 1].half
  }

  function KernelOf(c: char): (k: Kernel)
    requires c in "deDE"
    ensures k.half == (if c in "de" then 2 else 4) && (k.dilate <==> c == 'd' || c == 'D')
  {
    Kernel(c in "dD", if c in "de" then 2 else 4)
  }

  function KernelsOf(pattern: string): seq<Kernel>
    requires forall c :: c in pattern ==> c in "deDE"
  {
    seq(|pattern|, i requires 0 <= i < |pattern| => KernelOf(pattern[i]))
  }

  function PlaneOf(img: seq<Byte>, w: nat, h: nat): Plane
    requires |img| == w * h
  {
    (x: int, y: int) =>
      if 0 <= x < w && 0 <= y < h then (AtInBounds(w, h, x, y); img[At(w, x, y)]) else 0
  }

  // ---------- facts about windows ----------

  ghost predicate ByteValued(f: Plane) {
    forall x, y :: 0 <= f(x, y) <= 255
  }

  lemma PlaneOfBytes(img: seq<Byte>, w: nat, h: nat)
    requires |img| == w * h
    ensures ByteValued(PlaneOf(img, w, h))
  {
    hide At;
    forall x, y
      ensures 0 <= PlaneOf(img, w, h)(x, y) <= 255
    {
      if 0 <= x < w && 0 <= y < h {
        AtInBounds(w, h, x, y);
      }
    }
  }

  lemma {:induction false} RowBounds(dilate: bool, f: Plane, x: int, y: int, n: nat)
    ensures dilate ==> forall i :: x <= i < x + n ==> f(i, y) <= RowExtreme(dilate, f, x, y, n)
    ensures !dilate ==> forall i :: x <= i < x + n ==> RowExtreme(dilate, f, x, y, n) <= f(i, y)
  {
    if n > 0 {
      RowBounds(dilate, f, x, y, n - 1);
    }
  }

  lemma {:induction false} RowReached(dilate: bool, f: Plane, x: int, y: int, n: nat) returns (i: int)
    requires n > 0 && ByteValued(f)
    ensures x <= i < x + n && f(i, y) == RowExtreme(dilate, f, x, y, n)
  {
    if n == 1 || Pick(dilate, f(x + n - 1, y), RowExtreme(dilate, f, x, y, n - 1)) == f(x + n - 1, y) {
      i := x + n - 1;
    } else {
      i := RowReached(dilate, f, x, y, n - 1);
    }
  }

  /** The window extreme bounds every cell of the box. */
  lemma {:induction false} BoxBounds(dilate: bool, f: Plane, x: int, y: int, n: nat, rows: nat)
    ensures dilate ==> forall i, j :: x <= i < x + n && y <= j < y + rows ==>
            f(i, j) <= BoxExtreme(dilate, f, x, y, n, rows)
    ensures !dilate ==> forall i, j :: x <= i < x + n && y <= j < y + rows ==>
            BoxExtreme(dilate, f, x, y, n, rows) <= f(i, j)
  {
    if rows > 0 {
      BoxBounds(dilate, f, x, y, n, rows - 1);
      RowBounds(dilate, f, x, y + rows - 1, n);
    }
  }

  /** The window extreme is the value of some cell of the box. */
  lemma {:induction false} BoxReached(dilate: bool, f: Plane, x: int, y: int, n: nat, rows: nat)
      returns (i: int, j: int)
    requires n > 0 && rows > 0 && ByteValued(f)
    ensures x <= i < x + n && y <= j < y + rows && f(i, j) == BoxExtreme(dilate, f, x, y, n, rows)
  {
    j := y + rows - 1;
    i := RowReached(dilate, f, x, j, n);
    if rows > 1 && BoxExtreme(dilate, f, x, y, n, rows) != RowExtreme(dilate, f, x, j, n) {
      i, j := BoxReached(dilate, f, x, y, n, rows - 1);
    }
  }

  lemma {:induction false} RowLocal(dilate: bool, f: Plane, g: Plane, x: int, y: int, n: nat)
    requires forall i :: x <= i < x + n ==> f(i, y) == g(i, y)
    ensures RowExtreme(dilate, f, x, y, n) == RowExtreme(dilate, g, x, y, n)
  {
    if n > 0 {
      RowLocal(dilate, f, g, x, y, n - 1);
    }
  }

  lemma {:induction false} BoxLocal(dilate: bool, f: Plane, g: Plane, x: int, y: int, n: nat, rows: nat)
    requires forall i, j :: x <= i < x + n && y <= j < y + rows ==> f(i, j) == g(i, j)
    ensures BoxExtreme(dilate, f, x, y, n, rows) == BoxExtreme(dilate, g, x, y, n, rows)
  {
    if rows > 0 {
      BoxLocal(dilate, f, g, x, y, n, rows - 1);
      RowLocal(dilate, f, g, x, y + rows - 1, n);
    }
  }

  // ---------- the kernels ----------

  /** `dilation` and `erode`, which differ only in the comparison. Pixels nearer than half a kernel
      to an edge are not written. */
  method ApplyKernel(k: Kernel, input: array<Byte>, w: nat, h: nat, out: array<Byte>)
    requires k.half > 0
    requires input.Length == w * h && out.Length == w * h && input != out
    modifies out
    ensures forall x: nat, y: nat {:trigger At(w, x, y)} :: x < w && y < h && At(w, x, y) < out.Length ==>
              out[At(w, x, y)] ==
              if k.half <= x < w - k.half && k.half <= y < h - k.half then Window(k, PlaneOf(input[..], w, h), x, y)
              else old(out[At(w, x, y)])
  {
    var half := k.half;
    ghost var f := PlaneOf(input[..], w, h);
    var y := half;
    while y < h - half
      invariant half <= y && (y <= h - half || y == half)
      invariant forall x': nat, y': nat {:trigger At(w, x', y')} :: x' < w && y' < h && At(w, x', y') < out.Length ==>
                  out[At(w, x', y')] ==
                  if half <= x' < w - half && half <= y' < h - half && y' < y then Window(k, f, x', y')
                  else old(out[At(w, x', y')])
    {
      var x := half;
      while x < w - half
        invariant half <= x && (x <= w - half || x == half)
        invariant forall x': nat, y': nat {:trigger At(w, x', y')} :: x' < w && y' < h && At(w, x', y') < out.Length ==>
                    out[At(w, x', y')] ==
                    if half <= x' < w - half && half <= y' < h - half && (y' < y || (y' == y && x' < x))
                    then Window(k, f, x', y')
                    else old(out[At(w, x', y')])
      {
        var best := WindowLoop(k, input, w, h, x, y);
        AtInBounds(w, h, x, y);
        AtUnique(w, x, y);
        out[y * w + x] := best;
        x := x + 1;
      }
      y := y + 1;
    }
  }

  lemma CellOf(img: seq<Byte>, w: nat, h: nat, x: nat, y: nat)
    requires |img| == w * h && x < w && y < h
    ensures At(w, x, y) < w * h && img[At(w, x, y)] == PlaneOf(img, w, h)(x, y)
  {
    AtInBounds(w, h, x, y);
  }

  /** The innermost loop: extend the running extreme `best` by `size` cells of row `ky`. */
  method RowLoop(dilate: bool, input: array<Byte>, w: nat, h: nat, x: nat, ky: nat, size: nat, start: int)
      returns (best: int)
    requires input.Length == w * h && x + size <= w && ky < h
    ensures best == if size == 0 then start
            else Pick(dilate, RowExtreme(dilate, PlaneOf(input[..], w, h), x, ky, size), start)
  {
    ghost var f := PlaneOf(input[..], w, h);
    best := start;
    var offset := ky * w + x;
    var n := 0;
    while n < size
      invariant 0 <= n <= size && offset == ky * w + x + n
      invariant best == if n == 0 then start else Pick(dilate, RowExtreme(dilate, f, x, ky, n), start)
    {
      CellOf(input[..], w, h, x + n, ky);
      best := if dilate == (input[offset] >= best) then input[offset] else best;
      offset := offset + 1;
      n := n + 1;
    }
  }

  lemma WindowIsByte(k: Kernel, img: seq<Byte>, w: nat, h: nat, x: int, y: int)
    requires k.half > 0 && |img| == w * h
    ensures 0 <= Window(k, PlaneOf(img, w, h), x, y) <= 255
  {
    hide PlaneOf;
    PlaneOfBytes(img, w, h);
    var f := PlaneOf(img, w, h);
    var i, j := BoxReached(k.dilate, f, x - k.half, y - k.half, 2 * k.half + 1, 2 * k.half);
  }

  /** The two inner loops: the running extreme over the window. */
  method WindowLoop(k: Kernel, input: array<Byte>, w: nat, h: nat, x: nat, y: nat) returns (best: int)
    requires k.half > 0
    requires input.Length == w * h
    requires k.half <= x < w - k.half && k.half <= y < h - k.half
    ensures best == Window(k, PlaneOf(input[..], w, h), x, y)
    ensures 0 <= best <= 255
  {
    hide PlaneOf, Pick, RowExtreme, At;
    var half, size := k.half, 2 * k.half + 1;
    ghost var f := PlaneOf(input[..], w, h);
    best := if k.dilate then -1 else 256;
    var ky := y - half;
    while ky < y + half
      invariant y - half <= ky <= y + half
      invariant best == BoxExtreme(k.dilate, f, x - half, y - half, size, ky - (y - half))
    {
      best := RowLoop(k.dilate, input, w, h, x - half, ky, size, best);
      ky := ky + 1;
    }
    WindowIsByte(k, input[..], w, h, x, y);
  }

  /** `calc_diff`: the image the filter works on. */
  method CalcDiff(dest: array<Byte>, n: nat, a: array<Byte>, b: array<Byte>)
    requires n <= dest.Length && n <= a.Length && n <= b.Length && dest != a && dest != b
    modifies dest
    ensures forall i :: 0 <= i < n ==> dest[i] == if a[i] >= b[i] then a[i] - b[i] else b[i] - a[i]
    ensures forall i :: n <= i < dest.Length ==> dest[i] == old(dest[i])
  {
    for i := 0 to n
      invariant forall k :: 0 <= k < i ==> dest[k] == if a[k] >= b[k] then a[k] - b[k] else b[k] - a[k]
      invariant forall k :: i <= k < dest.Length ==> dest[k] == old(dest[k])
    {
      dest[i] := if a[i] >= b[i] then a[i] - b[i] else b[i] - a[i];
    }
  }

  // ---------- the whole filter ----------

  /** One kernel over a whole buffer: the pixels too near to an edge keep what the output buffer held. */
  function Kerneled(k: Kernel, input: Plane, out: Plane, w: nat, h: nat): Plane {
    (x, y) => if k.half <= x < w - k.half && k.half <= y < h - k.half then Window(k, input, x, y) else out(x, y)
  }

  /** The current and the other buffer after a pattern. A letter that names no kernel still swaps them. */
  function Buffers(pattern: string, f: Plane, scratch: Plane, w: nat, h: nat): (Plane, Plane) {
    if pattern == [] then (f, scratch)
    else
      var c := pattern[|pattern| - 1];
      var (current, other) := Buffers(pattern[..|pattern| - 1], f, scratch, w, h);
      if c !in "deDE" then (other, current) else (Kerneled(KernelOf(c), current, other, w, h), current)
  }

  ghost predicate Shows(img: seq<Byte>, f: Plane, w: nat, h: nat)
    requires |img| == w * h
  {
    forall x: nat, y: nat {:trigger At(w, x, y)} :: x < w && y < h && At(w, x, y) < |img| ==>
      img[At(w, x, y)] == f(x, y)
  }

  lemma ImageShows(img: seq<Byte>, w: nat, h: nat)
    requires |img| == w * h
    ensures Shows(img, PlaneOf(img, w, h), w, h)
  {
    forall x: nat, y: nat {:trigger At(w, x, y)} | x < w && y < h
      ensures At(w, x, y) < |img| && img[At(w, x, y)] == PlaneOf(img, w, h)(x, y)
    {
      CellOf(img, w, h, x, y);
    }
  }

  lemma WindowInImage(k: Kernel, img: seq<Byte>, f: Plane, w: nat, h: nat, x: int, y: int)
    requires |img| == w * h && Shows(img, f, w, h)
    requires k.half <= x < w - k.half && k.half <= y < h - k.half
    ensures Window(k, PlaneOf(img, w, h), x, y) == Window(k, f, x, y)
  {
    hide RowExtreme, BoxExtreme, PlaneOf, At;
    forall i, j | x - k.half <= i < x + k.half + 1 && y - k.half <= j < y + k.half
      ensures PlaneOf(img, w, h)(i, j) == f(i, j)
    {
      CellOf(img, w, h, i, j);
    }
    BoxLocal(k.dilate, PlaneOf(img, w, h), f, x - k.half, y - k.half, 2 * k.half + 1, 2 * k.half);
  }

  /** One kernel of the pattern. */
  method PatternStep(c: char, input: array<Byte>, w: nat, h: nat, out: array<Byte>, ghost f: Plane, ghost g: Plane)
    requires c in "deDE"
    requires input.Length == w * h && out.Length == w * h && input != out
    requires Shows(input[..], f, w, h) && Shows(out[..], g, w, h)
    modifies out
    ensures Shows(out[..], Kerneled(KernelOf(c), f, g, w, h), w, h)
  {
    var k := KernelOf(c);
    ApplyKernel(k, input, w, h, out);
    forall x: nat, y: nat | k.half <= x < w - k.half && k.half <= y < h - k.half
      ensures Window(k, PlaneOf(input[..], w, h), x, y) == Window(k, f, x, y)
    {
      WindowInImage(k, input[..], f, w, h, x, y);
    }
  }

  /** The pixels that the blanking loops write: four rows or columns along every side. */
  predicate Blanked(w: nat, h: nat, x: int, y: int) {
    || (0 <= x < w && (0 <= y < 4 || h - 4 <= y < h))
    || (0 <= y < h && (0 <= x < 4 || w - 4 <= x < w))
  }

  /** All their writes stay in the buffer exactly when the image is at least four by four, or empty. */
  lemma BlankingInBounds(w: nat, h: nat)
    ensures (forall x, y :: Blanked(w, h, x, y) ==> 0 <= y * w + x < w * h) <==>
            (4 <= w && 4 <= h) || (w == 0 && h == 0)
  {
    if 4 <= w && 4 <= h {
      forall x, y | Blanked(w, h, x, y)
        ensures 0 <= y * w + x < w * h
      {
        AtInBounds(w, h, x, y);
      }
    } else if w < 4 && h > 0 {
      assert Blanked(w, h, 3, h - 1) && (h - 1) * w + 3 >= w * h;
    } else if h < 4 && w > 0 {
      assert Blanked(w, h, 0, 3) && 3 * w >= h * w by { MulMonotone(h, 3, w); }
    }
  }

  /** The blanking loops: the outer four pixels on every side become zero. */
  method ClearFrame(img: array<Byte>, w: nat, h: nat)
    requires (4 <= w && 4 <= h) || (w == 0 && h == 0)
    requires img.Length == w * h
    modifies img
    ensures forall x: nat, y: nat {:trigger At(w, x, y)} :: x < w && y < h && At(w, x, y) < img.Length ==>
              img[At(w, x, y)] == if Blanked(w, h, x, y) then 0 else old(img[At(w, x, y)])
  {
    for x := 0 to w
      invariant forall x': nat, y': nat {:trigger At(w, x', y')} :: x' < w && y' < h && At(w, x', y') < img.Length ==>
                  img[At(w, x', y')] == if x' < x && (y' < 4 || y' + 4 >= h) then 0 else old(img[At(w, x', y')])
    {
      ClearColumn(img, w, h, x, 0, 4);
      ClearColumn(img, w, h, x, h - 4, h);
    }
    label columns:
    for y := 0 to h
      invariant forall x': nat, y': nat {:trigger At(w, x', y')} :: x' < w && y' < h && At(w, x', y') < img.Length ==>
                  img[At(w, x', y')] == if y' < y && (x' < 4 || x' + 4 >= w) then 0 else old@columns(img[At(w, x', y')])
    {
      ClearRow(img, w, h, y, 0, 4);
      ClearRow(img, w, h, y, w - 4, w);
    }
  }

  method ClearColumn(img: array<Byte>, w: nat, h: nat, x: nat, from: nat, to: nat)
    requires x < w && from <= to <= h && img.Length == w * h
    modifies img
    ensures forall x': nat, y': nat {:trigger At(w, x', y')} :: x' < w && y' < h && At(w, x', y') < img.Length ==>
              img[At(w, x', y')] == if x' == x && from <= y' < to then 0 else old(img[At(w, x', y')])
  {
    for y := from to to
      invariant forall x': nat, y': nat {:trigger At(w, x', y')} :: x' < w && y' < h && At(w, x', y') < img.Length ==>
                  img[At(w, x', y')] == if x' == x && from <= y' < y then 0 else old(img[At(w, x', y')])
    {
      AtInBounds(w, h, x, y);
      AtUnique(w, x, y);
      img[y * w + x] := 0;
    }
  }

  method ClearRow(img: array<Byte>, w: nat, h: nat, y: nat, from: nat, to: nat)
    requires y < h && from <= to <= w && img.Length == w * h
    modifies img
    ensures forall x': nat, y': nat {:trigger At(w, x', y')} :: x' < w && y' < h && At(w, x', y') < img.Length ==>
              img[At(w, x', y')] == if y' == y && from <= x' < to then 0 else old(img[At(w, x', y')])
  {
    for x := from to to
      invariant forall x': nat, y': nat {:trigger At(w, x', y')} :: x' < w && y' < h && At(w, x', y') < img.Length ==>
                  img[At(w, x', y')] == if y' == y && from <= x' < x then 0 else old(img[At(w, x', y')])
    {
      AtInBounds(w, h, x, y);
      AtUnique(w, x, y);
      img[y * w + x] := 0;
    }
  }

  /** `despeckle`: beyond the frame the image is the current buffer after the pattern; the frame is zero. */
  method Despeckle(img: array<Byte>, w: nat, h: nat, pattern: string, scratch: seq<Byte>)
    requires (4 <= w && 4 <= h) || (w == 0 && h == 0)
    requires img.Length == w * h && |scratch| == w * h
    modifies img
    ensures forall x: nat, y: nat {:trigger At(w, x, y)} :: x < w && y < h && At(w, x, y) < img.Length ==>
              img[At(w, x, y)] ==
              if Blanked(w, h, x, y) then 0
              else Buffers(pattern, PlaneOf(old(img[..]), w, h), PlaneOf(scratch, w, h), w, h).0(x, y)
  {
    hide PlaneOf, Kerneled;
    var n := w * h;
    var temp1 := new Byte[n](i requires 0 <= i < img.Length reads img => img[i]);
    var temp2 := new Byte[n](i requires 0 <= i < |scratch| => scratch[i]);
    ghost var f, g := PlaneOf(img[..], w, h), PlaneOf(scratch, w, h);
    assert temp1[..] == img[..] && temp2[..] == scratch;
    ImageShows(img[..], w, h);
    ImageShows(scratch, w, h);
    for i := 0 to |pattern|
      invariant temp1 != temp2 && temp1 != img && temp2 != img
      invariant fresh(temp1) && fresh(temp2)
      invariant temp1.Length == n && temp2.Length == n
      invariant Shows(temp1[..], Buffers(pattern[..i], f, g, w, h).0, w, h)
      invariant Shows(temp2[..], Buffers(pattern[..i], f, g, w, h).1, w, h)
      invariant img[..] == old(img[..])
    {
      var c := pattern[i];
      assert pattern[..i + 1][..i] == pattern[..i];
      if c in "deDE" {
        ghost var (current, other) := Buffers(pattern[..i], f, g, w, h);
        PatternStep(c, temp1, w, h, temp2, current, other);
      }
      var temp := temp1;
      temp1 := temp2;
      temp2 := temp;
    }
    assert pattern[..|pattern|] == pattern;
    CopyBytes(img, 0, temp1[..]);
    ClearFrame(img, w, h);
  }

  // ---------- which kernels are in effect ----------

  /** What a buffer holds far from the edges: the outcome of some kernels on the input, or on the scratch buffer. */
  datatype Contents = From(input: bool, ks: seq<Kernel>)

  function Effective(pattern: string): (Contents, Contents) {
    if pattern == [] then (From(true, []), From(false, []))
    else
      var c := pattern[|pattern| - 1];
      var (current, other) := Effective(pattern[..|pattern| - 1]);
      if c !in "deDE" then (other, current) else (From(current.input, current.ks + [KernelOf(c)]), current)
  }

  function Meaning(c: Contents, f: Plane, scratch: Plane): Plane {
    Composed(c.ks, if c.input then f else scratch)
  }

  /** The pixel is so far from every edge that the kernels of `ks` see only the image. */
  predicate Inside(ks: seq<Kernel>, w: nat, h: nat, x: int, y: int) {
    Radius(ks) <= x < w - Radius(ks) && Radius(ks) <= y < h - Radius(ks)
  }

  lemma ComposedSnoc(ks: seq<Kernel>, k: Kernel, f: Plane, x: int, y: int)
    ensures Composed(ks + [k], f)(x, y) == Window(k, Composed(ks, f), x, y)
    ensures Radius(ks + [k]) == Radius(ks) + k.half
  {
    assert (ks + [k])[..|ks|] == ks;
  }

  ghost predicate Means(buffer: Plane, c: Contents, f: Plane, scratch: Plane, w: nat, h: nat) {
    forall x, y :: Inside(c.ks, w, h, x, y) ==> buffer(x, y) == Meaning(c, f, scratch)(x, y)
  }

  /** A kernel adds itself to the composition wherever its windows see the right values. */
  lemma KernelMeans(k: Kernel, current: Plane, other: Plane, c: Contents, f: Plane, scratch: Plane, w: nat, h: nat)
    requires Means(current, c, f, scratch, w, h)
    ensures Means(Kerneled(k, current, other, w, h), From(c.input, c.ks + [k]), f, scratch, w, h)
  {
    hide RowExtreme, BoxExtreme, Composed, Radius;
    var plane := if c.input then f else scratch;
    forall x, y | Inside(c.ks + [k], w, h, x, y)
      ensures Kerneled(k, current, other, w, h)(x, y) == Composed(c.ks + [k], plane)(x, y)
    {
      ComposedSnoc(c.ks, k, plane, x, y);
      BoxLocal(k.dilate, current, Composed(c.ks, plane), x - k.half, y - k.half, 2 * k.half + 1, 2 * k.half);
      assert Window(k, current, x, y) == Window(k, Composed(c.ks, plane), x, y);
    }
  }

  /** However often the buffers swapped, every pixel that the kernels in effect see in full holds their pure
      composition. */
  lemma {:induction false} BuffersMean(pattern: string, f: Plane, scratch: Plane, w: nat, h: nat)
    ensures Means(Buffers(pattern, f, scratch, w, h).0, Effective(pattern).0, f, scratch, w, h)
    ensures Means(Buffers(pattern, f, scratch, w, h).1, Effective(pattern).1, f, scratch, w, h)
  {
    hide Means, Kerneled;
    if pattern == [] {
      NoKernels(f, scratch, w, h);
    } else {
      var front, c := pattern[..|pattern| - 1], pattern[|pattern| - 1];
      BuffersMean(front, f, scratch, w, h);
      if c in "deDE" {
        var (current, other) := Buffers(front, f, scratch, w, h);
        KernelMeans(KernelOf(c), current, other, Effective(front).0, f, scratch, w, h);
      }
    }
  }

  lemma NoKernels(f: Plane, scratch: Plane, w: nat, h: nat)
    ensures Means(f, From(true, []), f, scratch, w, h) && Means(scratch, From(false, []), f, scratch, w, h)
  {
  }

  /** A pattern of kernel letters alone applies its kernels to the input, left to right. */
  lemma {:induction false} KnownPatternIsDefined(pattern: string)
    requires forall c :: c in pattern ==> c in "deDE"
    ensures Effective(pattern).0 == From(true, KernelsOf(pattern))
  {
    if pattern == [] {
      assert KernelsOf(pattern) == [];
    } else {
      var front := pattern[..|pattern| - 1];
      KnownPatternIsDefined(front);
      assert KernelsOf(pattern) == KernelsOf(front) + [KernelOf(pattern[|pattern| - 1])];
    }
  }

  /** So for a pattern of kernel letters every pixel that they see in full is their composition on the input. */
  lemma KnownPatternComposes(pattern: string, img: seq<Byte>, scratch: Plane, w: nat, h: nat, x: int, y: int)
    requires |img| == w * h && (forall c :: c in pattern ==> c in "deDE")
    requires Inside(KernelsOf(pattern), w, h, x, y)
    ensures Buffers(pattern, PlaneOf(img, w, h), scratch, w, h).0(x, y) ==
            Composed(KernelsOf(pattern), PlaneOf(img, w, h))(x, y)
  {
    KnownPatternIsDefined(pattern);
    hide Buffers, Effective, Composed, PlaneOf, KernelsOf, Inside;
    BuffersMean(pattern, PlaneOf(img, w, h), scratch, w, h);
  }

  /** `v` is the greatest, or the least, value of `f` in columns x0..x1 and rows y0..y1. */
  ghost predicate Greatest(v: int, f: Plane, x0: int, x1: int, y0: int, y1: int) {
    && (forall i, j :: x0 <= i <= x1 && y0 <= j <= y1 ==> f(i, j) <= v)
    && exists i, j :: x0 <= i <= x1 && y0 <= j <= y1 && f(i, j) == v
  }

  ghost predicate Smallest(v: int, f: Plane, x0: int, x1: int, y0: int, y1: int) {
    && (forall i, j :: x0 <= i <= x1 && y0 <= j <= y1 ==> v <= f(i, j))
    && exists i, j :: x0 <= i <= x1 && y0 <= j <= y1 && f(i, j) == v
  }

  lemma WindowExtreme(k: Kernel, f: Plane, x: int, y: int)
    requires k.half > 0 && ByteValued(f)
    ensures k.dilate ==> Greatest(Window(k, f, x, y), f, x - k.half, x + k.half, y - k.half, y + k.half - 1)
    ensures !k.dilate ==> Smallest(Window(k, f, x, y), f, x - k.half, x + k.half, y - k.half, y + k.half - 1)
  {
    BoxBounds(k.dilate, f, x - k.half, y - k.half, 2 * k.half + 1, 2 * k.half);
    var i, j := BoxReached(k.dilate, f, x - k.half, y - k.half, 2 * k.half + 1, 2 * k.half);
    hide BoxExtreme;
  }

  lemma KerneledBytes(k: Kernel, input: Plane, out: Plane, w: nat, h: nat)
    requires k.half > 0 && ByteValued(input) && ByteValued(out)
    ensures ByteValued(Kerneled(k, input, out, w, h))
  {
    FilteredBytes(k, input);
    forall x, y
      ensures 0 <= Kerneled(k, input, out, w, h)(x, y) <= 255
    {
      assert 0 <= Filtered(k, input)(x, y) <= 255;
    }
  }

  lemma {:induction false} BuffersBytes(pattern: string, f: Plane, scratch: Plane, w: nat, h: nat)
    requires ByteValued(f) && ByteValued(scratch)
    ensures ByteValued(Buffers(pattern, f, scratch, w, h).0) && ByteValued(Buffers(pattern, f, scratch, w, h).1)
  {
    hide ByteValued, Kerneled;
    if pattern != [] {
      var front, c := pattern[..|pattern| - 1], pattern[|pattern| - 1];
      var (current, other) := Buffers(front, f, scratch, w, h);
      BuffersBytes(front, f, scratch, w, h);
      if c in "deDE" {
        KerneledBytes(KernelOf(c), current, other, w, h);
      }
    }
  }

  lemma AnotherKernel(pattern: string, c: char, f: Plane, scratch: Plane, w: nat, h: nat, x: int, y: int)
    requires c in "deDE" && ByteValued(f) && ByteValued(scratch)
    requires KernelOf(c).half <= x < w - KernelOf(c).half && KernelOf(c).half <= y < h - KernelOf(c).half
    ensures var (k, before) := (KernelOf(c), Buffers(pattern, f, scratch, w, h).0);
            var v := Buffers(pattern + [c], f, scratch, w, h).0(x, y);
            if c == 'd' || c == 'D' then Greatest(v, before, x - k.half, x + k.half, y - k.half, y + k.half - 1)
            else Smallest(v, before, x - k.half, x + k.half, y - k.half, y + k.half - 1)
  {
    var before := Buffers(pattern, f, scratch, w, h).0;
    BuffersBytes(pattern, f, scratch, w, h);
    PatternSnoc(pattern, c, f, scratch, w, h);
    hide Greatest, Smallest, Buffers, Window;
    WindowExtreme(KernelOf(c), before, x, y);
  }

  /** What one more letter does, after any pattern, to a pixel that its window sees in full: a small dilation
      takes the greatest value of the window, a small erosion the smallest. */
  lemma SmallLetters(pattern: string, f: Plane, scratch: Plane, w: nat, h: nat, x: int, y: int)
    requires ByteValued(f) && ByteValued(scratch) && 2 <= x < w - 2 && 2 <= y < h - 2
    ensures var before := Buffers(pattern, f, scratch, w, h).0;
            && Greatest(Buffers(pattern + ['d'], f, scratch, w, h).0(x, y), before, x - 2, x + 2, y - 2, y + 1)
            && Smallest(Buffers(pattern + ['e'], f, scratch, w, h).0(x, y), before, x - 2, x + 2, y - 2, y + 1)
  {
    hide Greatest, Smallest, Buffers, ByteValued;
    AnotherKernel(pattern, 'd', f, scratch, w, h, x, y);
    AnotherKernel(pattern, 'e', f, scratch, w, h, x, y);
  }

  /** The same for the large letters. */
  lemma LargeLetters(pattern: string, f: Plane, scratch: Plane, w: nat, h: nat, x: int, y: int)
    requires ByteValued(f) && ByteValued(scratch) && 4 <= x < w - 4 && 4 <= y < h - 4
    ensures var before := Buffers(pattern, f, scratch, w, h).0;
            && Greatest(Buffers(pattern + ['D'], f, scratch, w, h).0(x, y), before, x - 4, x + 4, y - 4, y + 3)
            && Smallest(Buffers(pattern + ['E'], f, scratch, w, h).0(x, y), before, x - 4, x + 4, y - 4, y + 3)
  {
    hide Greatest, Smallest, Buffers, ByteValued;
    AnotherKernel(pattern, 'D', f, scratch, w, h, x, y);
    AnotherKernel(pattern, 'E', f, scratch, w, h, x, y);
  }

  /** Any other letter shows the other buffer. */
  lemma OtherLetters(pattern: string, c: char, f: Plane, scratch: Plane, w: nat, h: nat)
    requires c !in "deDE"
    ensures var (current, other) := Buffers(pattern, f, scratch, w, h);
            Buffers(pattern + [c], f, scratch, w, h) == (other, current)
  {
    assert (pattern + [c])[..|pattern|] == pattern;
  }

  // ---------- when the scratch buffer reaches the image ----------

  /** How many letters come before the first that names a kernel. */
  function LeadingUnknown(pattern: string): (n: nat)
    ensures n <= |pattern|
  {
    if pattern == [] || pattern[0] in "deDE" then 0 else 1 + LeadingUnknown(pattern[1..])
  }

  lemma {:induction false} LeadingUnknownSnoc(pattern: string, c: char)
    ensures LeadingUnknown(pattern + [c]) ==
            if LeadingUnknown(pattern) == |pattern| && c !in "deDE" then |pattern| + 1 else LeadingUnknown(pattern)
  {
    if pattern != [] {
      assert (pattern + [c])[1..] == pattern[1..] + [c];
      if pattern[0] !in "deDE" {
        LeadingUnknownSnoc(pattern[1..], c);
      }
    }
  }

  /** Which buffer the result comes from depends only on the parity of those letters. The other buffer has
      the same origin as soon as there was a kernel. */
  lemma {:induction false} OriginByParity(pattern: string)
    ensures Effective(pattern).0.input <==> LeadingUnknown(pattern) % 2 == 0
    ensures Effective(pattern).1.input <==>
            ((LeadingUnknown(pattern) % 2 == 0) != (LeadingUnknown(pattern) == |pattern|))
  {
    if pattern != [] {
      var front, c := pattern[..|pattern| - 1], pattern[|pattern| - 1];
      OriginByParity(front);
      LeadingUnknownSnoc(front, c);
      assert front + [c] == pattern;
    }
  }

  lemma {:induction false} KernelsHaveSize(pattern: string)
    ensures forall k :: k in Effective(pattern).0.ks ==> k.half > 0
    ensures forall k :: k in Effective(pattern).1.ks ==> k.half > 0
  {
    if pattern != [] {
      KernelsHaveSize(pattern[..|pattern| - 1]);
    }
  }

  /** A composition sees nothing farther away than its radius. */
  lemma {:induction false} ComposedLocal(ks: seq<Kernel>, f: Plane, g: Plane, x: int, y: int)
    requires forall i, j :: x - Radius(ks) <= i <= x + Radius(ks) && y - Radius(ks) <= j <= y + Radius(ks) ==>
             f(i, j) == g(i, j)
    ensures Composed(ks, f)(x, y) == Composed(ks, g)(x, y)
    decreases |ks|
  {
    hide BoxExtreme;
    if ks != [] {
      var k, front := ks[|ks| - 1], ks[..|ks| - 1];
      forall i, j | x - k.half <= i < x + k.half + 1 && y - k.half <= j < y + k.half
        ensures Composed(front, f)(i, j) == Composed(front, g)(i, j)
      {
        ComposedLocal(front, f, g, i, j);
      }
      BoxLocal(k.dilate, Composed(front, f), Composed(front, g), x - k.half, y - k.half, 2 * k.half + 1, 2 * k.half);
    }
  }

  /** A buffer full of one value, at a pixel the kernels see in full, keeps that value under any composition. */
  lemma UniformStays(ks: seq<Kernel>, w: nat, h: nat, v: Byte, x: int, y: int)
    requires Inside(ks, w, h, x, y) && forall k :: k in ks ==> k.half > 0
    ensures Composed(ks, PlaneOf(Uniform(w * h, v), w, h))(x, y) == v
  {
    hide Composed, Radius;
    ConstantStays(ks, (i, j) => v, v);
    var f := PlaneOf(Uniform(w * h, v), w, h);
    forall i: int, j: int | 0 <= i < w && 0 <= j < h
      ensures f(i, j) == v
    {
      AtInBounds(w, h, i, j);
    }
    ComposedLocal(ks, f, (i, j) => v, x, y);
  }

  function Uniform(n: nat, v: Byte): (s: seq<Byte>)
    ensures |s| == n && forall i :: 0 <= i < n ==> s[i] == v
  {
    seq(n, i => v)
  }

  ghost predicate ScratchIrrelevant(pattern: string, f: Plane, w: nat, h: nat, x: int, y: int) {
    forall a: seq<Byte>, b: seq<Byte> | |a| == w * h && |b| == w * h ::
      Buffers(pattern, f, PlaneOf(a, w, h), w, h).0(x, y) == Buffers(pattern, f, PlaneOf(b, w, h), w, h).0(x, y)
  }

  /** At a pixel the kernels see in full the uninitialised memory cannot be seen exactly when an even number of
      unknown letters precedes the first kernel. After an odd number a scratch buffer full of any byte shows
      through as that byte. */
  lemma ScratchShowsByParity(pattern: string, f: Plane, w: nat, h: nat, x: int, y: int)
    requires Inside(Effective(pattern).0.ks, w, h, x, y)
    ensures ScratchIrrelevant(pattern, f, w, h, x, y) <==> LeadingUnknown(pattern) % 2 == 0
    ensures LeadingUnknown(pattern) % 2 == 1 ==>
              forall v: Byte :: Buffers(pattern, f, PlaneOf(Uniform(w * h, v), w, h), w, h).0(x, y) == v
  {
    hide Composed, Radius, PlaneOf, Effective, LeadingUnknown, Buffers;
    OriginByParity(pattern);
    KernelsHaveSize(pattern);
    forall a: seq<Byte> | |a| == w * h
      ensures Buffers(pattern, f, PlaneOf(a, w, h), w, h).0(x, y) ==
              Meaning(Effective(pattern).0, f, PlaneOf(a, w, h))(x, y)
    {
      BuffersMean(pattern, f, PlaneOf(a, w, h), w, h);
    }
    if LeadingUnknown(pattern) % 2 == 1 {
      forall v: Byte
        ensures Buffers(pattern, f, PlaneOf(Uniform(w * h, v), w, h), w, h).0(x, y) == v
      {
        UniformStays(Effective(pattern).0.ks, w, h, v, x, y);
      }
      var dark, bright := Uniform(w * h, 0), Uniform(w * h, 255);
      assert Buffers(pattern, f, PlaneOf(dark, w, h), w, h).0(x, y)
          != Buffers(pattern, f, PlaneOf(bright, w, h), w, h).0(x, y);
    }
  }

  /** Nothing of the image beyond the frame depends on uninitialised memory, for any input. */
  ghost predicate Determined(pattern: string, w: nat, h: nat) {
    forall img: seq<Byte>, x, y | |img| == w * h && 0 <= x < w && 0 <= y < h && !Blanked(w, h, x, y) ::
      ScratchIrrelevant(pattern, PlaneOf(img, w, h), w, h, x, y)
  }

  /** The frame hides what the kernels leave unwritten as long as their total radius is at most four. */
  lemma SmallPatternsDetermined(pattern: string, w: nat, h: nat)
    requires LeadingUnknown(pattern) % 2 == 0 && Radius(Effective(pattern).0.ks) <= 4
    ensures Determined(pattern, w, h)
  {
    hide ScratchIrrelevant, Radius, Effective, LeadingUnknown, PlaneOf;
    forall img: seq<Byte>, x, y | |img| == w * h && 0 <= x < w && 0 <= y < h && !Blanked(w, h, x, y)
      ensures ScratchIrrelevant(pattern, PlaneOf(img, w, h), w, h, x, y)
    {
      ScratchShowsByParity(pattern, PlaneOf(img, w, h), w, h, x, y);
    }
  }

  lemma PatternSnoc(pattern: string, c: char, f: Plane, scratch: Plane, w: nat, h: nat)
    requires c in "deDE"
    ensures var (current, other) := Buffers(pattern, f, scratch, w, h);
            Buffers(pattern + [c], f, scratch, w, h) == (Kerneled(KernelOf(c), current, other, w, h), current)
    ensures var current := Effective(pattern).0;
            Effective(pattern + [c]) == (From(current.input, current.ks + [KernelOf(c)]), current)
  {
    assert (pattern + [c])[..|pattern|] == pattern;
  }

  lemma TwoLetters(a: char, b: char, f: Plane, scratch: Plane, w: nat, h: nat)
    requires a in "deDE" && b in "deDE"
    ensures Buffers([a, b], f, scratch, w, h).0 ==
            Kerneled(KernelOf(b), Kerneled(KernelOf(a), f, scratch, w, h), f, w, h)
    ensures Effective([a, b]).0.ks == [] + [KernelOf(a)] + [KernelOf(b)]
    ensures Radius(Effective([a, b]).0.ks) == KernelOf(a).half + KernelOf(b).half
  {
    assert [] + [a] == [a] && [a] + [b] == [a, b];
    PatternSnoc([], a, f, scratch, w, h);
    hide Buffers, Kerneled, Effective, Radius;
    PatternSnoc([a], b, f, scratch, w, h);
    hide KernelOf;
    RadiusOfTwo(KernelOf(a), KernelOf(b), f);
    assert Effective([]).0.ks == [] by { NothingInEffect(); }
  }

  lemma NothingInEffect()
    ensures Effective([]).0.ks == []
  {
  }

  lemma RadiusOfTwo(a: Kernel, b: Kernel, f: Plane)
    ensures Radius([] + [a] + [b]) == a.half + b.half
  {
    ComposedSnoc([], a, f, 0, 0);
    ComposedSnoc([] + [a], b, f, 0, 0);
  }

  /** One value inside, another on the rim that a kernel does not write. */
  function Rimmed(k: Kernel, w: nat, h: nat, inner: Byte, rim: Byte): Plane {
    (x, y) => if k.half <= x < w - k.half && k.half <= y < h - k.half then inner else rim
  }

  /** On an input of one value the first kernel leaves that value inside and the scratch buffer's on the rim. */
  lemma FirstKernelOnUniform(k: Kernel, w: nat, h: nat, c: Byte, v: Byte, x: int, y: int)
    requires k.half > 0 && 0 <= x < w && 0 <= y < h
    ensures Kerneled(k, PlaneOf(Uniform(w * h, c), w, h), PlaneOf(Uniform(w * h, v), w, h), w, h)(x, y) ==
            Rimmed(k, w, h, c, v)(x, y)
  {
    hide At;
    AtInBounds(w, h, x, y);
    if k.half <= x < w - k.half && k.half <= y < h - k.half {
      var i, j := BoxReachedInImage(k, Uniform(w * h, c), w, h, x, y);
      AtInBounds(w, h, i, j);
    }
  }

  lemma BoxReachedInImage(k: Kernel, img: seq<Byte>, w: nat, h: nat, x: int, y: int) returns (i: nat, j: nat)
    requires |img| == w * h && k.half > 0
    requires k.half <= x < w - k.half && k.half <= y < h - k.half
    ensures i < w && j < h && PlaneOf(img, w, h)(i, j) == Window(k, PlaneOf(img, w, h), x, y)
  {
    hide PlaneOf;
    PlaneOfBytes(img, w, h);
    i, j := BoxReached(k.dilate, PlaneOf(img, w, h), x - k.half, y - k.half, 2 * k.half + 1, 2 * k.half);
  }

  /** A dilation sees a bright rim around darkness, an erosion a dark one around brightness. */
  lemma WindowSeesRim(a: Kernel, b: Kernel, w: nat, h: nat, v: Byte)
    requires a.half > 0 && b.half > 0 && (v == 0 || v == 255)
    ensures Window(b, Rimmed(a, w, h, if b.dilate then 0 else 255, v), a.half + b.half - 1, a.half + b.half) == v
  {
    hide RowExtreme, BoxExtreme;
    var g := Rimmed(a, w, h, if b.dilate then 0 else 255, v);
    var x0, y0 := a.half - 1, a.half;
    BoxBounds(b.dilate, g, x0, y0, 2 * b.half + 1, 2 * b.half);
    var i, j := BoxReached(b.dilate, g, x0, y0, 2 * b.half + 1, 2 * b.half);
    assert g(x0, y0) == v;
  }

  /** The input on which the second kernel sees the rim best. */
  function Contrast(b: Kernel, w: nat, h: nat): Plane {
    PlaneOf(Uniform(w * h, if b.dilate then 0 else 255), w, h)
  }

  lemma RimSeen(a: Kernel, b: Kernel, w: nat, h: nat, v: Byte)
    requires a.half > 0 && b.half > 0 && (v == 0 || v == 255)
    requires var r := a.half + b.half; w > 2 * r && h > 2 * r
    ensures var r := a.half + b.half;
            Window(b, Kerneled(a, Contrast(b, w, h), PlaneOf(Uniform(w * h, v), w, h), w, h), r - 1, r) == v
  {
    hide PlaneOf, RowExtreme, BoxExtreme, Kerneled, Rimmed;
    var c: Byte := if b.dilate then 0 else 255;
    var g := Kerneled(a, Contrast(b, w, h), PlaneOf(Uniform(w * h, v), w, h), w, h);
    forall i, j | 0 <= i < w && 0 <= j < h
      ensures g(i, j) == Rimmed(a, w, h, c, v)(i, j)
    {
      FirstKernelOnUniform(a, w, h, c, v, i, j);
    }
    BoxLocal(b.dilate, g, Rimmed(a, w, h, c, v), a.half - 1, a.half, 2 * b.half + 1, 2 * b.half);
    WindowSeesRim(a, b, w, h, v);
  }

  /** So after two kernels the scratch buffer shows through the pixel (r - 1, r), r the total radius. */
  lemma RimShows(a: char, b: char, w: nat, h: nat, v: Byte)
    requires a in "deDE" && b in "deDE" && (v == 0 || v == 255)
    requires var r := KernelOf(a).half + KernelOf(b).half; w > 2 * r && h > 2 * r
    ensures var r := KernelOf(a).half + KernelOf(b).half;
            Buffers([a, b], Contrast(KernelOf(b), w, h), PlaneOf(Uniform(w * h, v), w, h), w, h).0(r - 1, r) == v
  {
    var ka, kb := KernelOf(a), KernelOf(b);
    hide PlaneOf, RowExtreme, BoxExtreme, Buffers, Contrast, KernelOf;
    var scratch := PlaneOf(Uniform(w * h, v), w, h);
    TwoLetters(a, b, Contrast(kb, w, h), scratch, w, h);
    KerneledInside(kb, Kerneled(ka, Contrast(kb, w, h), scratch, w, h), Contrast(kb, w, h), w, h,
      ka.half + kb.half - 1, ka.half + kb.half);
    RimSeen(ka, kb, w, h, v);
  }

  lemma KerneledInside(k: Kernel, input: Plane, out: Plane, w: nat, h: nat, x: int, y: int)
    requires k.half <= x < w - k.half && k.half <= y < h - k.half
    ensures Kerneled(k, input, out, w, h)(x, y) == Window(k, input, x, y)
  {
  }

  /** Kernel letters alone do not make the result independent of uninitialised memory. Two of them do, on images
      they fit in, exactly when their radii add up to at most the four pixels of the frame. */
  lemma TwoKernelsDetermined(a: char, b: char, w: nat, h: nat)
    requires a in "deDE" && b in "deDE"
    requires var r := KernelOf(a).half + KernelOf(b).half; w > 2 * r && h > 2 * r
    ensures Determined([a, b], w, h) <==> KernelOf(a).half + KernelOf(b).half <= 4
  {
    var r := KernelOf(a).half + KernelOf(b).half;
    assert r <= 4 || r >= 6;
    hide Buffers, PlaneOf, KernelOf, Effective, Radius;
    if r <= 4 {
      TwoLetters(a, b, (x, y) => 0, (x, y) => 0, w, h);
      SmallPatternsDetermined([a, b], w, h);
    } else {
      RimShows(a, b, w, h, 0);
      RimShows(a, b, w, h, 255);
      ScratchSeen([a, b], Contrast(KernelOf(b), w, h), w, h, r - 1, r);
      var img := Uniform(w * h, if KernelOf(b).dilate then 0 else 255);
      assert !Blanked(w, h, r - 1, r) && !ScratchIrrelevant([a, b], PlaneOf(img, w, h), w, h, r - 1, r);
    }
  }

  lemma ScratchSeen(pattern: string, f: Plane, w: nat, h: nat, x: int, y: int)
    requires Buffers(pattern, f, PlaneOf(Uniform(w * h, 0), w, h), w, h).0(x, y)
          != Buffers(pattern, f, PlaneOf(Uniform(w * h, 255), w, h), w, h).0(x, y)
    ensures !ScratchIrrelevant(pattern, f, w, h, x, y)
  {
    hide Buffers, PlaneOf;
    var dark, bright := Uniform(w * h, 0), Uniform(w * h, 255);
    assert Buffers(pattern, f, PlaneOf(dark, w, h), w, h).0(x, y)
        != Buffers(pattern, f, PlaneOf(bright, w, h), w, h).0(x, y);
  }

  // ---------- algebra of the composition ----------

  ghost predicate Below(f: Plane, g: Plane) {
    forall x, y :: f(x, y) <= g(x, y)
  }

  lemma {:induction false} RowMonotone(dilate: bool, f: Plane, g: Plane, x: int, y: int, n: nat)
    requires Below(f, g)
    ensures RowExtreme(dilate, f, x, y, n) <= RowExtreme(dilate, g, x, y, n)
  {
    if n > 0 {
      RowMonotone(dilate, f, g, x, y, n - 1);
      assert f(x + n - 1, y) <= g(x + n - 1, y);
    }
  }

  lemma {:induction false} BoxMonotone(dilate: bool, f: Plane, g: Plane, x: int, y: int, n: nat, rows: nat)
    requires Below(f, g)
    ensures BoxExtreme(dilate, f, x, y, n, rows) <= BoxExtreme(dilate, g, x, y, n, rows)
  {
    if rows > 0 {
      BoxMonotone(dilate, f, g, x, y, n, rows - 1);
      RowMonotone(dilate, f, g, x, y + rows - 1, n);
    }
  }

  /** A brighter difference image never filters to a darker one, whatever the pattern. */
  lemma {:induction false} ComposedMonotone(ks: seq<Kernel>, f: Plane, g: Plane)
    requires Below(f, g)
    ensures Below(Composed(ks, f), Composed(ks, g))
  {
    if ks != [] {
      var k, front := ks[|ks| - 1], ks[..|ks| - 1];
      ComposedMonotone(front, f, g);
      forall x, y
        ensures Composed(ks, f)(x, y) <= Composed(ks, g)(x, y)
      {
        BoxMonotone(k.dilate, Composed(front, f), Composed(front, g), x - k.half, y - k.half, 2 * k.half + 1,
          2 * k.half);
      }
    }
  }

  /** Because the window has one row more above than below, an erosion followed by a dilation is the
      usual speck-removing opening moved down by a row: it stays below the input one row up. Dually a
      dilation followed by an erosion stays above it. */
  lemma OpeningAndClosing(first: Kernel, f: Plane, x: int, y: int)
    requires first.half > 0 && ByteValued(f)
    ensures first.dilate ==> f(x, y - 1) <= Composed([first, Opposite(first)], f)(x, y)
    ensures !first.dilate ==> Composed([first, Opposite(first)], f)(x, y) <= f(x, y - 1)
  {
    hide RowExtreme, BoxExtreme, Composed;
    var half := first.half;
    var g := Filtered(first, f);
    TwoKernels(first, Opposite(first), f);
    FilteredBytes(first, f);
    var i, j := BoxReached(!first.dilate, g, x - half, y - half, 2 * half + 1, 2 * half);
    BoxBounds(first.dilate, f, i - half, j - half, 2 * half + 1, 2 * half);
    assert if first.dilate then f(x, y - 1) <= g(i, j) else g(i, j) <= f(x, y - 1);
  }

  function Opposite(k: Kernel): Kernel { k.(dilate := !k.dilate) }

  lemma TwoKernels(a: Kernel, b: Kernel, f: Plane)
    ensures Composed([a, b], f) == Filtered(b, Filtered(a, f))
  {
    assert [a, b][..1] == [a] && [a][..0] == [];
    assert Composed([a], f) == Filtered(a, f);
  }

  lemma FilteredBytes(k: Kernel, f: Plane)
    requires k.half > 0 && ByteValued(f)
    ensures ByteValued(Filtered(k, f))
  {
    forall x, y
      ensures 0 <= Filtered(k, f)(x, y) <= 255
    {
      var i, j := BoxReached(k.dilate, f, x - k.half, y - k.half, 2 * k.half + 1, 2 * k.half);
    }
  }

  /** Where nothing changed there is nothing to find: any pattern leaves a constant image constant. */
  lemma {:induction false} ConstantStays(ks: seq<Kernel>, f: Plane, v: int)
    requires 0 <= v <= 255 && (forall x, y :: f(x, y) == v) && forall k :: k in ks ==> k.half > 0
    ensures forall x, y :: Composed(ks, f)(x, y) == v
  {
    if ks != [] {
      var k, g := ks[|ks| - 1], Composed(ks[..|ks| - 1], f);
      ConstantStays(ks[..|ks| - 1], f, v);
      forall x, y
        ensures Composed(ks, f)(x, y) == v
      {
        var i, j := BoxReached(k.dilate, g, x - k.half, y - k.half, 2 * k.half + 1, 2 * k.half);
      }
    }
  }

  function Inverted(f: Plane): Plane {
    (x, y) => 255 - f(x, y)
  }

  lemma {:induction false} RowInverted(dilate: bool, f: Plane, x: int, y: int, n: nat)
    ensures RowExtreme(!dilate, Inverted(f), x, y, n) == 255 - RowExtreme(dilate, f, x, y, n)
  {
    if n > 0 {
      RowInverted(dilate, f, x, y, n - 1);
    }
  }

  lemma {:induction false} BoxInverted(dilate: bool, f: Plane, x: int, y: int, n: nat, rows: nat)
    ensures BoxExtreme(!dilate, Inverted(f), x, y, n, rows) == 255 - BoxExtreme(dilate, f, x, y, n, rows)
  {
    if rows > 0 {
      BoxInverted(dilate, f, x, y, n, rows - 1);
      RowInverted(dilate, f, x, y + rows - 1, n);
    }
  }

  /** Swapping dilations and erosions throughout a pattern inverts its effect on the inverted image. */
  lemma {:induction false} ComposedInverted(ks: seq<Kernel>, f: Plane, x: int, y: int)
    ensures Composed(Opposites(ks), Inverted(f))(x, y) == 255 - Composed(ks, f)(x, y)
    decreases |ks|
  {
    hide RowExtreme, BoxExtreme;
    if ks != [] {
      var k, front := ks[|ks| - 1], ks[..|ks| - 1];
      assert Opposites(ks)[..|ks| - 1] == Opposites(front);
      var n, x0, y0 := 2 * k.half + 1, x - k.half, y - k.half;
      forall i, j
        ensures Composed(Opposites(front), Inverted(f))(i, j) == Inverted(Composed(front, f))(i, j)
      {
        ComposedInverted(front, f, i, j);
      }
      BoxLocal(!k.dilate, Composed(Opposites(front), Inverted(f)), Inverted(Composed(front, f)), x0, y0, n, 2 * k.half);
      BoxInverted(k.dilate, Composed(front, f), x0, y0, n, 2 * k.half);
    }
  }

  function Opposites(ks: seq<Kernel>): seq<Kernel> {
    seq(|ks|, i requires 0 <= i < |ks| => Opposite(ks[i]))
  }
}
