/** The filter pipeline of src/filter.cpp, which alternates two buffers whenever a filter needs separate
    input and output, and the two mirrors (src/filter_mirror_h.cpp, src/filter_mirror_v.cpp). */
module FilterPipeline {

  import opened Pixels
  import opened Placement

  // ---------- mirrors as functions of the whole image ----------

  function FlipH(w: nat, i: nat): int
    requires w > 0
  {
    3 * (i / 3 / w * w + (w - 1 - i / 3 % w)) + i % 3
  }

  function FlipV(w: nat, h: nat, i: nat): int
    requires w > 0
  {
    3 * ((h - 1 - i / 3 / w) * w + i / 3 % w) + i % 3
  }

  /** The bytes of pixel n - 1 - p in the place of pixel p: a rotation by 180 degrees. */
  function Turned(img: seq<Byte>, n: nat): (r: seq<Byte>)
    requires |img| == 3 * n
  {
    seq(3 * n, i requires 0 <= i < 3 * n => img[3 * (n - 1 - i / 3) + i % 3])
  }

  lemma FlipHAt(w: nat, h: nat, x: nat, y: nat, c: nat)
    requires x < w && y < h && c < 3
    ensures FlipH(w, At3(w, x, y, c)) == At3(w, w - 1 - x, y, c)
    ensures FlipV(w, h, At3(w, x, y, c)) == At3(w, x, h - 1 - y, c)
  {
    PartsOfAt(w, h, x, y);
    ThirdOf(At(w, x, y), c);
  }

  lemma PartsOfAt(w: nat, h: nat, x: nat, y: nat)
    requires x < w && y < h
    ensures At(w, x, y) % w == x && At(w, x, y) / w == y
  {
    var p := At(w, x, y);
    AtInBounds(w, h, x, y);
    AtSurjective(w, h, p);
    AtInjective(w, x, y, p % w, p / w);
  }

  lemma ThirdOf(p: nat, c: nat)
    requires c < 3
    ensures (3 * p + c) / 3 == p && (3 * p + c) % 3 == c
  {
  }

  /** Every byte index is that of a channel of a pixel. */
  lemma PixelOf(w: nat, h: nat, i: nat) returns (x: nat, y: nat, c: nat)
    requires i < 3 * (w * h)
    ensures x < w && y < h && c < 3 && i == At3(w, x, y, c)
  {
    x, y, c := i / 3 % w, i / 3 / w, i % 3;
    AtSurjective(w, h, i / 3);
  }

  lemma FlipInRange(w: nat, h: nat, i: nat)
    requires i < 3 * (w * h)
    ensures w > 0 && 0 <= FlipH(w, i) < 3 * (w * h) && 0 <= FlipV(w, h, i) < 3 * (w * h)
  {
    var x, y, c := PixelOf(w, h, i);
    FlipHAt(w, h, x, y, c);
    At3InBounds(w, h, w - 1 - x, y, c);
    At3InBounds(w, h, x, h - 1 - y, c);
  }

  function MirrorH(img: seq<Byte>, w: nat, h: nat): (r: seq<Byte>)
    requires |img| == 3 * (w * h)
    ensures |r| == |img|
  {
    seq(|img|, i requires 0 <= i < |img| => (FlipInRange(w, h, i); img[FlipH(w, i)]))
  }

  function MirrorV(img: seq<Byte>, w: nat, h: nat): (r: seq<Byte>)
    requires |img| == 3 * (w * h)
    ensures |r| == |img|
  {
    seq(|img|, i requires 0 <= i < |img| => (FlipInRange(w, h, i); img[FlipV(w, h, i)]))
  }

  lemma MirrorPixel(img: seq<Byte>, w: nat, h: nat, x: nat, y: nat, c: nat)
    requires |img| == 3 * (w * h) && x < w && y < h && c < 3
    ensures At3(w, x, y, c) < |img| && At3(w, w - 1 - x, y, c) < |img| && At3(w, x, h - 1 - y, c) < |img|
    ensures MirrorH(img, w, h)[At3(w, x, y, c)] == img[At3(w, w - 1 - x, y, c)]
    ensures MirrorV(img, w, h)[At3(w, x, y, c)] == img[At3(w, x, h - 1 - y, c)]
  {
    At3InBounds(w, h, x, y, c);
    At3InBounds(w, h, w - 1 - x, y, c);
    At3InBounds(w, h, x, h - 1 - y, c);
    FlipHAt(w, h, x, y, c);
  }

  /** Mirroring twice in the same direction changes nothing. */
  lemma MirrorTwice(img: seq<Byte>, w: nat, h: nat)
    requires |img| == 3 * (w * h)
    ensures MirrorH(MirrorH(img, w, h), w, h) == img
    ensures MirrorV(MirrorV(img, w, h), w, h) == img
  {
    hide FlipH, FlipV, MirrorH, MirrorV, At3;
    forall i | 0 <= i < |img|
      ensures MirrorH(MirrorH(img, w, h), w, h)[i] == img[i] && MirrorV(MirrorV(img, w, h), w, h)[i] == img[i]
    {
      var x, y, c := PixelOf(w, h, i);
      MirrorPixel(MirrorH(img, w, h), w, h, x, y, c);
      MirrorPixel(img, w, h, w - 1 - x, y, c);
      MirrorPixel(MirrorV(img, w, h), w, h, x, y, c);
      MirrorPixel(img, w, h, x, h - 1 - y, c);
    }
  }

  lemma Opposite(w: nat, h: nat, x: nat, y: nat)
    requires x < w && y < h
    ensures At(w, w - 1 - x, h - 1 - y) == w * h - 1 - At(w, x, y)
  {
    assert (h - 1 - y) * w == h * w - w - y * w;
  }

  /** Both mirrors together, in either order, turn the image by 180 degrees. */
  lemma MirrorsTurn(img: seq<Byte>, w: nat, h: nat)
    requires |img| == 3 * (w * h)
    ensures MirrorV(MirrorH(img, w, h), w, h) == Turned(img, w * h)
    ensures MirrorH(MirrorV(img, w, h), w, h) == Turned(img, w * h)
  {
    hide FlipH, FlipV, MirrorH, MirrorV;
    forall i | 0 <= i < |img|
      ensures MirrorV(MirrorH(img, w, h), w, h)[i] == Turned(img, w * h)[i]
      ensures MirrorH(MirrorV(img, w, h), w, h)[i] == Turned(img, w * h)[i]
    {
      var x, y, c := PixelOf(w, h, i);
      MirrorPixel(MirrorH(img, w, h), w, h, x, y, c);
      MirrorPixel(img, w, h, x, h - 1 - y, c);
      MirrorPixel(MirrorV(img, w, h), w, h, x, y, c);
      MirrorPixel(img, w, h, w - 1 - x, y, c);
      Opposite(w, h, x, y);
      assert i / 3 == At(w, x, y) && i % 3 == c;
    }
  }

  // ---------- the mirror filters ----------

  /** `filter_mirror_h::apply_io`. */
  method ApplyMirrorH(input: array<Byte>, out: array<Byte>, w: nat, h: nat)
    requires input != out && input.Length == out.Length == 3 * (w * h)
    modifies out
    ensures out[..] == MirrorH(input[..], w, h)
  {
    hide FlipH, MirrorH, MirrorV;
    for y := 0 to h
      invariant forall x: nat, y': nat, c: nat {:trigger At3(w, x, y', c)} ::
                x < w && y' < y && c < 3 && At3(w, x, y', c) < out.Length ==>
                  out[At3(w, x, y', c)] == MirrorH(input[..], w, h)[At3(w, x, y', c)]
    {
      MirrorRow(input, out, w, h, y);
    }
    SameImage(out[..], MirrorH(input[..], w, h), w, h);
  }

  method MirrorRow(input: array<Byte>, out: array<Byte>, w: nat, h: nat, y: nat)
    requires input != out && input.Length == out.Length == 3 * (w * h) && y < h
    modifies out
    ensures forall x: nat, y': nat, c: nat {:trigger At3(w, x, y', c)} ::
            x < w && c < 3 && At3(w, x, y', c) < out.Length ==>
              out[At3(w, x, y', c)] ==
              if y' == y then MirrorH(input[..], w, h)[At3(w, x, y', c)] else old(out[At3(w, x, y', c)])
  {
    hide FlipH, MirrorH, MirrorV;
    var yoff := y * w * 3;
    for x := 0 to w
      invariant forall x': nat, y': nat, c: nat {:trigger At3(w, x', y', c)} ::
                x' < w && c < 3 && At3(w, x', y', c) < out.Length ==>
                  out[At3(w, x', y', c)] ==
                  if y' == y && w - x <= x' then MirrorH(input[..], w, h)[At3(w, x', y', c)]
                  else old(out[At3(w, x', y', c)])
    {
      var oin, oout := yoff + x * 3, yoff + (w - x - 1) * 3;
      assert oin == At3(w, x, y, 0) && oout == At3(w, w - 1 - x, y, 0);
      AtUnique(w, w - 1 - x, y);
      MirrorPixel(input[..], w, h, w - 1 - x, y, 0);
      MirrorPixel(input[..], w, h, w - 1 - x, y, 1);
      MirrorPixel(input[..], w, h, w - 1 - x, y, 2);
      out[oout + 0] := input[oin + 0];
      out[oout + 1] := input[oin + 1];
      out[oout + 2] := input[oin + 2];
    }
  }

  lemma SameImage(a: seq<Byte>, b: seq<Byte>, w: nat, h: nat)
    requires |a| == |b| == 3 * (w * h)
    requires forall x: nat, y: nat, c: nat {:trigger At3(w, x, y, c)} ::
             x < w && y < h && c < 3 && At3(w, x, y, c) < |a| ==>
               a[At3(w, x, y, c)] == b[At3(w, x, y, c)]
    ensures a == b
  {
    forall i | 0 <= i < |a|
      ensures a[i] == b[i]
    {
      var x, y, c := PixelOf(w, h, i);
    }
  }

  /** `filter_mirror_v::apply_io`: row copies. */
  method ApplyMirrorV(input: array<Byte>, out: array<Byte>, w: nat, h: nat)
    requires input != out && input.Length == out.Length == 3 * (w * h)
    modifies out
    ensures out[..] == MirrorV(input[..], w, h)
  {
    hide FlipV, MirrorH, MirrorV;
    for y := 0 to h
      invariant forall x: nat, y': nat, c: nat {:trigger At3(w, x, y', c)} ::
                  x < w && h - y <= y' < h && c < 3 && At3(w, x, y', c) < out.Length ==>
                  out[At3(w, x, y', c)] == MirrorV(input[..], w, h)[At3(w, x, y', c)]
    {
      CopyRow(out, w, h, 0, h - y - 1, input, w, h, 0, y, w);
      forall x: nat, c: nat {:trigger At3(w, x, h - y - 1, c)} | x < w && c < 3 && At3(w, x, h - y - 1, c) < out.Length
        ensures out[At3(w, x, h - y - 1, c)] == MirrorV(input[..], w, h)[At3(w, x, h - y - 1, c)]
      {
        MirrorPixel(input[..], w, h, x, h - y - 1, c);
      }
    }
    SameImage(out[..], MirrorV(input[..], w, h), w, h);
  }

  // ---------- the pipeline ----------

  /** A filter either reads one buffer and writes another, or works in place. */
  datatype Filter =
    | HorizontalMirror
    | VerticalMirror
    | InOut(f: seq<Byte> -> seq<Byte>)
    | InPlace(f: seq<Byte> -> seq<Byte>)

  predicate UsesInOut(f: Filter) { !f.InPlace? }

  function Effect(f: Filter, img: seq<Byte>, w: nat, h: nat): seq<Byte>
    requires |img| == 3 * (w * h)
  {
    match f
    case HorizontalMirror => MirrorH(img, w, h)
    case VerticalMirror => MirrorV(img, w, h)
    case InOut(g) => g(img)
    case InPlace(g) => g(img)
  }

  /** Filters write images of the size they are given. */
  ghost predicate KeepSize(fs: seq<Filter>, n: nat) {
    forall k :: 0 <= k < |fs| && (fs[k].InOut? || fs[k].InPlace?) ==> forall img :: |img| == n ==> |fs[k].f(img)| == n
  }

  /** The filters from left to right. */
  function Composed(fs: seq<Filter>, img: seq<Byte>, w: nat, h: nat): (r: seq<Byte>)
    requires |img| == 3 * (w * h) && KeepSize(fs, |img|)
    ensures |r| == |img|
  {
    if fs == [] then img else Effect(fs[|fs| - 1], Composed(fs[..|fs| - 1], img, w, h), w, h)
  }

  method ApplyIo(f: Filter, input: array<Byte>, out: array<Byte>, w: nat, h: nat)
    requires UsesInOut(f) && input != out && input.Length == out.Length == 3 * (w * h) && KeepSize([f], 3 * (w * h))
    modifies out
    ensures out[..] == Effect(f, input[..], w, h)
  {
    match f {
      case HorizontalMirror => ApplyMirrorH(input, out, w, h);
      case VerticalMirror => ApplyMirrorV(input, out, w, h);
      case InOut(g) =>
        assert [f][0] == f;
        CopyBytes(out, 0, g(input[..]));
    }
  }

  method Apply(f: Filter, buffer: array<Byte>, w: nat, h: nat)
    requires f.InPlace? && buffer.Length == 3 * (w * h) && KeepSize([f], 3 * (w * h))
    modifies buffer
    ensures buffer[..] == Effect(f, old(buffer[..]), w, h)
  {
    assert [f][0] == f;
    CopyBytes(buffer, 0, f.f(buffer[..]));
  }

  lemma ComposedStep(fs: seq<Filter>, k: nat, img: seq<Byte>, w: nat, h: nat)
    requires |img| == 3 * (w * h) && KeepSize(fs, |img|) && k < |fs|
    ensures KeepSize([fs[k]], |img|) && KeepSize(fs[..k], |img|) && KeepSize(fs[..k + 1], |img|)
    ensures Composed(fs[..k + 1], img, w, h) == Effect(fs[k], Composed(fs[..k], img, w, h), w, h)
  {
    assert fs[..k + 1][..k] == fs[..k];
  }

  /** `apply_filters`: whatever the mix of filters, and however often the buffers swap roles, the image ends
      up in `work` with the filters applied from left to right. The second buffer is allocated when first needed. */
  method ApplyFilters(fs: seq<Filter>, work: array<Byte>, w: nat, h: nat)
    requires work.Length == 3 * (w * h) && KeepSize(fs, work.Length)
    modifies work
    ensures work[..] == Composed(fs, old(work[..]), w, h)
  {
    hide Effect;
    var bytes := work.Length;
    var temp: array?<Byte> := null;
    var flag := false;
    ghost var img := work[..];
    assert fs[..0] == [];
    for k := 0 to |fs|
      invariant temp != null ==> fresh(temp) && temp.Length == bytes
      invariant flag ==> temp != null
      invariant KeepSize(fs[..k], |img|)
      invariant (if flag then temp[..] else work[..]) == Composed(fs[..k], img, w, h)
    {
      var f := fs[k];
      ComposedStep(fs, k, img, w, h);
      if UsesInOut(f) {
        if temp == null {
          temp := new Byte[bytes];
        }
        if flag == false {
          ApplyIo(f, work, temp, w, h);
        } else {
          ApplyIo(f, temp, work, w, h);
        }
        flag := !flag;
      } else {
        if flag == false {
          Apply(f, work, w, h);
        } else {
          Apply(f, temp, w, h);
        }
      }
    }
    assert fs[..|fs|] == fs;
    if flag == true {
      CopyBytes(work, 0, temp[..]);
    }
  }

  /** The pipeline's last filter acts on what the others gave, whichever buffers it uses. */
  lemma LastFilter(fs: seq<Filter>, f: Filter, img: seq<Byte>, w: nat, h: nat)
    requires |img| == 3 * (w * h) && KeepSize(fs + [f], |img|)
    ensures KeepSize(fs, |img|)
    ensures var before := Composed(fs, img, w, h);
            var after := Composed(fs + [f], img, w, h);
            && (f.InPlace? || f.InOut? ==> after == f.f(before))
            && (f.HorizontalMirror? ==> after == MirrorH(before, w, h))
            && (f.VerticalMirror? ==> after == MirrorV(before, w, h))
  {
    var all := fs + [f];
    assert forall k :: 0 <= k < |fs| ==> all[k] == fs[k];
    assert all[..|fs|] == fs && all[|fs|] == f;
  }

  /** A list of functions applied from left to right. */
  function Folded(gs: seq<seq<Byte> -> seq<Byte>>, img: seq<Byte>): seq<Byte> {
    if gs == [] then img else Folded(gs[1..], gs[0](img))
  }

  lemma {:induction false} FoldedSnoc(gs: seq<seq<Byte> -> seq<Byte>>, g: seq<Byte> -> seq<Byte>, img: seq<Byte>)
    ensures Folded(gs + [g], img) == g(Folded(gs, img))
    decreases |gs|
  {
    if gs == [] {
      assert [g][1..] == [];
    } else {
      assert (gs + [g])[1..] == gs[1..] + [g];
      FoldedSnoc(gs[1..], g, gs[0](img));
    }
  }

  /** A pipeline of filters given by functions, some in place and some not, is the fold of the functions. */
  lemma {:induction false} PipelineFolds(fs: seq<Filter>, gs: seq<seq<Byte> -> seq<Byte>>, img: seq<Byte>, w: nat,
      h: nat)
    requires |img| == 3 * (w * h) && KeepSize(fs, |img|) && |gs| == |fs|
    requires forall k :: 0 <= k < |fs| ==> fs[k] == InPlace(gs[k]) || fs[k] == InOut(gs[k])
    ensures Composed(fs, img, w, h) == Folded(gs, img)
    decreases |fs|
  {
    if fs != [] {
      var n := |fs| - 1;
      var front, gfront := fs[..n], gs[..n];
      assert fs == front + [fs[n]] && gs == gfront + [gs[n]];
      LastFilter(front, fs[n], img, w, h);
      PipelineFolds(front, gfront, img, w, h);
      FoldedSnoc(gfront, gs[n], img);
    }
  }

  ghost function HowMany(fs: seq<Filter>, f: Filter): nat {
    if fs == [] then 0 else HowMany(fs[..|fs| - 1], f) + if fs[|fs| - 1] == f then 1 else 0
  }

  /** Mirrored horizontally and vertically, or not. */
  function Reflected(h: bool, v: bool, img: seq<Byte>, width: nat, height: nat): (r: seq<Byte>)
    requires |img| == 3 * (width * height)
    ensures |r| == |img|
  {
    var across := if h then MirrorH(img, width, height) else img;
    if v then MirrorV(across, width, height) else across
  }

  lemma ReflectedOnce(h: bool, v: bool, img: seq<Byte>, width: nat, height: nat)
    requires |img| == 3 * (width * height)
    ensures MirrorH(Reflected(h, v, img, width, height), width, height) == Reflected(!h, v, img, width, height)
    ensures MirrorV(Reflected(h, v, img, width, height), width, height) == Reflected(h, !v, img, width, height)
  {
    hide MirrorH, MirrorV, Turned;
    var across := if h then MirrorH(img, width, height) else img;
    MirrorsTurn(across, width, height);
    MirrorTwice(img, width, height);
    MirrorTwice(across, width, height);
  }

  ghost predicate Odd(fs: seq<Filter>, f: Filter) { HowMany(fs, f) % 2 == 1 }

  lemma OddSnoc(fs: seq<Filter>, last: Filter, f: Filter)
    ensures Odd(fs + [last], f) <==> (Odd(fs, f) != (last == f))
  {
    assert (fs + [last])[..|fs|] == fs;
  }

  ghost predicate Mirrors(fs: seq<Filter>) {
    forall k :: 0 <= k < |fs| ==> fs[k].HorizontalMirror? || fs[k].VerticalMirror?
  }

  lemma MirrorsKeepSize(fs: seq<Filter>, n: nat)
    requires Mirrors(fs)
    ensures KeepSize(fs, n)
  {
  }

  lemma {:induction false} MirrorParity(fs: seq<Filter>, img: seq<Byte>, w: nat, h: nat)
    requires |img| == 3 * (w * h) && Mirrors(fs)
    ensures KeepSize(fs, |img|)
    ensures Composed(fs, img, w, h) == Reflected(Odd(fs, HorizontalMirror), Odd(fs, VerticalMirror), img, w, h)
  {
    MirrorsKeepSize(fs, |img|);
    hide MirrorH, MirrorV;
    if fs != [] {
      hide KeepSize, Effect, Composed, Odd, Reflected;
      var front, last := fs[..|fs| - 1], fs[|fs| - 1];
      assert fs == front + [last];
      MirrorParity(front, img, w, h);
      LastFilter(front, last, img, w, h);
      OddSnoc(front, last, HorizontalMirror);
      OddSnoc(front, last, VerticalMirror);
      ReflectedOnce(Odd(front, HorizontalMirror), Odd(front, VerticalMirror), img, w, h);
    }
  }

  /** Every pipeline of mirrors, in any order and of any length, depends only on whether it holds an odd number
      of each kind: odd numbers of both turn the image by 180 degrees, even numbers of both change nothing. */
  lemma MirrorPipelines(fs: seq<Filter>, img: seq<Byte>, w: nat, h: nat)
    requires |img| == 3 * (w * h) && Mirrors(fs)
    ensures KeepSize(fs, |img|)
    ensures var (oddH, oddV) := (HowMany(fs, HorizontalMirror) % 2 == 1, HowMany(fs, VerticalMirror) % 2 == 1);
            && Composed(fs, img, w, h) == Reflected(oddH, oddV, img, w, h)
            && (oddH && oddV ==> Composed(fs, img, w, h) == Turned(img, w * h))
            && (!oddH && !oddV ==> Composed(fs, img, w, h) == img)
  {
    hide MirrorH, MirrorV, Turned, Composed, Effect, HowMany;
    MirrorParity(fs, img, w, h);
    MirrorsTurn(img, w, h);
  }
}
