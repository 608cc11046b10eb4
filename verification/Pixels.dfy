/** Row-major pixel buffers: the index arithmetic every image routine of the program shares. */
module Pixels {

  type Byte = x: int | 0 <= x < 256

  /** Index of pixel (x, y) in a one-byte-per-pixel image of width `w`. */
  function At(w: nat, x: nat, y: nat): nat { y * w + x }

  /** Index of channel `c` of pixel (x, y) in a three-bytes-per-pixel image of width `w`. */
  function At3(w: nat, x: nat, y: nat, c: nat): nat { 3 * At(w, x, y) + c }

  lemma AtInBounds(w: nat, h: nat, x: nat, y: nat)
    requires x < w && y < h
    ensures At(w, x, y) < w * h
  {
    assert (y + 1) * w <= h * w;
  }

  lemma AtIncreases(w: nat, x: nat, y: nat, x': nat, y': nat)
    requires x < w
    ensures y < y' ==> At(w, x, y) < At(w, x', y')
  {
    if y < y' {
      assert (y + 1) * w <= y' * w;
    }
  }

  lemma AtInjective(w: nat, x: nat, y: nat, x': nat, y': nat)
    requires x < w && x' < w
    requires At(w, x, y) == At(w, x', y')
    ensures x == x' && y == y'
  {
    AtIncreases(w, x, y, x', y');
    AtIncreases(w, x', y', x, y);
  }

  /** No other pixel shares the index of (x, y). */
  lemma AtUnique(w: nat, x: nat, y: nat)
    requires x < w
    ensures forall x': nat, y': nat {:trigger At(w, x', y')} ::
              x' < w && At(w, x', y') == At(w, x, y) ==> x' == x && y' == y
  {
    forall x': nat, y': nat | x' < w && At(w, x', y') == At(w, x, y)
      ensures x' == x && y' == y
    {
      AtInjective(w, x, y, x', y');
    }
  }

  /** Every index below w * h is the index of a pixel. */
  lemma AtSurjective(w: nat, h: nat, i: nat)
    requires i < w * h
    ensures w > 0 && i % w < w && i / w < h && At(w, i % w, i / w) == i
  {
    AtIncreases(w, 0, h - 1, i % w, i / w);
    if i / w > h - 1 {
      assert i / w * w >= h * w by { MulMonotone(h, i / w, w); }
      assert false;
    }
  }

  lemma MulMonotone(a: int, b: int, w: nat)
    ensures a <= b ==> a * w <= b * w
  {
  }

  /** `src` overwrites the bytes of `dst` from `to` on. */
  method CopyBytes(dst: array<Byte>, to: nat, src: seq<Byte>)
    requires to + |src| <= dst.Length
    modifies dst
    ensures forall i :: 0 <= i < dst.Length ==> dst[i] == if to <= i < to + |src| then src[i - to] else old(dst[i])
  {
    forall i | 0 <= i < |src| {
      dst[to + i] := src[i];
    }
  }
}
