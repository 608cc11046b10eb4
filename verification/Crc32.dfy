/** The CRC-32 of src/main.cpp: a reflected, bit-at-a-time loop with polynomial 0xEDB88320.
    Beside the loop stand the table-driven form of section 8 of RFC 1952, a bit-stream form, and
    the error-detection theorems that make the checksum worth computing. */
module Crc32 {

  type Message = seq<bv8>

  const INITIAL: bv32 := 0xFFFF_FFFF

  // ---------- the register ----------

  /** Divide the register by x, as section 8 of RFC 1952 writes it. */
  function BitStep(crc: bv32): bv32 {
    if crc & 1 == 1 then 0xEDB88320 ^ (crc >> 1) else crc >> 1
  }

  function Xor(a: bv32, b: bv32): bv32 { a ^ b }

  function Up(p: bv32): bv32 { p << 1 }

  function Widen(b: bv8): bv32 { b as bv32 }

  function Steps(crc: bv32, n: nat): bv32
    decreases n
  {
    if n == 0 then crc else Steps(BitStep(crc), n - 1)
  }

  function ByteStep(crc: bv32, b: bv8): bv32 {
    Steps(Xor(crc, Widen(b)), 8)
  }

  /** The register after a message, starting from `crc`. */
  function Register(crc: bv32, msg: Message): bv32
    decreases |msg|
  {
    if msg == [] then crc else Register(ByteStep(crc, msg[0]), msg[1..])
  }

  function Not(x: bv32): bv32 { !x }

  function Checksum(msg: Message): bv32 {
    Not(Register(INITIAL, msg))
  }

  lemma {:induction false} RegisterSplit(crc: bv32, a: Message, b: Message)
    ensures Register(crc, a + b) == Register(Register(crc, a), b)
    decreases |a|
  {
    if a == [] {
      assert a + b == b;
    } else {
      assert (a + b)[1..] == a[1..] + b;
      RegisterSplit(ByteStep(crc, a[0]), a[1..], b);
    }
  }

  lemma {:induction false} StepsSplit(crc: bv32, m: nat, n: nat)
    ensures Steps(crc, m + n) == Steps(Steps(crc, m), n)
    decreases m
  {
    if m > 0 {
      StepsSplit(BitStep(crc), m - 1, n);
    }
  }

  // ---------- facts about single bits ----------

  lemma LowBit(a: bv32)
    ensures a & 1 == 0 || a & 1 == 1
  {
  }

  lemma XorOfBits(x: bv32, y: bv32)
    requires (x == 0 || x == 1) && (y == 0 || y == 1)
    ensures x ^ y == if x == y then 0 else 1
  {
  }

  lemma ShiftXor(a: bv32, b: bv32)
    ensures (a ^ b) >> 1 == (a >> 1) ^ (b >> 1)
    ensures (a ^ b) & 1 == (a & 1) ^ (b & 1)
  {
  }

  lemma XorWithConstant(a: bv32, b: bv32, c: bv32)
    ensures (c ^ a) ^ (c ^ b) == a ^ b
    ensures (c ^ a) ^ b == c ^ (a ^ b)
    ensures a ^ (c ^ b) == c ^ (a ^ b)
  {
  }

  lemma XorAssociative(a: bv32, b: bv32, c: bv32)
    ensures Xor(Xor(a, b), c) == Xor(a, Xor(b, c))
  {
  }

  lemma XorCommutes(a: bv32, b: bv32)
    ensures Xor(a, b) == Xor(b, a)
  {
  }

  lemma XorCancels(s: bv32, a: bv32, b: bv32)
    requires Xor(s, a) == Xor(s, b) || Xor(a, s) == Xor(b, s)
    ensures a == b
  {
  }

  lemma AllOnes(bit: bv32)
    requires bit == 0 || bit == 1
    ensures 0 - bit == if bit == 1 then 0xFFFF_FFFF else 0
  {
  }

  lemma Masked(crc: bv32, mask: bv32)
    ensures mask == 0xFFFF_FFFF ==> (crc >> 1) ^ (0xEDB88320 & mask) == 0xEDB88320 ^ (crc >> 1)
    ensures mask == 0 ==> (crc >> 1) ^ (0xEDB88320 & mask) == crc >> 1
  {
  }

  /** One turn of the source's inner loop. */
  function MaskedStep(crc: bv32): (r: bv32)
    ensures r == BitStep(crc)
  {
    LowBit(crc);
    AllOnes(crc & 1);
    var mask := 0 - (crc & 1);
    Masked(crc, mask);
    (crc >> 1) ^ (0xEDB88320 & mask)
  }

  /** `crc32b`: the nested loops compute the checksum of the first `n` bytes. */
  method Crc32b(input: array<bv8>, n: nat) returns (result: bv32)
    requires n <= input.Length
    ensures result == Checksum(input[..n])
  {
    hide Xor, BitStep, Widen, Not;
    var crc: bv32 := 0xFFFF_FFFF;
    var i := 0;
    while i < n
      invariant 0 <= i <= n
      invariant crc == Register(INITIAL, input[..i])
    {
      ghost var before := crc;
      crc := Xor(crc, Widen(input[i]));
      ghost var mixed := crc;
      var j := 0;
      while j < 8
        invariant 0 <= j <= 8
        invariant crc == Steps(mixed, j)
      {
        StepsSplit(mixed, j, 1);
        crc := MaskedStep(crc);
        j := j + 1;
      }
      assert input[..i + 1] == input[..i] + [input[i]];
      RegisterSplit(INITIAL, input[..i], [input[i]]);
      i := i + 1;
    }
    result := Not(crc);
  }

  // ---------- linearity and injectivity ----------

  lemma RawBitStepLinear(a: bv32, b: bv32)
    ensures BitStep(a ^ b) == BitStep(a) ^ BitStep(b)
  {
    ShiftXor(a, b);
    LowBit(a);
    LowBit(b);
    XorOfBits(a & 1, b & 1);
    XorWithConstant(a >> 1, b >> 1, 0xEDB88320);
  }

  lemma BitStepLinear(a: bv32, b: bv32)
    ensures BitStep(Xor(a, b)) == Xor(BitStep(a), BitStep(b))
  {
    RawBitStepLinear(a, b);
  }

  lemma BitStepInjective(a: bv32, b: bv32)
    requires BitStep(a) == BitStep(b)
    ensures a == b
  {
  }

  lemma {:induction false} StepsLinear(a: bv32, b: bv32, n: nat)
    ensures Steps(Xor(a, b), n) == Xor(Steps(a, n), Steps(b, n))
    decreases n
  {
    if n > 0 {
      BitStepLinear(a, b);
      StepsLinear(BitStep(a), BitStep(b), n - 1);
    }
  }

  lemma {:induction false} StepsInjective(a: bv32, b: bv32, n: nat)
    requires Steps(a, n) == Steps(b, n)
    ensures a == b
    decreases n
  {
    if n > 0 {
      StepsInjective(BitStep(a), BitStep(b), n - 1);
      BitStepInjective(a, b);
    }
  }

  lemma ShiftedOut(p: bv32)
    requires p < 0x8000_0000
    ensures (p << 1) & 1 == 0 && (p << 1) >> 1 == p
  {
  }

  lemma StepDown(p: bv32)
    requires p < 0x8000_0000
    ensures BitStep(Up(p)) == p
  {
    ShiftedOut(p);
  }

  /** Bits waiting one place up come down unchanged. */
  lemma ShiftIn(a: bv32, p: bv32)
    requires p < 0x8000_0000
    ensures BitStep(Xor(a, Up(p))) == Xor(BitStep(a), p)
  {
    BitStepLinear(a, Up(p));
    StepDown(p);
  }

  // ---------- affinity: crc(a) ^ crc(b) ^ crc(c) == crc(a ^ b ^ c) ----------

  function Xor3(a: Message, b: Message, c: Message): (r: Message)
    requires |a| == |b| == |c|
    ensures |r| == |a|
  {
    if a == [] then [] else [a[0] ^ b[0] ^ c[0]] + Xor3(a[1..], b[1..], c[1..])
  }

  function XorAll(r: bv32, s: bv32, t: bv32): bv32 { Xor(Xor(r, s), t) }

  lemma WidenXor(x: bv8, y: bv8, z: bv8)
    ensures Widen(x ^ y ^ z) == XorAll(Widen(x), Widen(y), Widen(z))
  {
  }

  lemma MiddleSwap(a: bv32, b: bv32, c: bv32, d: bv32)
    ensures Xor(Xor(a, b), Xor(c, d)) == Xor(Xor(a, c), Xor(b, d))
  {
    hide Xor;
    XorAssociative(a, b, Xor(c, d));
    XorAssociative(b, c, d);
    XorCommutes(b, c);
    XorAssociative(c, b, d);
    XorAssociative(a, c, Xor(b, d));
  }

  lemma Regroup(r: bv32, s: bv32, t: bv32, x: bv32, y: bv32, z: bv32)
    ensures Xor(XorAll(r, s, t), XorAll(x, y, z)) == XorAll(Xor(r, x), Xor(s, y), Xor(t, z))
  {
    hide Xor;
    MiddleSwap(Xor(r, s), t, Xor(x, y), z);
    MiddleSwap(r, s, x, y);
  }

  lemma ByteStepAffine(r: bv32, s: bv32, t: bv32, x: bv8, y: bv8, z: bv8)
    ensures ByteStep(XorAll(r, s, t), x ^ y ^ z) == XorAll(ByteStep(r, x), ByteStep(s, y), ByteStep(t, z))
  {
    WidenXor(x, y, z);
    Regroup(r, s, t, Widen(x), Widen(y), Widen(z));
    var r', s', t' := Xor(r, Widen(x)), Xor(s, Widen(y)), Xor(t, Widen(z));
    StepsLinear(Xor(r', s'), t', 8);
    StepsLinear(r', s', 8);
  }

  lemma {:induction false} RegisterAffine(r: bv32, s: bv32, t: bv32, a: Message, b: Message, c: Message)
    requires |a| == |b| == |c|
    ensures Register(XorAll(r, s, t), Xor3(a, b, c)) == XorAll(Register(r, a), Register(s, b), Register(t, c))
    decreases |a|
  {
    if a != [] {
      ByteStepAffine(r, s, t, a[0], b[0], c[0]);
      assert Xor3(a, b, c)[1..] == Xor3(a[1..], b[1..], c[1..]);
      RegisterAffine(ByteStep(r, a[0]), ByteStep(s, b[0]), ByteStep(t, c[0]), a[1..], b[1..], c[1..]);
    }
  }

  lemma ThreeOnes()
    ensures XorAll(0xFFFF_FFFF, 0xFFFF_FFFF, 0xFFFF_FFFF) == 0xFFFF_FFFF
  {
  }

  lemma Complement(x: bv32)
    ensures Not(x) == Xor(x, INITIAL)
  {
  }

  lemma ChecksumAffine(a: Message, b: Message, c: Message)
    requires |a| == |b| == |c|
    ensures Xor(Xor(Checksum(a), Checksum(b)), Checksum(c)) == Checksum(Xor3(a, b, c))
  {
    hide Xor;
    ThreeOnes();
    RegisterAffine(INITIAL, INITIAL, INITIAL, a, b, c);
    var x, y, z := Register(INITIAL, a), Register(INITIAL, b), Register(INITIAL, c);
    Complement(x);
    Complement(y);
    Complement(z);
    Complement(XorAll(x, y, z));
    Regroup(x, y, z, INITIAL, INITIAL, INITIAL);
  }

  // ---------- the table-driven form of section 8 of RFC 1952 ----------

  function TableEntry(index: bv8): bv32 {
    Steps(Widen(index), 8)
  }

  function LowByte(crc: bv32): bv8 { (crc & 0xFF) as bv8 }

  function UpperBytes(crc: bv32): bv32 { crc >> 8 }

  function TableRegister(crc: bv32, msg: Message): bv32
    decreases |msg|
  {
    if msg == [] then crc
    else TableRegister(Xor(TableEntry(LowByte(Xor(crc, Widen(msg[0])))), UpperBytes(crc)), msg[1..])
  }

  function Up4(p: bv32): bv32 { Up(Up(Up(Up(p)))) }

  lemma RoomForFour(p: bv32)
    requires p < 0x1000_0000
    ensures p < 0x8000_0000 && Up(p) < 0x8000_0000
    ensures Up(Up(p)) < 0x8000_0000 && Up(Up(Up(p))) < 0x8000_0000
  {
  }

  lemma ShiftInFour(a: bv32, p: bv32)
    requires p < 0x1000_0000
    ensures Steps(Xor(a, Up4(p)), 4) == Xor(Steps(a, 4), p)
  {
    RoomForFour(p);
    var a1 := BitStep(a);
    var a2 := BitStep(a1);
    var a3 := BitStep(a2);
    ShiftIn(a, Up(Up(Up(p))));
    ShiftIn(a1, Up(Up(p)));
    ShiftIn(a2, Up(p));
    ShiftIn(a3, p);
    assert Steps(a, 4) == BitStep(a3);
  }

  function Up8(p: bv32): bv32 { p << 8 }

  lemma TwoNibbles(p: bv32)
    requires p < 0x0100_0000
    ensures Up4(p) < 0x1000_0000 && Up4(Up4(p)) == Up8(p)
  {
  }

  lemma ShiftInByte(a: bv32, p: bv32)
    requires p < 0x0100_0000
    ensures Steps(Xor(a, Up8(p)), 8) == Xor(Steps(a, 8), p)
  {
    hide Xor, Up8, Up4, BitStep;
    TwoNibbles(p);
    ShiftInFour(a, Up4(p));
    ShiftInFour(Steps(a, 4), p);
    StepsSplit(Xor(a, Up8(p)), 4, 4);
    StepsSplit(a, 4, 4);
  }

  lemma SplitLowByte(crc: bv32, b: bv8)
    ensures UpperBytes(crc) < 0x0100_0000
    ensures Xor(crc, Widen(b)) == Xor(Widen(LowByte(Xor(crc, Widen(b)))), Up8(UpperBytes(crc)))
  {
  }

  /** The bit loop computes the same register as the table of RFC 1952. */
  lemma {:induction false} TableDriven(crc: bv32, msg: Message)
    ensures TableRegister(crc, msg) == Register(crc, msg)
    decreases |msg|
  {
    if msg != [] {
      var index := LowByte(Xor(crc, Widen(msg[0])));
      SplitLowByte(crc, msg[0]);
      ShiftInByte(Widen(index), UpperBytes(crc));
      TableDriven(ByteStep(crc, msg[0]), msg[1..]);
    }
  }

  // ---------- the message as a stream of bits, least significant bit first ----------

  function Bit(b: bool): bv32 { if b then 1 else 0 }

  function BitRegister(crc: bv32, bits: seq<bool>): bv32
    decreases |bits|
  {
    if bits == [] then crc else BitRegister(BitStep(Xor(crc, Bit(bits[0]))), bits[1..])
  }

  function LowBits(x: bv32, n: nat): (bits: seq<bool>)
    ensures |bits| == n
    decreases n
  {
    if n == 0 then [] else [x & 1 == 1] + LowBits(x >> 1, n - 1)
  }

  function BitsOf(b: bv8): (bits: seq<bool>)
    ensures |bits| == 8
  {
    LowBits(Widen(b), 8)
  }

  function MessageBits(msg: Message): (bits: seq<bool>)
    ensures |bits| == 8 * |msg|
  {
    if msg == [] then [] else BitsOf(msg[0]) + MessageBits(msg[1..])
  }

  function Pack(bits: seq<bool>): bv32 {
    if bits == [] then 0 else Xor(Bit(bits[0]), Up(Pack(bits[1..])))
  }

  lemma {:induction false} BitRegisterSplit(crc: bv32, a: seq<bool>, b: seq<bool>)
    ensures BitRegister(crc, a + b) == BitRegister(BitRegister(crc, a), b)
    decreases |a|
  {
    if a == [] {
      assert a + b == b;
    } else {
      assert (a + b)[1..] == a[1..] + b;
      BitRegisterSplit(BitStep(Xor(crc, Bit(a[0]))), a[1..], b);
    }
  }

  lemma {:induction false} BitRegisterInjective(s: bv32, t: bv32, bits: seq<bool>)
    requires BitRegister(s, bits) == BitRegister(t, bits)
    ensures s == t
    decreases |bits|
  {
    if bits != [] {
      var b := Bit(bits[0]);
      BitRegisterInjective(BitStep(Xor(s, b)), BitStep(Xor(t, b)), bits[1..]);
      BitStepInjective(Xor(s, b), Xor(t, b));
      XorCancels(b, s, t);
    }
  }

  /** The number is below 2^n, for n up to 32. */
  predicate Fits(p: bv32, n: nat)
    decreases 32 - n
  {
    n >= 32 || (p < 0x8000_0000 && Fits(Up(p), n + 1))
  }

  lemma UpXor(p: bv32, q: bv32)
    ensures Up(Xor(p, q)) == Xor(Up(p), Up(q))
    ensures p < 0x8000_0000 && q < 0x8000_0000 ==> Xor(p, q) < 0x8000_0000
  {
  }

  lemma {:induction false} FitsXor(p: bv32, q: bv32, n: nat)
    requires Fits(p, n) && Fits(q, n)
    ensures Fits(Xor(p, q), n)
    decreases 32 - n
  {
    if n < 32 {
      UpXor(p, q);
      FitsXor(Up(p), Up(q), n + 1);
    }
  }

  lemma {:induction false} FitsMore(p: bv32, n: nat)
    requires Fits(p, n)
    ensures Fits(p, n + 1)
    decreases 32 - n
  {
    if n < 32 {
      FitsMore(Up(p), n + 1);
    }
  }

  lemma {:induction false} ZeroFits(n: nat)
    ensures Fits(0, n)
    decreases 32 - n
  {
    if n < 32 {
      assert Up(0) == 0;
      ZeroFits(n + 1);
    }
  }

  lemma {:induction false} OneFits(n: nat)
    requires n >= 1
    ensures Fits(1, n)
  {
    if n == 1 {
      assert Fits(0x4000_0000, 31);
      assert Fits(0x0400_0000, 27);
      assert Fits(0x0040_0000, 23);
      assert Fits(0x0004_0000, 19);
      assert Fits(0x0000_4000, 15);
      assert Fits(0x0000_0400, 11);
      assert Fits(0x0000_0040, 7);
      assert Fits(0x0000_0004, 3);
    } else {
      OneFits(n - 1);
      FitsMore(1, n - 1);
    }
  }

  lemma {:induction false} PackFits(bits: seq<bool>)
    requires |bits| <= 32
    ensures Fits(Pack(bits), |bits|)
  {
    if bits == [] {
      ZeroFits(0);
    } else {
      PackFits(bits[1..]);
      OneFits(|bits|);
      ZeroFits(|bits|);
      FitsXor(Bit(bits[0]), Up(Pack(bits[1..])), |bits|);
    }
  }

  /** Feeding up to 32 bits one at a time is feeding them all at once and then stepping. */
  lemma {:induction false} PackedSteps(s: bv32, bits: seq<bool>)
    requires |bits| <= 32
    ensures BitRegister(s, bits) == Steps(Xor(s, Pack(bits)), |bits|)
    decreases |bits|
  {
    hide Xor, Up, BitStep;
    if bits == [] {
      XorZero(s);
    } else {
      var b, p := Bit(bits[0]), Pack(bits[1..]);
      PackFits(bits[1..]);
      XorAssociative(s, b, Up(p));
      ShiftIn(Xor(s, b), p);
      PackedSteps(BitStep(Xor(s, b)), bits[1..]);
    }
  }

  lemma XorZero(s: bv32)
    ensures Xor(s, 0) == s
  {
  }

  lemma PackParts(x: bool, y: bool, p: bv32, q: bv32)
    requires p < 0x8000_0000 && q < 0x8000_0000
    requires Xor(Bit(x), Up(p)) == Xor(Bit(y), Up(q))
    ensures x == y && p == q
  {
  }

  lemma {:induction false} PackInjective(u: seq<bool>, v: seq<bool>)
    requires |u| == |v| <= 32
    requires Pack(u) == Pack(v)
    ensures u == v
  {
    if u != [] {
      PackFits(u[1..]);
      PackFits(v[1..]);
      PackParts(u[0], v[0], Pack(u[1..]), Pack(v[1..]));
      PackInjective(u[1..], v[1..]);
      assert u == [u[0]] + u[1..] && v == [v[0]] + v[1..];
    }
  }

  /** A window of at most 32 bits is an injective function into the register. */
  lemma BitWindowInjective(s: bv32, u: seq<bool>, v: seq<bool>)
    requires |u| == |v| <= 32
    requires BitRegister(s, u) == BitRegister(s, v)
    ensures u == v
  {
    PackedSteps(s, u);
    PackedSteps(s, v);
    StepsInjective(Xor(s, Pack(u)), Xor(s, Pack(v)), |u|);
    XorCancels(s, Pack(u), Pack(v));
    PackInjective(u, v);
  }

  /** The number is below 2^n, counting down. */
  predicate Below(x: bv32, n: nat)
    decreases n
  {
    if n == 0 then x == 0 else Below(x >> 1, n - 1)
  }

  lemma ByteBelow(x: bv32)
    requires x <= 0xFF
    ensures Below(x, 8)
  {
    Halving(x);
    var x4 := x >> 1 >> 1 >> 1 >> 1;
    assert Below(x4, 4);
  }

  lemma Halving(x: bv32)
    ensures x <= 0xFF ==> x >> 1 >> 1 >> 1 >> 1 <= 0xF
    ensures x <= 0xF ==> x >> 1 >> 1 >> 1 >> 1 == 0
  {
  }

  lemma LowBitApart(x: bv32)
    ensures Xor(Bit(x & 1 == 1), Up(x >> 1)) == x
  {
  }

  lemma {:induction false} PackLowBits(x: bv32, n: nat)
    requires Below(x, n)
    ensures Pack(LowBits(x, n)) == x
    decreases n
  {
    if n > 0 {
      PackLowBits(x >> 1, n - 1);
      LowBitApart(x);
      assert LowBits(x, n)[1..] == LowBits(x >> 1, n - 1);
    }
  }

  lemma WidenBelow(b: bv8)
    ensures Widen(b) <= 0xFF
  {
  }

  lemma {:induction false} MessageAsBits(crc: bv32, msg: Message)
    ensures Register(crc, msg) == BitRegister(crc, MessageBits(msg))
    decreases |msg|
  {
    if msg != [] {
      var octet := BitsOf(msg[0]);
      WidenBelow(msg[0]);
      ByteBelow(Widen(msg[0]));
      PackLowBits(Widen(msg[0]), 8);
      PackedSteps(crc, octet);
      BitRegisterSplit(crc, octet, MessageBits(msg[1..]));
      MessageAsBits(ByteStep(crc, msg[0]), msg[1..]);
    }
  }

  // ---------- error detection ----------

  lemma SameRegister(m: Message, m': Message)
    requires Checksum(m) == Checksum(m')
    ensures Register(INITIAL, m) == Register(INITIAL, m')
  {
    hide Register;
    ComplementTwice(Register(INITIAL, m));
    ComplementTwice(Register(INITIAL, m'));
  }

  lemma ComplementTwice(x: bv32)
    ensures Not(Not(x)) == x
  {
  }

  lemma BitStreamsDiffer(s: bv32, before: seq<bool>, u: seq<bool>, v: seq<bool>, after: seq<bool>)
    requires |u| == |v| <= 32
    requires BitRegister(s, before + u + after) == BitRegister(s, before + v + after)
    ensures u == v
  {
    BitRegisterSplit(s, before + u, after);
    BitRegisterSplit(s, before + v, after);
    BitRegisterSplit(s, before, u);
    BitRegisterSplit(s, before, v);
    var t := BitRegister(s, before);
    BitRegisterInjective(BitRegister(t, u), BitRegister(t, v), after);
    BitWindowInjective(t, u, v);
  }

  /** Every error burst of at most 32 bits, wherever it lies and however long the message, is detected. */
  lemma BurstDetected(m: Message, m': Message, before: seq<bool>, u: seq<bool>, v: seq<bool>, after: seq<bool>)
    requires MessageBits(m) == before + u + after
    requires MessageBits(m') == before + v + after
    requires |u| == |v| <= 32 && u != v
    ensures Checksum(m) != Checksum(m')
  {
    hide BitRegister, Register, MessageBits, Checksum;
    if Checksum(m) == Checksum(m') {
      SameRegister(m, m');
      MessageAsBits(INITIAL, m);
      MessageAsBits(INITIAL, m');
      BitStreamsDiffer(INITIAL, before, u, v, after);
    }
  }

  lemma {:induction false} MessageBitsSplit(a: Message, b: Message)
    ensures MessageBits(a + b) == MessageBits(a) + MessageBits(b)
  {
    if a == [] {
      assert a + b == b;
    } else {
      assert (a + b)[1..] == a[1..] + b;
      MessageBitsSplit(a[1..], b);
    }
  }

  lemma {:induction false} MessageBitsInjective(a: Message, b: Message)
    requires |a| == |b| && MessageBits(a) == MessageBits(b)
    ensures a == b
  {
    if a != [] {
      assert MessageBits(a)[..8] == BitsOf(a[0]) && MessageBits(b)[..8] == BitsOf(b[0]);
      assert MessageBits(a)[8..] == MessageBits(a[1..]) && MessageBits(b)[8..] == MessageBits(b[1..]);
      WidenBelow(a[0]);
      WidenBelow(b[0]);
      ByteBelow(Widen(a[0]));
      ByteBelow(Widen(b[0]));
      PackLowBits(Widen(a[0]), 8);
      PackLowBits(Widen(b[0]), 8);
      WidenInjective(a[0], b[0]);
      MessageBitsInjective(a[1..], b[1..]);
      assert a == [a[0]] + a[1..] && b == [b[0]] + b[1..];
    }
  }

  lemma WidenInjective(x: bv8, y: bv8)
    requires Widen(x) == Widen(y)
    ensures x == y
  {
  }

  /** In particular, altering any window of at most 4 consecutive bytes changes the checksum. */
  lemma WindowDetected(before: Message, w: Message, w': Message, after: Message)
    requires |w| == |w'| <= 4 && w != w'
    ensures Checksum(before + w + after) != Checksum(before + w' + after)
  {
    MessageBitsSplit(before + w, after);
    MessageBitsSplit(before + w', after);
    MessageBitsSplit(before, w);
    MessageBitsSplit(before, w');
    if MessageBits(w) == MessageBits(w') {
      MessageBitsInjective(w, w');
    }
    BurstDetected(before + w + after, before + w' + after,
                  MessageBits(before), MessageBits(w), MessageBits(w'), MessageBits(after));
  }

  // ---------- the residue: a message followed by its own checksum ----------

  function LittleEndian(x: bv32): Message {
    [LowByte(x), LowByte(UpperBytes(x)), LowByte(UpperBytes(UpperBytes(x))),
     LowByte(UpperBytes(UpperBytes(UpperBytes(x))))]
  }

  lemma BytesApart(x: bv32)
    ensures UpperBytes(x) < 0x0100_0000
    ensures Xor(Widen(LowByte(x)), Up8(UpperBytes(x))) == x
  {
  }

  /** Feeding the lowest byte first leaves the other bytes to be fed. */
  lemma FeedLowByte(s: bv32, x: bv32)
    ensures Steps(Xor(s, x), 8) == Xor(ByteStep(s, LowByte(x)), UpperBytes(x))
  {
    hide Xor, Up8, BitStep, LowByte, UpperBytes;
    BytesApart(x);
    XorAssociative(s, Widen(LowByte(x)), Up8(UpperBytes(x)));
    ShiftInByte(Xor(s, Widen(LowByte(x))), UpperBytes(x));
  }

  lemma NothingLeft(x: bv32)
    ensures UpperBytes(UpperBytes(UpperBytes(UpperBytes(x)))) == 0
  {
  }

  lemma FeedWord(s: bv32, x: bv32)
    ensures Register(s, LittleEndian(x)) == Steps(Xor(s, x), 32)
  {
    hide Xor, BitStep, LowByte, UpperBytes, ByteStep, Steps;
    var x1 := UpperBytes(x);
    var x2 := UpperBytes(x1);
    var x3 := UpperBytes(x2);
    var s1 := ByteStep(s, LowByte(x));
    var s2 := ByteStep(s1, LowByte(x1));
    var s3 := ByteStep(s2, LowByte(x2));
    var s4 := ByteStep(s3, LowByte(x3));
    FeedLowByte(s, x);
    FeedLowByte(s1, x1);
    FeedLowByte(s2, x2);
    FeedLowByte(s3, x3);
    NothingLeft(x);
    XorZero(s4);
    StepsSplit(Xor(s, x), 8, 24);
    StepsSplit(Xor(s1, x1), 8, 16);
    StepsSplit(Xor(s2, x2), 8, 8);
    FourBytes(s, LowByte(x), LowByte(x1), LowByte(x2), LowByte(x3));
  }

  lemma FourBytes(s: bv32, b0: bv8, b1: bv8, b2: bv8, b3: bv8)
    ensures Register(s, [b0, b1, b2, b3]) == ByteStep(ByteStep(ByteStep(ByteStep(s, b0), b1), b2), b3)
  {
    hide ByteStep;
    var s1, s2 := ByteStep(s, b0), ByteStep(ByteStep(s, b0), b1);
    assert [b0, b1, b2, b3] == [b0, b1] + [b2, b3];
    RegisterSplit(s, [b0, b1], [b2, b3]);
    TwoBytes(s, b0, b1);
    TwoBytes(s2, b2, b3);
  }

  lemma TwoBytes(s: bv32, b0: bv8, b1: bv8)
    ensures Register(s, [b0, b1]) == ByteStep(ByteStep(s, b0), b1)
  {
    hide ByteStep;
    assert [b0, b1][1..] == [b1];
    assert Register(ByteStep(s, b0), [b1]) == ByteStep(ByteStep(s, b0), b1);
  }

  lemma EightZeroBits()
    ensures Steps(0xBE26_ED00, 8) == 0x00BE_26ED
  {
    hide BitStep;
    assert Xor(0, Up8(0x00BE_26ED)) == 0xBE26_ED00;
    ShiftInByte(0, 0x00BE_26ED);
    ZeroSteps(8);
    XorCommutes(0, 0x00BE_26ED);
    XorZero(0x00BE_26ED);
  }

  lemma {:induction false} ZeroSteps(n: nat)
    ensures Steps(0, n) == 0
  {
    if n > 0 {
      ZeroSteps(n - 1);
    }
  }

  lemma StepsOfOnes()
    ensures Steps(0xFFFF_FFFF, 32) == 0xDEBB_20E3
  {
    FourSteps(0xFFFF_FFFF, 28, 0xB242_0DE3);
    FourSteps(0xB242_0DE3, 24, 0x2DFD_1072);
    FourSteps(0x2DFD_1072, 20, 0x39B1_F1CF);
    FourSteps(0x39B1_F1CF, 16, 0xBE26_ED00);
    EightZeroBits();
    StepsSplit(0xBE26_ED00, 8, 8);
    FourSteps(0x00BE_26ED, 4, 0x86D8_30BA);
    FourSteps(0x86D8_30BA, 0, 0xDEBB_20E3);
  }

  lemma FourSteps(crc: bv32, n: nat, next: bv32)
    requires BitStep(BitStep(BitStep(BitStep(crc)))) == next
    ensures Steps(crc, n + 4) == Steps(next, n)
  {
    hide BitStep;
    StepsSplit(crc, 2, n + 2);
    StepsSplit(BitStep(BitStep(crc)), 2, n);
    assert Steps(crc, 2) == BitStep(BitStep(crc));
    assert Steps(BitStep(BitStep(crc)), 2) == next;
  }

  lemma WithComplement(s: bv32)
    ensures Xor(s, Not(s)) == 0xFFFF_FFFF
  {
  }

  lemma ResidueComplement()
    ensures Not(0x2144_DF1C) == 0xDEBB_20E3
  {
  }

  /** A receiver that checks message and appended checksum together accepts exactly the right checksum. */
  lemma ResidueIdentifiesChecksum(msg: Message, x: bv32)
    ensures Checksum(msg + LittleEndian(x)) == 0x2144_DF1C <==> x == Checksum(msg)
  {
    hide Xor, Not, Register, Steps, LittleEndian;
    var s := Register(INITIAL, msg);
    RegisterSplit(INITIAL, msg, LittleEndian(x));
    FeedWord(s, x);
    StepsOfOnes();
    WithComplement(s);
    ResidueComplement();
    ComplementTwice(0x2144_DF1C);
    ComplementTwice(Steps(Xor(s, x), 32));
    if Steps(Xor(s, x), 32) == 0xDEBB_20E3 {
      StepsInjective(Xor(s, x), 0xFFFF_FFFF, 32);
      XorCancels(s, x, Not(s));
    }
  }
}
