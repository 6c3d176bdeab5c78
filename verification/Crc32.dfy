/** The bitwise CRC-32 of PNG chunks, and the bursts of errors it always detects. */
module Crc32 {

  const POLYNOMIAL: bv32 := 0xedb8_8320
  const ONES: bv32 := 0xffff_ffff
  const TOP: bv32 := 0x8000_0000

  // ---- the register ----

  function Xor(a: bv32, b: bv32): bv32 { a ^ b }

  function Half(a: bv32): bv32 { a >> 1 }

  predicate Odd(a: bv32) { a & 1 != 0 }

  function BitStep(crc: bv32): bv32 {
    if Odd(crc) then Xor(Half(crc), POLYNOMIAL) else Half(crc)
  }

  function Steps(crc: bv32, n: nat): bv32
    decreases n
  {
    if n == 0 then crc else Steps(BitStep(crc), n - 1)
  }

  function Absorb(crc: bv32, bytes: seq<bv8>): bv32
    decreases |bytes|
  {
    if bytes == [] then crc else Absorb(Steps(Xor(crc, bytes[0] as bv32), 8), bytes[1..])
  }

  function Crc(bytes: seq<bv8>): bv32 {
    Xor(Absorb(ONES, bytes), ONES)
  }

  method PngCrc32(bytes: seq<bv8>) returns (crc: bv32)
    ensures crc == Crc(bytes)
  {
    hide Steps, Xor;
    crc := ONES;
    var i := 0;
    while i < |bytes|
      invariant i <= |bytes|
      invariant Absorb(crc, bytes[i..]) == Absorb(ONES, bytes)
    {
      assert bytes[i..][1..] == bytes[i + 1..];
      crc := EightSteps(Xor(crc, bytes[i] as bv32));
      i := i + 1;
    }
    crc := Xor(crc, ONES);
  }

  method EightSteps(start: bv32) returns (crc: bv32)
    ensures crc == Steps(start, 8)
  {
    crc := start;
    var bit := 0;
    while bit < 8
      invariant bit <= 8
      invariant Steps(crc, 8 - bit) == Steps(start, 8)
    {
      crc := if crc & 1 != 0 then (crc >> 1) ^ POLYNOMIAL else crc >> 1;
      bit := bit + 1;
    }
  }

  /** The value in the IEND chunk of every PNG file. */
  lemma IendCrc()
    ensures Crc([73, 69, 78, 68]) == 0xae42_6082
  {
  }

  // ---- the same register fed one bit at a time, least significant bit first ----

  function Bit(b: bool): bv32 {
    if b then 1 else 0
  }

  function BitAbsorb(crc: bv32, bits: seq<bool>): bv32
    decreases |bits|
  {
    if bits == [] then crc else BitAbsorb(BitStep(Xor(crc, Bit(bits[0]))), bits[1..])
  }

  function LowBits(w: bv32, n: nat): (bits: seq<bool>)
    ensures |bits| == n
    decreases n
  {
    if n == 0 then [] else [Odd(w)] + LowBits(Half(w), n - 1)
  }

  function Shift(w: bv32, n: nat): bv32
    decreases n
  {
    if n == 0 then w else Shift(Half(w), n - 1)
  }

  function Bits(bytes: seq<bv8>): (bits: seq<bool>)
    ensures |bits| == 8 * |bytes|
  {
    if bytes == [] then [] else LowBits(bytes[0] as bv32, 8) + Bits(bytes[1..])
  }

  lemma XorComm(a: bv32, b: bv32)
    ensures Xor(a, b) == Xor(b, a)
  {
  }

  lemma XorAssoc(a: bv32, b: bv32, c: bv32)
    ensures Xor(Xor(a, b), c) == Xor(a, Xor(b, c))
  {
  }

  lemma XorZero(a: bv32)
    ensures Xor(a, 0) == a && Xor(a, a) == 0 && Xor(a, Bit(false)) == a
  {
  }

  lemma XorTwice(a: bv32, b: bv32)
    ensures Xor(Xor(a, b), b) == a
  {
  }

  lemma XorFour(a: bv32, b: bv32, c: bv32, d: bv32)
    ensures Xor(Xor(a, c), Xor(b, d)) == Xor(Xor(a, b), Xor(c, d))
  {
    hide Xor;
    XorAssoc(a, c, Xor(b, d));
    XorAssoc(c, b, d);
    XorComm(c, b);
    XorAssoc(b, c, d);
    XorAssoc(a, b, Xor(c, d));
  }

  lemma HalfXor(a: bv32, b: bv32)
    ensures Half(Xor(a, b)) == Xor(Half(a), Half(b))
  {
  }

  lemma OddXor(a: bv32, b: bv32)
    ensures Odd(Xor(a, b)) <==> Odd(a) != Odd(b)
  {
  }

  /** The register is linear over exclusive or. */
  lemma StepLinear(a: bv32, b: bv32)
    ensures BitStep(Xor(a, b)) == Xor(BitStep(a), BitStep(b))
  {
    hide Xor, Half, Odd;
    HalfXor(a, b);
    OddXor(a, b);
    var x := if Odd(a) then POLYNOMIAL else 0;
    var y := if Odd(b) then POLYNOMIAL else 0;
    XorZero(Half(a));
    XorZero(Half(b));
    XorZero(Xor(Half(a), Half(b)));
    XorZero(POLYNOMIAL);
    XorZero(0);
    XorComm(0, POLYNOMIAL);
    XorFour(Half(a), Half(b), x, y);
  }

  lemma BitHalf(b: bool)
    ensures Half(Bit(b)) == 0 && Odd(Bit(b)) == b
  {
  }

  lemma StepSplits(r: bv32, w: bv32)
    ensures BitStep(Xor(r, w)) == Xor(BitStep(Xor(r, Bit(Odd(w)))), Half(w))
  {
    hide Xor, Half, Odd, Bit;
    var b := Bit(Odd(w));
    var rest := Xor(w, b);
    BitHalf(Odd(w));
    HalfXor(w, b);
    OddXor(w, b);
    XorZero(Half(w));
    XorAssoc(r, b, rest);
    XorComm(b, rest);
    XorTwice(w, b);
    StepLinear(Xor(r, b), rest);
  }

  lemma {:induction false} StepsAreBits(r: bv32, w: bv32, n: nat)
    ensures Steps(Xor(r, w), n) == Xor(BitAbsorb(r, LowBits(w, n)), Shift(w, n))
    decreases n
  {
    hide BitStep, Bit, Xor, Half, Odd;
    if n > 0 {
      StepSplits(r, w);
      StepsAreBits(BitStep(Xor(r, Bit(Odd(w)))), Half(w), n - 1);
      assert LowBits(w, n)[1..] == LowBits(Half(w), n - 1);
    }
  }

  lemma ByteShiftsOut(b: bv8)
    ensures Shift(b as bv32, 8) == 0
  {
    var w := b as bv32;
    var v := Half(Half(Half(Half(w))));
    assert Shift(w, 8) == Shift(Half(Half(w)), 6) == Shift(v, 4) by { hide Half; }
    assert Shift(v, 4) == Shift(Half(Half(v)), 2) == Half(Half(Half(Half(v)))) by { hide Half; }
  }

  lemma {:induction false} BitAbsorbConcat(crc: bv32, a: seq<bool>, b: seq<bool>)
    ensures BitAbsorb(crc, a + b) == BitAbsorb(BitAbsorb(crc, a), b)
    decreases |a|
  {
    hide BitStep, Bit, Xor;
    if a == [] {
      assert a + b == b;
    } else {
      assert (a + b)[1..] == a[1..] + b;
      BitAbsorbConcat(BitStep(Xor(crc, Bit(a[0]))), a[1..], b);
    }
  }

  lemma {:induction false} AbsorbIsBits(crc: bv32, bytes: seq<bv8>)
    ensures Absorb(crc, bytes) == BitAbsorb(crc, Bits(bytes))
    decreases |bytes|
  {
    hide BitStep, Bit, Xor, Half, Odd, Steps, LowBits, Shift;
    if bytes != [] {
      var w := bytes[0] as bv32;
      StepsAreBits(crc, w, 8);
      ByteShiftsOut(bytes[0]);
      XorZero(BitAbsorb(crc, LowBits(w, 8)));
      AbsorbIsBits(Steps(Xor(crc, w), 8), bytes[1..]);
      BitAbsorbConcat(crc, LowBits(w, 8), Bits(bytes[1..]));
    }
  }

  // ---- linearity ----

  function Differences(a: seq<bool>, b: seq<bool>): (d: seq<bool>)
    requires |a| == |b|
    ensures |d| == |a|
  {
    seq(|a|, i requires 0 <= i < |a| => a[i] != b[i])
  }

  lemma BitXor(x: bool, y: bool)
    ensures Xor(Bit(x), Bit(y)) == Bit(x != y)
  {
  }

  lemma DifferencesStep(a: seq<bool>, b: seq<bool>)
    requires |a| == |b| > 0
    ensures Differences(a, b)[0] == (a[0] != b[0])
    ensures Differences(a, b)[1..] == Differences(a[1..], b[1..])
  {
  }

  lemma {:induction false} AbsorbLinear(c: bv32, d: bv32, a: seq<bool>, b: seq<bool>)
    requires |a| == |b|
    ensures Xor(BitAbsorb(c, a), BitAbsorb(d, b)) == BitAbsorb(Xor(c, d), Differences(a, b))
    decreases |a|
  {
    hide BitStep, Bit, Xor, Differences;
    if a != [] {
      var c1, d1 := Xor(c, Bit(a[0])), Xor(d, Bit(b[0]));
      StepLinear(c1, d1);
      XorFour(c, d, Bit(a[0]), Bit(b[0]));
      BitXor(a[0], b[0]);
      AbsorbLinear(BitStep(c1), BitStep(d1), a[1..], b[1..]);
      DifferencesStep(a, b);
    }
  }

  // ---- a burst leaves a difference, and nothing after it removes the difference ----

  ghost predicate AllFalse(bits: seq<bool>) {
    forall i | 0 <= i < |bits| :: !bits[i]
  }

  lemma StepZero(crc: bv32)
    ensures BitStep(crc) == 0 <==> crc == 0
  {
  }

  lemma {:induction false} ZerosKeepDifference(d: bv32, bits: seq<bool>)
    requires AllFalse(bits)
    ensures BitAbsorb(d, bits) == 0 <==> d == 0
    decreases |bits|
  {
    hide BitStep, Bit, Xor;
    if bits != [] {
      StepZero(d);
      XorZero(d);
      ZerosKeepDifference(BitStep(d), bits[1..]);
    }
  }

  /** The lowest n bits of m are clear and m is not zero. */
  predicate HighOnly(m: bv32, n: nat)
    decreases n
  {
    if n == 0 then m != 0 else !Odd(m) && HighOnly(Half(m), n - 1)
  }

  lemma {:induction false} HighOnlyFewer(m: bv32, n: nat)
    requires HighOnly(m, n + 1)
    ensures HighOnly(m, n)
    decreases n
  {
    if n > 0 { HighOnlyFewer(Half(m), n - 1); }
  }

  lemma LowNibble(m: bv32)
    ensures m & 15 == 0 ==> !Odd(m) && !Odd(Half(m))
    ensures m & 15 == 0 ==> !Odd(Half(Half(m))) && !Odd(Half(Half(Half(m))))
    ensures Half(Half(Half(Half(m)))) == m >> 4
  {
  }

  lemma HighOnlyFour(m: bv32, n: nat)
    requires m & 15 == 0 && HighOnly(m >> 4, n)
    ensures HighOnly(m, n + 4)
  {
    LowNibble(m);
    hide Half, Odd;
    assert HighOnly(Half(Half(m)), n + 2);
  }

  lemma {:induction false} TopIsHigh(n: nat)
    requires n <= 31
    ensures HighOnly(TOP, n)
    decreases 31 - n
  {
    if n < 31 {
      TopIsHigh(n + 1);
      HighOnlyFewer(TOP, n);
    } else {
      assert HighOnly(8, 3);
      HighOnlyFour(0x80, 3);
      HighOnlyFour(0x800, 7);
      HighOnlyFour(0x8000, 11);
      HighOnlyFour(0x8_0000, 15);
      HighOnlyFour(0x80_0000, 19);
      HighOnlyFour(0x800_0000, 23);
      HighOnlyFour(TOP, 27);
    }
  }

  predicate Covers(d: bv32, m: bv32) { d & m == m }

  lemma HalfCovers(d: bv32, m: bv32)
    ensures Covers(d, m) ==> Covers(Half(d), Half(m))
    ensures Covers(d, m) && m != 0 ==> d != 0
  {
  }

  lemma {:induction false} ShiftKeepsHigh(d: bv32, m: bv32, n: nat)
    requires HighOnly(m, n) && Covers(d, m)
    ensures Shift(d, n) != 0
    decreases n
  {
    hide Half, Odd, Covers;
    HalfCovers(d, m);
    if n > 0 { ShiftKeepsHigh(Half(d), Half(m), n - 1); }
  }

  lemma OddStepCovers(e: bv32)
    ensures Odd(e) ==> Covers(BitStep(e), TOP)
  {
    HalfTopClear(e);
    TopOfPolynomial(Half(e));
  }

  lemma HalfTopClear(e: bv32)
    ensures Half(e) & TOP == 0
  {
  }

  lemma TopOfPolynomial(h: bv32)
    requires h & TOP == 0
    ensures Xor(h, POLYNOMIAL) & TOP == TOP
  {
  }

  lemma FlipLowBit(d: bv32, b: bool)
    ensures Odd(Xor(d, Bit(b))) <==> b != Odd(d)
    ensures Half(Xor(d, Bit(b))) == Half(d)
  {
  }

  /** A step that leaves the top bit clear shifted out a zero. */
  lemma StepTopClear(d: bv32, b: bool)
    ensures !Covers(BitStep(Xor(d, Bit(b))), TOP) ==> b == Odd(d) && BitStep(Xor(d, Bit(b))) == Half(d)
  {
    hide Odd, Half, Xor, Bit, Covers;
    OddStepCovers(Xor(d, Bit(b)));
    FlipLowBit(d, b);
  }

  /** To end at zero within 32 bits the register must start small. */
  lemma {:induction false} EndsAtZero(d: bv32, bits: seq<bool>)
    requires |bits| <= 32 && BitAbsorb(d, bits) == 0
    ensures Shift(d, |bits|) == 0
    ensures bits != [] ==> bits[0] == Odd(d) && BitStep(Xor(d, Bit(bits[0]))) == Half(d)
    decreases |bits|
  {
    hide BitStep, Bit, Xor, Half, Odd, Covers;
    if bits != [] {
      var next := BitStep(Xor(d, Bit(bits[0])));
      EndsAtZero(next, bits[1..]);
      TopIsHigh(|bits| - 1);
      if Covers(next, TOP) { ShiftKeepsHigh(next, TOP, |bits| - 1); }
      StepTopClear(d, bits[0]);
    }
  }

  lemma ZeroIsEven()
    ensures !Odd(0) && Half(0) == 0
  {
  }

  lemma {:induction false} WindowLeavesDifference(bits: seq<bool>)
    requires |bits| <= 32 && BitAbsorb(0, bits) == 0
    ensures AllFalse(bits)
    decreases |bits|
  {
    hide BitStep, Bit, Xor, Half, Odd, Shift;
    if bits != [] {
      EndsAtZero(0, bits);
      ZeroIsEven();
      WindowLeavesDifference(bits[1..]);
      assert forall i | 1 <= i < |bits| :: bits[i] == bits[1..][i - 1];
    }
  }

  // ---- bytes and bits ----

  lemma HalfInjective(v: bv32, w: bv32)
    ensures Half(v) == Half(w) && Odd(v) == Odd(w) ==> v == w
  {
  }

  lemma {:induction false} LowBitsInjective(v: bv32, w: bv32, n: nat)
    requires LowBits(v, n) == LowBits(w, n) && Shift(v, n) == Shift(w, n)
    ensures v == w
    decreases n
  {
    hide Half, Odd;
    if n > 0 {
      assert LowBits(v, n)[0] == LowBits(w, n)[0];
      assert LowBits(v, n)[1..] == LowBits(w, n)[1..];
      LowBitsInjective(Half(v), Half(w), n - 1);
      HalfInjective(v, w);
    }
  }

  lemma ByteBitsInjective(a: bv8, b: bv8)
    requires LowBits(a as bv32, 8) == LowBits(b as bv32, 8)
    ensures a == b
  {
    hide LowBits, Shift;
    ByteShiftsOut(a);
    ByteShiftsOut(b);
    LowBitsInjective(a as bv32, b as bv32, 8);
  }

  lemma {:induction false} BitsInjective(a: seq<bv8>, b: seq<bv8>)
    requires |a| == |b| && Bits(a) == Bits(b)
    ensures a == b
    decreases |a|
  {
    hide LowBits;
    if a != [] {
      assert LowBits(a[0] as bv32, 8) == Bits(a)[..8] == Bits(b)[..8] == LowBits(b[0] as bv32, 8);
      assert Bits(a[1..]) == Bits(a)[8..] == Bits(b)[8..] == Bits(b[1..]);
      ByteBitsInjective(a[0], b[0]);
      BitsInjective(a[1..], b[1..]);
      assert a == [a[0]] + a[1..] && b == [b[0]] + b[1..];
    }
  }

  lemma {:induction false} BitsConcat(a: seq<bv8>, b: seq<bv8>)
    ensures Bits(a + b) == Bits(a) + Bits(b)
    decreases |a|
  {
    hide LowBits;
    if a == [] {
      assert a + b == b;
    } else {
      assert (a + b)[1..] == a[1..] + b;
      BitsConcat(a[1..], b);
    }
  }

  /** The two bit strings agree outside a window of 32 bits. */
  ghost predicate DifferWithin(a: seq<bool>, b: seq<bool>, start: nat) {
    |a| == |b| && forall i | 0 <= i < |a| && !(start <= i < start + 32) :: a[i] == b[i]
  }

  lemma DifferenceSurvives(a: seq<bool>, b: seq<bool>, start: nat)
    requires DifferWithin(a, b, start) && BitAbsorb(0, Differences(a, b)) == 0
    ensures a == b
  {
    hide BitAbsorb;
    var diff := Differences(a, b);
    var lo := if start < |diff| then start else |diff|;
    var hi := if start + 32 < |diff| then start + 32 else |diff|;
    var before, window, after := diff[..lo], diff[lo..hi], diff[hi..];
    assert diff == (before + window) + after;
    BitAbsorbConcat(0, before + window, after);
    BitAbsorbConcat(0, before, window);
    ZerosKeepDifference(0, before);
    ZerosKeepDifference(BitAbsorb(0, window), after);
    WindowLeavesDifference(window);
    forall i | 0 <= i < |diff| ensures a[i] == b[i] {
      assert lo <= i < hi ==> !window[i - lo];
      assert diff[i] == (a[i] != b[i]);
    }
  }

  lemma XorSame(a: bv32, b: bv32)
    ensures Xor(a, ONES) == Xor(b, ONES) ==> Xor(a, b) == 0
  {
  }

  /** Bodies that differ only inside some 32 consecutive bits never share a CRC. */
  lemma BurstDetected(a: seq<bv8>, b: seq<bv8>, start: nat)
    requires |a| == |b| && a != b && DifferWithin(Bits(a), Bits(b), start)
    ensures Crc(a) != Crc(b)
  {
    hide Xor, Bits, Absorb, BitAbsorb, DifferWithin;
    if Crc(a) == Crc(b) {
      AbsorbIsBits(ONES, a);
      AbsorbIsBits(ONES, b);
      AbsorbLinear(ONES, ONES, Bits(a), Bits(b));
      XorZero(ONES);
      XorSame(Absorb(ONES, a), Absorb(ONES, b));
      DifferenceSurvives(Bits(a), Bits(b), start);
      BitsInjective(a, b);
    }
  }

  lemma FourBytesWithin(prefix: seq<bv8>, x: seq<bv8>, y: seq<bv8>, suffix: seq<bv8>)
    requires |x| == |y| <= 4
    ensures DifferWithin(Bits(prefix + x + suffix), Bits(prefix + y + suffix), 8 * |prefix|)
  {
    hide Bits;
    BitsConcat(prefix + x, suffix);
    BitsConcat(prefix, x);
    BitsConcat(prefix + y, suffix);
    BitsConcat(prefix, y);
  }

  /** In particular no change to four consecutive bytes goes unnoticed. */
  lemma FourBytesDetected(prefix: seq<bv8>, x: seq<bv8>, y: seq<bv8>, suffix: seq<bv8>)
    requires |x| == |y| <= 4 && x != y
    ensures Crc(prefix + x + suffix) != Crc(prefix + y + suffix)
  {
    hide Bits, Crc, DifferWithin;
    var a, b := prefix + x + suffix, prefix + y + suffix;
    assert a[|prefix|..|prefix| + |x|] == x && b[|prefix|..|prefix| + |x|] == y;
    FourBytesWithin(prefix, x, y, suffix);
    BurstDetected(a, b, 8 * |prefix|);
  }
}
