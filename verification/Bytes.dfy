/** The bytes of files and streams. */
module Bytes {
  type byte = x: int | 0 <= x < 256

  /** Whether text may be cut before a byte without cutting a UTF-8 character. */
  predicate CharBoundary(s: seq<byte>, i: nat)
    requires i <= |s|
  {
    i == 0 || i == |s| || !(0x80 <= s[i] < 0xc0)
  }

  // ---- bytes as the bit vectors that a CRC works on ----

  lemma BitsStay(v: bv8)
    ensures (v as int) as bv8 == v
  {
  }

  lemma Increment(v: bv8)
    requires v != 255
    ensures (v + 1) as int == v as int + 1
  {
  }

  /** A byte is the value of its bits. */
  lemma {:induction false} BitsBack(b: byte)
    ensures (b as bv8) as int == b
  {
    if b > 0 {
      BitsBack(b - 1);
      var v := (b - 1) as bv8;
      Increment(v);
      BitsStay(v + 1);
    }
  }
}
