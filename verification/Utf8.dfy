/** Text as UTF-8 bytes, section 3 of RFC 3629. */
module Utf8 {
  import opened Json
  import opened Bytes

  function Tail(n: nat): byte { 0x80 + n % 0x40 }

  function EncodeChar(c: char): (b: seq<byte>)
    ensures b != []
  {
    var n := c as int;
    if n < 0x80 then [n]
    else if n < 0x800 then [0xc0 + n / 0x40, Tail(n)]
    else if n < 0x1_0000 then [0xe0 + n / 0x1000, Tail(n / 0x40), Tail(n)]
    else [0xf0 + n / 0x4_0000, Tail(n / 0x1000), Tail(n / 0x40), Tail(n)]
  }

  function Encode(s: string): seq<byte> {
    if s == "" then [] else EncodeChar(s[0]) + Encode(s[1..])
  }

  predicate IsTail(b: byte) { 0x80 <= b < 0xc0 }

  predicate Scalar(n: int) { 0 <= n < 0xd800 || 0xe000 <= n < 0x11_0000 }

  /** What a byte contributes above the marker bits of its kind. */
  function Payload(b: byte, marker: int): int { b - marker }

  function DecodeChar(b: seq<byte>): (r: Option<(char, nat)>)
    requires b != []
    ensures r.Some? ==> 1 <= r.value.1 <= |b|
  {
    if b[0] < 0x80 then Some((b[0] as char, 1))
    else if 0xc0 <= b[0] < 0xe0 && |b| >= 2 && IsTail(b[1]) then
      var n := Payload(b[0], 0xc0) * 0x40 + Payload(b[1], 0x80);
      if n >= 0x80 then Some((n as char, 2)) else None
    else if 0xe0 <= b[0] < 0xf0 && |b| >= 3 && IsTail(b[1]) && IsTail(b[2]) then
      var n := Payload(b[0], 0xe0) * 0x1000 + Payload(b[1], 0x80) * 0x40 + Payload(b[2], 0x80);
      if n >= 0x800 && Scalar(n) then Some((n as char, 3)) else None
    else if 0xf0 <= b[0] < 0xf8 && |b| >= 4 && IsTail(b[1]) && IsTail(b[2]) && IsTail(b[3]) then
      var n := Payload(b[0], 0xf0) * 0x4_0000 + Payload(b[1], 0x80) * 0x1000
        + Payload(b[2], 0x80) * 0x40 + Payload(b[3], 0x80);
      if n >= 0x1_0000 && Scalar(n) then Some((n as char, 4)) else None
    else None
  }

  function Decode(b: seq<byte>): Option<string>
    decreases |b|
  {
    if b == [] then Some("")
    else
      var (c, n) :- DecodeChar(b);
      var rest :- Decode(b[n..]);
      Some([c] + rest)
  }

  lemma DecodeTwo(n: int, rest: seq<byte>)
    requires 0x80 <= n < 0x800
    ensures DecodeChar([0xc0 + n / 0x40, Tail(n)] + rest) == Some((n as char, 2))
  {
  }

  lemma DecodeThree(n: int, rest: seq<byte>)
    requires 0x800 <= n < 0x1_0000 && Scalar(n)
    ensures DecodeChar([0xe0 + n / 0x1000, Tail(n / 0x40), Tail(n)] + rest) == Some((n as char, 3))
  {
    assert n / 0x40 == n / 0x1000 * 0x40 + n / 0x40 % 0x40;
  }

  lemma DecodeFour(n: int, rest: seq<byte>)
    requires 0x1_0000 <= n && Scalar(n)
    ensures DecodeChar([0xf0 + n / 0x4_0000, Tail(n / 0x1000), Tail(n / 0x40), Tail(n)] + rest) == Some((n as char, 4))
  {
    assert n / 0x1000 == n / 0x4_0000 * 0x40 + n / 0x1000 % 0x40;
    assert n / 0x40 == n / 0x1000 * 0x40 + n / 0x40 % 0x40;
  }

  lemma DecodeEncodedChar(c: char, rest: seq<byte>)
    ensures DecodeChar(EncodeChar(c) + rest) == Some((c, |EncodeChar(c)|))
  {
    hide Tail;
    var n := c as int;
    if n < 0x80 {
      assert (EncodeChar(c) + rest)[0] == n;
    } else {
      hide DecodeChar;
      if n < 0x800 { DecodeTwo(n, rest); } else if n < 0x1_0000 { DecodeThree(n, rest); } else { DecodeFour(n, rest); }
    }
  }

  lemma {:induction false} DecodeEncoded(s: string)
    ensures Decode(Encode(s)) == Some(s)
  {
    if s != "" {
      var rest := Encode(s[1..]);
      DecodeEncodedChar(s[0], rest);
      assert (EncodeChar(s[0]) + rest)[|EncodeChar(s[0])|..] == rest;
      DecodeEncoded(s[1..]);
      assert s == [s[0]] + s[1..];
    }
  }

  lemma CharBytes(n: int)
    requires Scalar(n)
    ensures n < 0x80 ==> EncodeChar(n as char) == [n]
    ensures 0x80 <= n < 0x800 ==> EncodeChar(n as char) == [0xc0 + n / 0x40, Tail(n)]
    ensures 0x800 <= n < 0x1_0000 ==> EncodeChar(n as char) == [0xe0 + n / 0x1000, Tail(n / 0x40), Tail(n)]
    ensures 0x1_0000 <= n ==>
      EncodeChar(n as char) == [0xf0 + n / 0x4_0000, Tail(n / 0x1000), Tail(n / 0x40), Tail(n)]
  {
    hide Tail;
  }

  lemma DecodedChar(b: seq<byte>)
    requires b != [] && DecodeChar(b).Some?
    ensures var (c, n) := DecodeChar(b).value; EncodeChar(c) == b[..n]
  {
    hide EncodeChar, Tail, IsTail;
    var (c, n) := DecodeChar(b).value;
    if n == 1 {
      CharBytes(b[0]);
    } else if n == 2 {
      TwoBytes(b[0], b[1]);
      CharBytes(c as int);
    } else if n == 3 {
      ThreeBytes(b[0], b[1], b[2]);
      CharBytes(c as int);
    } else {
      FourBytes(b[0], b[1], b[2], b[3]);
      CharBytes(c as int);
    }
  }

  lemma TwoBytes(a: byte, b: byte)
    requires 0xc0 <= a < 0xe0 && IsTail(b)
    ensures var n := (a - 0xc0) * 0x40 + (b - 0x80); 0xc0 + n / 0x40 == a && Tail(n) == b && n < 0x800
  {
  }

  lemma ThreeBytes(a: byte, b: byte, c: byte)
    requires 0xe0 <= a < 0xf0 && IsTail(b) && IsTail(c)
    ensures var n := (a - 0xe0) * 0x1000 + (b - 0x80) * 0x40 + (c - 0x80);
      0xe0 + n / 0x1000 == a && Tail(n / 0x40) == b && Tail(n) == c && n < 0x1_0000
  {
    var n, high := (a - 0xe0) * 0x1000 + (b - 0x80) * 0x40 + (c - 0x80), (a - 0xe0) * 0x40 + (b - 0x80);
    assert n == high * 0x40 + (c - 0x80);
    assert n / 0x40 == high && n % 0x40 == c - 0x80;
  }

  lemma FourBytes(a: byte, b: byte, c: byte, d: byte)
    requires 0xf0 <= a < 0xf8 && IsTail(b) && IsTail(c) && IsTail(d)
    ensures var n := (a - 0xf0) * 0x4_0000 + (b - 0x80) * 0x1000 + (c - 0x80) * 0x40 + (d - 0x80);
      0xf0 + n / 0x4_0000 == a && Tail(n / 0x1000) == b && Tail(n / 0x40) == c && Tail(n) == d
  {
    var top := (a - 0xf0) * 0x40 + (b - 0x80);
    var high := top * 0x40 + (c - 0x80);
    var n := high * 0x40 + (d - 0x80);
    assert n / 0x40 == high && n % 0x40 == d - 0x80;
    assert n / 0x1000 == top && high % 0x40 == c - 0x80;
    assert n / 0x4_0000 == a - 0xf0 && top % 0x40 == b - 0x80;
  }

  /** Bytes are decoded exactly when they encode a text, and then to that text. */
  lemma {:induction false} DecodeExact(b: seq<byte>, s: string)
    ensures Decode(b) == Some(s) <==> b == Encode(s)
    decreases |b|
  {
    hide DecodeChar, EncodeChar;
    if b == Encode(s) { DecodeEncoded(s); }
    if b != [] && Decode(b) == Some(s) {
      var (c, n) := DecodeChar(b).value;
      DecodedChar(b);
      DecodeExact(b[n..], s[1..]);
      assert b == b[..n] + b[n..];
    }
  }

  /** Text without control characters has none among its bytes. */
  lemma {:induction false} EncodePrintable(s: string)
    requires forall i | 0 <= i < |s| :: s[i] >= ' '
    ensures forall i | 0 <= i < |Encode(s)| :: Encode(s)[i] >= 0x20
    ensures s != "" ==> Encode(s) != []
  {
    if s != "" { EncodePrintable(s[1..]); }
  }

  /** Section 7 of RFC 3629. */
  lemma Examples()
    ensures Encode("A\U{2262}\U{391}.") == [0x41, 0xe2, 0x89, 0xa2, 0xce, 0x91, 0x2e]
    ensures Encode("\U{233b4}") == [0xf0, 0xa3, 0x8e, 0xb4]
  {
    var s := "A\U{2262}\U{391}.";
    assert s[1..][1..] == "\U{391}." && s[1..][1..][1..] == "." && s[1..][1..][1..][1..] == "";
    assert Encode(".") == [0x2e];
    assert Encode("\U{391}.") == [0xce, 0x91, 0x2e];
    assert Encode("\U{2262}\U{391}.") == [0xe2, 0x89, 0xa2, 0xce, 0x91, 0x2e];
  }

  /** A place in the bytes of a text is a boundary exactly when it ends a start of the text. */
  lemma {:induction false} BoundaryMeans(s: string, i: nat)
    requires i <= |Encode(s)|
    ensures CharBoundary(Encode(s), i) <==> exists k | 0 <= k <= |s| :: i == |Encode(s[..k])|
    decreases |s|
  {
    var whole := Encode(s);
    EncodeEnds(s);
    if i == 0 {
      assert s[..0] == "";
    } else if i == |whole| {
      assert s[..|s|] == s;
    } else {
      var first, rest := EncodeChar(s[0]), Encode(s[1..]);
      assert whole == first + rest;
      StartsAndTails(s[0]);
      if i < |first| {
        assert whole[i] == first[i];
        forall k | 0 <= k <= |s| ensures i != |Encode(s[..k])| { EncodeStart(s, k); }
      } else {
        BoundaryMeans(s[1..], i - |first|);
        assert whole[i] == rest[i - |first|];
        if i == |first| { StartsAndTails(s[1]); }
        forall k | 1 <= k <= |s| ensures |Encode(s[..k])| == |first| + |Encode(s[1..][..k - 1])| { EncodeStart(s, k); }
        assert s[..0] == "";
        if k :| 0 <= k <= |s[1..]| && i - |first| == |Encode(s[1..][..k])| {
          assert i == |Encode(s[..k + 1])|;
        }
      }
    }
  }

  lemma EncodeEnds(s: string)
    ensures Encode("") == []
    ensures s != "" ==> Encode(s) == EncodeChar(s[0]) + Encode(s[1..])
  {
  }

  lemma EncodeStart(s: string, k: nat)
    requires s != "" && k <= |s|
    ensures Encode(s[..k]) == if k == 0 then [] else EncodeChar(s[0]) + Encode(s[1..][..k - 1])
  {
    if k > 0 { assert s[..k][1..] == s[1..][..k - 1]; }
  }

  /** Only the first byte of a character does not carry the mark of a continuation. */
  lemma StartsAndTails(c: char)
    ensures var b := EncodeChar(c); forall i | 0 <= i < |b| :: 0x80 <= b[i] < 0xc0 <==> i > 0
  {
  }
}
