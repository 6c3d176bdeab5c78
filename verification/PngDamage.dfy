/** A chunk damaged in one place is never accepted, whatever surrounds it. */
module PngDamage {
  import opened Bytes
  import opened PngChunks
  import opened PngGrammar
  import Crc32

  /** The bytes of a chunk whose type and data have become something else of the same length. */
  ghost function Damaged(c: Chunk, body: seq<byte>): seq<byte>
    requires Sized(c) && |body| == |Body(c)|
  {
    BigEndian(|c.data|) + body + BigEndian(Crc(Body(c)))
  }

  function Wide(bytes: seq<byte>): (r: seq<bv8>)
    ensures |r| == |bytes|
  {
    seq(|bytes|, i requires 0 <= i < |bytes| => bytes[i] as bv8)
  }

  lemma WideInjective(a: seq<byte>, b: seq<byte>)
    requires |a| == |b| && Wide(a) == Wide(b)
    ensures a == b
  {
    forall i | 0 <= i < |a| ensures a[i] == b[i] {
      BitsBack(a[i]);
      BitsBack(b[i]);
      assert a[i] as bv8 == Wide(a)[i] == b[i] as bv8;
    }
  }

  lemma WideParts(prefix: seq<byte>, x: seq<byte>, suffix: seq<byte>)
    ensures Wide(prefix + x + suffix) == Wide(prefix) + Wide(x) + Wide(suffix)
  {
  }

  lemma CrcOf(bytes: seq<byte>)
    ensures Crc(bytes) == Crc32.Crc(Wide(bytes)) as nat
  {
    assert seq(|bytes|, i requires 0 <= i < |bytes| => bytes[i] as bv8) == Wide(bytes);
  }

  lemma WordBack(a: bv32)
    ensures (a as nat) as bv32 == a
  {
  }

  lemma SameWord(a: bv32, b: bv32)
    requires a as nat == b as nat
    ensures a == b
  {
    WordBack(a);
    WordBack(b);
  }

  lemma BurstTells(x: seq<byte>, y: seq<byte>, start: nat)
    requires |x| == |y| && x != y && Crc32.DifferWithin(Crc32.Bits(Wide(x)), Crc32.Bits(Wide(y)), start)
    ensures Crc(x) != Crc(y)
  {
    hide Crc, Crc32.Crc, Wide, Crc32.Bits, Crc32.DifferWithin;
    DifferWide(x, y);
    Crc32.BurstDetected(Wide(x), Wide(y), start);
    CrcOf(x);
    CrcOf(y);
    DifferAsNat(Crc32.Crc(Wide(x)), Crc32.Crc(Wide(y)));
  }

  lemma DifferWide(x: seq<byte>, y: seq<byte>)
    requires |x| == |y| && x != y
    ensures Wide(x) != Wide(y)
  {
    hide Wide;
    if Wide(x) == Wide(y) { WideInjective(x, y); }
  }

  lemma DifferAsNat(a: bv32, b: bv32)
    requires a != b
    ensures a as nat != b as nat
  {
    if a as nat == b as nat { SameWord(a, b); }
  }

  lemma TakeDamaged(c: Chunk, body: seq<byte>, rest: seq<byte>)
    requires Sized(c) && |body| == |Body(c)| && Crc(body) != Crc(Body(c))
    ensures TakeChunk(Damaged(c, body) + rest) == Err(CrcMismatch)
  {
    hide Crc, U32, BigEndian;
    var n := |c.data|;
    var bytes := Damaged(c, body) + rest;
    assert bytes[..4] == BigEndian(n);
    assert bytes[4..8 + n] == body;
    assert bytes[8 + n..12 + n] == BigEndian(Crc(Body(c)));
  }

  /** Scanning gets past whole chunks only to scan what follows them. */
  lemma {:induction false} ScanPast(st: State, cs: seq<Chunk>, rest: seq<byte>, first: bool)
    requires AllSized(cs) && rest != [] && TakeChunk(rest).Err?
    ensures Scan(st, Serialize(cs) + rest, first).Err?
    decreases |cs|
  {
    hide Step, TakeChunk, ChunkBytes;
    if cs == [] {
      assert Serialize(cs) + rest == rest;
    } else {
      var c, tail := cs[0], Serialize(cs[1..]) + rest;
      TakeSerialized(c, tail);
      var bytes, size := Serialize(cs) + rest, |ChunkBytes(c)|;
      assert bytes == ChunkBytes(c) + tail;
      Taken(bytes);
      assert bytes[size..] == tail;
      var next := Step(st, c, first, size == |bytes|);
      if next.Ok? { ScanPast(next.value, cs[1..], rest, false); }
    }
  }

  /** No change to a chunk's type and data goes unnoticed that stays within 32 consecutive bits, in
      the order in which the CRC takes them. */
  lemma BurstRejected(before: seq<Chunk>, c: Chunk, rest: seq<byte>, body: seq<byte>, start: nat)
    requires AllSized(before) && Sized(c) && |body| == |Body(c)| && body != Body(c)
    requires Crc32.DifferWithin(Crc32.Bits(Wide(body)), Crc32.Bits(Wide(Body(c))), start)
    ensures Chunks(SIGNATURE + (Serialize(before) + (Damaged(c, body) + rest))).Err?
  {
    hide Crc, Scan, TakeChunk, Serialize, Damaged, Wide, Crc32.Bits, Crc32.DifferWithin;
    BurstTells(body, Body(c), start);
    var damaged := Damaged(c, body) + rest;
    TakeDamaged(c, body, rest);
    DamagedBytes(c, body, rest);
    ScanPast(START, before, damaged, true);
    var bytes := SIGNATURE + (Serialize(before) + damaged);
    assert bytes[8..] == Serialize(before) + damaged;
  }

  /** In particular no change to up to four consecutive bytes. */
  lemma DamageRejected(
    before: seq<Chunk>, c: Chunk, rest: seq<byte>, prefix: seq<byte>, x: seq<byte>, y: seq<byte>, suffix: seq<byte>)
    requires AllSized(before) && Sized(c) && Body(c) == prefix + x + suffix
    requires |x| == |y| <= 4 && x != y
    ensures Chunks(SIGNATURE + (Serialize(before) + (Damaged(c, prefix + y + suffix) + rest))).Err?
  {
    hide Crc, Chunks, Serialize, Damaged, Wide, Crc32.Bits, Crc32.DifferWithin;
    var body := prefix + y + suffix;
    assert body[|prefix|..|prefix| + |y|] == y && Body(c)[|prefix|..|prefix| + |x|] == x;
    WideParts(prefix, x, suffix);
    WideParts(prefix, y, suffix);
    Crc32.FourBytesWithin(Wide(prefix), Wide(y), Wide(x), Wide(suffix));
    BurstRejected(before, c, rest, body, 8 * |prefix|);
  }

  lemma DamagedBytes(c: Chunk, body: seq<byte>, rest: seq<byte>)
    requires Sized(c) && |body| == |Body(c)|
    ensures Damaged(c, body) + rest != []
  {
  }
}
