/** The chunk loop of the PNG validator, and the bytes of a sequence of chunks. */
module PngChunks {
  import opened Json
  import opened Bytes
  import opened PngRaster
  import Crc32

  const MAX_COMPRESSED: nat := 16 * 1024 * 1024
  const MAX_RAW: nat := 14 * 1024 * 1024

  const SIGNATURE: seq<byte> := [0x89, 0x50, 0x4e, 0x47, 0x0d, 0x0a, 0x1a, 0x0a]
  // Chunk types, the four letters as one big-endian number.
  const IHDR: nat := 0x4948_4452
  const PLTE: nat := 0x504c_5445
  const TRNS: nat := 0x7452_4e53
  const IDAT: nat := 0x4944_4154
  const IEND: nat := 0x4945_4e44

  // ---- bytes and chunks ----

  function U32(b: seq<byte>): (n: nat)
    requires |b| == 4
    ensures n < 0x1_0000_0000
  {
    b[0] as int * 0x100_0000 + b[1] as int * 0x1_0000 + b[2] as int * 0x100 + b[3]
  }

  function BigEndian(n: nat): (b: seq<byte>)
    requires n < 0x1_0000_0000
    ensures |b| == 4 && U32(b) == n
  {
    var high, low := n / 0x1_0000, n % 0x1_0000;
    [high / 0x100, high % 0x100, low / 0x100, low % 0x100]
  }

  lemma U32Injective(a: seq<byte>, b: seq<byte>)
    requires |a| == |b| == 4 && U32(a) == U32(b)
    ensures a == b
  {
    assert a[0] == b[0] && a[1] == b[1];
  }

  function Crc(bytes: seq<byte>): (n: nat)
    ensures n < 0x1_0000_0000
  {
    Crc32.Crc(seq(|bytes|, i requires 0 <= i < |bytes| => bytes[i] as bv8)) as nat
  }

  datatype Chunk = Chunk(kind: nat, data: seq<byte>)

  ghost predicate Sized(c: Chunk) {
    c.kind < 0x1_0000_0000 && |c.data| < 0x1_0000_0000
  }

  /** What the CRC of a chunk covers: its type and data. */
  ghost function Body(c: Chunk): (b: seq<byte>)
    requires Sized(c)
    ensures |b| == 4 + |c.data|
  {
    BigEndian(c.kind) + c.data
  }

  /** Section 5.3: length, type, data and the CRC of type and data. */
  ghost function ChunkBytes(c: Chunk): (b: seq<byte>)
    requires Sized(c)
    ensures |b| == 12 + |c.data|
  {
    BigEndian(|c.data|) + Body(c) + BigEndian(Crc(Body(c)))
  }

  ghost function Serialize(cs: seq<Chunk>): seq<byte>
    requires forall i | 0 <= i < |cs| :: Sized(cs[i])
  {
    if cs == [] then [] else ChunkBytes(cs[0]) + Serialize(cs[1..])
  }

  // ---- one chunk at a time ----

  datatype Header = Header(width: nat, height: nat, colorType: byte)

  datatype PngError =
    | NotPng | ChunkTruncated | ChunkExceeds | CrcMismatch | ChunkAfterIend
    | InvalidIhdr | UnsupportedIhdr | RawTooLarge
    | PlteBeforeIhdr | InvalidPlte | TrnsBeforeIhdr | MisplacedTrns | InvalidTrns
    | IdatBeforeIhdr | IdatBeforePlte | IdatNotContiguous | CompressedTooLarge
    | InvalidIend | DataAfterIend | ChunkBeforeIhdr | UnknownCritical
    | MissingIhdr | MissingIend | MissingPlte
    | Raster(error: RasterError)

  datatype Outcome<+T> = Ok(value: T) | Err(error: PngError)
  {
    predicate IsFailure() { Err? }

    function PropagateFailure<U>(): Outcome<U>
      requires Err?
    {
      Err(error)
    }

    function Extract(): T
      requires Ok?
    {
      value
    }
  }

  datatype State = State(
    ihdr: Option<Header>, idat: seq<byte>, idatSeen: bool, idatClosed: bool,
    palette: Option<seq<byte>>, transparency: Option<seq<byte>>, sawIend: bool)

  const START := State(None, [], false, false, None, None, false)

  /** The chunk at the front of some bytes, with its length in bytes. */
  function TakeChunk(bytes: seq<byte>): Outcome<(Chunk, nat)> {
    if |bytes| < 12 then Err(ChunkTruncated)
    else
      var length := U32(bytes[..4]);
      if 12 + length > |bytes| then Err(ChunkExceeds)
      else if Crc(bytes[4..8 + length]) != U32(bytes[8 + length..12 + length]) then Err(CrcMismatch)
      else Ok((Chunk(U32(bytes[4..8]), bytes[8..8 + length]), 12 + length))
  }

  function HeaderOf(data: seq<byte>): Header
    requires |data| == 13
  {
    Header(U32(data[..4]), U32(data[4..8]), data[9])
  }

  function ExpectedRaw(h: Header): nat {
    (h.width * ChannelsOf(h.colorType) + 1) * h.height
  }

  predicate SupportedHeader(data: seq<byte>)
    requires |data| == 13
  {
    var h := HeaderOf(data);
    && 0 < h.width <= 8192 && 0 < h.height <= 8192
    && data[8] == 8 && h.colorType in {0, 2, 3, 4, 6}
    && data[10] == data[11] == data[12] == 0
  }

  function StepIhdr(st: State, data: seq<byte>, first: bool): Outcome<State> {
    if st.ihdr.Some? || |data| != 13 || !first then Err(InvalidIhdr)
    else if !SupportedHeader(data) then Err(UnsupportedIhdr)
    else if ExpectedRaw(HeaderOf(data)) > MAX_RAW then Err(RawTooLarge)
    else Ok(st.(ihdr := Some(HeaderOf(data))))
  }

  predicate PaletteData(colorType: byte, data: seq<byte>) {
    0 < |data| <= 768 && |data| % 3 == 0 && colorType != 0 && colorType != 4
  }

  function StepPlte(st: State, data: seq<byte>): Outcome<State> {
    if st.ihdr.None? then Err(PlteBeforeIhdr)
    else if st.idatSeen || st.palette.Some? || !PaletteData(st.ihdr.value.colorType, data) then Err(InvalidPlte)
    else Ok(st.(palette := Some(data)))
  }

  predicate TransparencyData(colorType: byte, palette: Option<seq<byte>>, data: seq<byte>) {
    match colorType
    case 0 => |data| == 2 && data[0] == 0
    case 2 => |data| == 6 && data[0] == data[2] == data[4] == 0
    case 3 => palette.Some? && 0 < |data| <= |palette.value| / 3
    case _ => false
  }

  function StepTrns(st: State, data: seq<byte>): Outcome<State> {
    if st.ihdr.None? then Err(TrnsBeforeIhdr)
    else if st.idatSeen || st.transparency.Some? then Err(MisplacedTrns)
    else if !TransparencyData(st.ihdr.value.colorType, st.palette, data) then Err(InvalidTrns)
    else Ok(st.(transparency := Some(data)))
  }

  function StepIdat(st: State, data: seq<byte>): Outcome<State> {
    if st.ihdr.None? then Err(IdatBeforeIhdr)
    else if st.ihdr.value.colorType == 3 && st.palette.None? then Err(IdatBeforePlte)
    else if st.idatClosed then Err(IdatNotContiguous)
    else if |st.idat + data| > MAX_COMPRESSED then Err(CompressedTooLarge)
    else Ok(st.(idatSeen := true, idat := st.idat + data))
  }

  function StepIend(st: State, data: seq<byte>, last: bool): Outcome<State> {
    if data != [] || !st.idatSeen then Err(InvalidIend)
    else if !last then Err(DataAfterIend)
    else Ok(st.(sawIend := true))
  }

  /** Whether the first letter of a type is upper-case, which makes the chunk critical. */
  predicate Critical(kind: nat) { 0x4100_0000 <= kind < 0x5b00_0000 }

  function StepOther(st: State, kind: nat): Outcome<State> {
    if st.ihdr.None? then Err(ChunkBeforeIhdr)
    else if Critical(kind) then Err(UnknownCritical)
    else Ok(st)
  }

  /** One turn of the loop: `first` at offset 8, `last` when the chunk ends the file. */
  function Step(st: State, c: Chunk, first: bool, last: bool): Outcome<State> {
    if st.sawIend then Err(ChunkAfterIend)
    else
      var next :-
        if c.kind == IHDR then StepIhdr(st, c.data, first)
        else if c.kind == PLTE then StepPlte(st, c.data)
        else if c.kind == TRNS then StepTrns(st, c.data)
        else if c.kind == IDAT then StepIdat(st, c.data)
        else if c.kind == IEND then StepIend(st, c.data, last)
        else StepOther(st, c.kind);
      Ok(if c.kind != IDAT && c.kind != IEND && next.idatSeen then next.(idatClosed := true) else next)
  }

  function Scan(st: State, bytes: seq<byte>, first: bool): Outcome<State>
    decreases |bytes|
  {
    if bytes == [] then Ok(st)
    else
      var (c, size) :- TakeChunk(bytes);
      var next :- Step(st, c, first, size == |bytes|);
      Scan(next, bytes[size..], false)
  }

  predicate Signed(bytes: seq<byte>) {
    |bytes| >= 33 && bytes[..8] == SIGNATURE
  }

  function Finish(st: State): Outcome<State> {
    if st.ihdr.None? then Err(MissingIhdr)
    else if !st.sawIend then Err(MissingIend)
    else if st.ihdr.value.colorType == 3 && st.palette.None? then Err(MissingPlte)
    else Ok(st)
  }

  function Chunks(bytes: seq<byte>): Outcome<State> {
    if !Signed(bytes) then Err(NotPng)
    else
      var st :- Scan(START, bytes[8..], true);
      Finish(st)
  }

  method ReadChunks(bytes: seq<byte>) returns (r: Outcome<State>)
    ensures r == Chunks(bytes)
  {
    hide Step, TakeChunk;
    if !Signed(bytes) { return Err(NotPng); }
    var offset := 8;
    var st := START;
    while offset < |bytes|
      invariant 8 <= offset <= |bytes|
      invariant Scan(START, bytes[8..], true) == Scan(st, bytes[offset..], offset == 8)
    {
      var taken := TakeChunk(bytes[offset..]);
      if taken.Err? { return Err(taken.error); }
      var (c, size) := taken.value;
      Taken(bytes[offset..]);
      var next := Step(st, c, offset == 8, offset + size == |bytes|);
      if next.Err? { return Err(next.error); }
      assert bytes[offset..][size..] == bytes[offset + size..];
      st := next.value;
      offset := offset + size;
    }
    r := Finish(st);
  }

  lemma Taken(bytes: seq<byte>)
    ensures var t := TakeChunk(bytes);
      t.Ok? ==> 12 <= t.value.1 <= |bytes|
  {
  }
}
