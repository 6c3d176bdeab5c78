/** The chunk loop accepts exactly a declarative grammar of PNG files. */
module PngGrammar {
  import opened Json
  import opened Bytes
  import opened PngRaster
  import opened PngChunks
  import opened PngStandard

  // ---- chunks tile the file ----

  ghost predicate AllSized(cs: seq<Chunk>) {
    forall i | 0 <= i < |cs| :: Sized(cs[i])
  }

  lemma TakeSerialized(c: Chunk, rest: seq<byte>)
    requires Sized(c)
    ensures TakeChunk(ChunkBytes(c) + rest) == Ok((c, |ChunkBytes(c)|))
  {
    hide Crc, U32, BigEndian;
    var n := |c.data|;
    var bytes := ChunkBytes(c) + rest;
    assert bytes[..4] == BigEndian(n);
    assert bytes[4..8 + n] == Body(c);
    assert bytes[4..8] == BigEndian(c.kind) && bytes[8..8 + n] == c.data;
    assert bytes[8 + n..12 + n] == BigEndian(Crc(Body(c)));
  }

  lemma TakenIsSerialized(bytes: seq<byte>)
    requires TakeChunk(bytes).Ok?
    ensures var (c, size) := TakeChunk(bytes).value;
      Sized(c) && size <= |bytes| && bytes[..size] == ChunkBytes(c)
  {
    hide Crc, U32, BigEndian;
    var (c, size) := TakeChunk(bytes).value;
    var n := |c.data|;
    U32Injective(bytes[..4], BigEndian(n));
    U32Injective(bytes[4..8], BigEndian(c.kind));
    assert bytes[4..8 + n] == Body(c);
    U32Injective(bytes[8 + n..12 + n], BigEndian(Crc(Body(c))));
    assert bytes[..size] == bytes[..4] + bytes[4..8 + n] + bytes[8 + n..12 + n];
  }

  /** The loop over chunks instead of bytes. */
  ghost function Run(st: State, cs: seq<Chunk>, first: bool): Outcome<State>
    requires AllSized(cs)
    decreases |cs|
  {
    if cs == [] then Ok(st)
    else
      var next :- Step(st, cs[0], first, |cs| == 1);
      Run(next, cs[1..], false)
  }

  lemma SerializedEmpty(cs: seq<Chunk>)
    requires AllSized(cs)
    ensures Serialize(cs) == [] <==> cs == []
  {
  }

  lemma {:induction false} ScanRuns(st: State, cs: seq<Chunk>, first: bool)
    requires AllSized(cs)
    ensures Scan(st, Serialize(cs), first) == Run(st, cs, first)
    decreases |cs|
  {
    hide Step, TakeChunk, ChunkBytes;
    if cs != [] {
      var size, rest := |ChunkBytes(cs[0])|, Serialize(cs[1..]);
      TakeSerialized(cs[0], rest);
      assert Serialize(cs) == ChunkBytes(cs[0]) + rest;
      SerializedEmpty(cs[1..]);
      SerializedEmpty(cs);
      Taken(Serialize(cs));
      assert Serialize(cs)[size..] == rest;
      var next := Step(st, cs[0], first, |cs| == 1);
      if next.Ok? { ScanRuns(next.value, cs[1..], false); }
    }
  }

  lemma {:induction false} ScannedTiles(st: State, bytes: seq<byte>, first: bool) returns (cs: seq<Chunk>)
    requires Scan(st, bytes, first).Ok?
    ensures AllSized(cs) && bytes == Serialize(cs)
    decreases |bytes|
  {
    hide Step, TakeChunk, ChunkBytes;
    if bytes == [] {
      cs := [];
    } else {
      var (c, size) := TakeChunk(bytes).value;
      Taken(bytes);
      TakenIsSerialized(bytes);
      var tail := ScannedTiles(Step(st, c, first, size == |bytes|).value, bytes[size..], false);
      cs := [c] + tail;
      assert cs[1..] == tail && bytes == bytes[..size] + bytes[size..];
    }
  }

  // ---- what has been seen in a prefix ----

  ghost predicate Seen(p: seq<Chunk>) {
    p != [] && (p[|p| - 1].kind == IDAT || Seen(p[..|p| - 1]))
  }

  ghost predicate Closed(p: seq<Chunk>) {
    p != [] &&
    (Closed(p[..|p| - 1]) || (Seen(p[..|p| - 1]) && p[|p| - 1].kind != IDAT && p[|p| - 1].kind != IEND))
  }

  ghost function Latest(p: seq<Chunk>, kind: nat): Option<seq<byte>> {
    if p == [] then None
    else if p[|p| - 1].kind == kind then Some(p[|p| - 1].data)
    else Latest(p[..|p| - 1], kind)
  }

  ghost function ImageData(p: seq<Chunk>): seq<byte> {
    if p == [] then []
    else ImageData(p[..|p| - 1]) + (if p[|p| - 1].kind == IDAT then p[|p| - 1].data else [])
  }

  ghost predicate GoodHeader(c: Chunk) {
    && c.kind == IHDR && |c.data| == 13 && SupportedHeader(c.data)
    && ExpectedRaw(HeaderOf(c.data)) <= MAX_RAW
  }

  ghost function StateOf(p: seq<Chunk>): State
    requires p != [] ==> |p[0].data| == 13
  {
    State(if p == [] then None else Some(HeaderOf(p[0].data)),
          ImageData(p), Seen(p), Closed(p), Latest(p, PLTE), Latest(p, TRNS),
          p != [] && p[|p| - 1].kind == IEND)
  }

  ghost predicate Starts(cs: seq<Chunk>) {
    cs != [] && GoodHeader(cs[0])
  }

  ghost function ColorType(cs: seq<Chunk>): byte
    requires Starts(cs)
  {
    HeaderOf(cs[0].data).colorType
  }

  ghost predicate PlteFits(p: seq<Chunk>, ct: byte, data: seq<byte>) {
    !Seen(p) && Latest(p, PLTE).None? && PaletteData(ct, data)
  }

  ghost predicate TrnsFits(p: seq<Chunk>, ct: byte, data: seq<byte>) {
    !Seen(p) && Latest(p, TRNS).None? && TransparencyData(ct, Latest(p, PLTE), data)
  }

  ghost predicate IdatFits(p: seq<Chunk>, ct: byte, data: seq<byte>) {
    !Closed(p) && (ct == 3 ==> Latest(p, PLTE).Some?) && |ImageData(p) + data| <= MAX_COMPRESSED
  }

  /** A chunk after the first is in order given the ones before it. */
  ghost predicate Fits(p: seq<Chunk>, ct: byte, c: Chunk, last: bool)
    requires Sized(c)
  {
    if c.kind == IHDR then false
    else if c.kind == PLTE then PlteFits(p, ct, c.data)
    else if c.kind == TRNS then TrnsFits(p, ct, c.data)
    else if c.kind == IDAT then IdatFits(p, ct, c.data)
    else if c.kind == IEND then c.data == [] && Seen(p) && last
    else !Critical(c.kind)
  }

  lemma FirstStep(c: Chunk, last: bool)
    requires Sized(c)
    ensures Step(START, c, true, last).Ok? <==> GoodHeader(c)
    ensures GoodHeader(c) ==> Step(START, c, true, last) == Ok(StateOf([c]))
  {
    hide SupportedHeader, HeaderOf, ExpectedRaw;
    Extend([], c);
    assert [] + [c] == [c];
  }

  lemma {:induction false} ClosedSeen(p: seq<Chunk>)
    ensures Closed(p) ==> Seen(p)
    decreases |p|
  {
    if p != [] { ClosedSeen(p[..|p| - 1]); }
  }

  lemma Extend(p: seq<Chunk>, c: Chunk)
    ensures var q := p + [c];
      && Seen(q) == (c.kind == IDAT || Seen(p))
      && Latest(q, PLTE) == (if c.kind == PLTE then Some(c.data) else Latest(p, PLTE))
      && Latest(q, TRNS) == (if c.kind == TRNS then Some(c.data) else Latest(p, TRNS))
      && Closed(q) == (Closed(p) || (Seen(p) && c.kind != IDAT && c.kind != IEND))
      && ImageData(q) == ImageData(p) + (if c.kind == IDAT then c.data else [])
  {
    var q := p + [c];
    assert q[..|q| - 1] == p && q[|q| - 1] == c;
  }

  lemma NextStep(p: seq<Chunk>, c: Chunk, last: bool)
    requires Sized(c) && Starts(p) && p[|p| - 1].kind != IEND
    ensures var r := Step(StateOf(p), c, false, last);
      && (r.Ok? <==> Fits(p, ColorType(p), c, last))
      && (r.Ok? ==> r.value == StateOf(p + [c]))
      && r != Err(ChunkAfterIend)
  {
    hide SupportedHeader, HeaderOf, ExpectedRaw, PaletteData, TransparencyData, Critical;
    hide Seen, Closed, Latest, ImageData;
    Extend(p, c);
    ClosedSeen(p);
    assert ImageData(p) + [] == ImageData(p);
  }

  // ---- the loop, chunk by chunk ----

  ghost predicate FitsAt(cs: seq<Chunk>, j: nat)
    requires AllSized(cs) && Starts(cs) && j < |cs|
  {
    Fits(cs[..j], ColorType(cs), cs[j], j == |cs| - 1)
  }

  ghost predicate AllFit(cs: seq<Chunk>) {
    AllSized(cs) && Starts(cs) && forall j | 1 <= j < |cs| :: FitsAt(cs, j)
  }

  lemma EndsOnce(cs: seq<Chunk>, j: nat)
    requires AllSized(cs) && Starts(cs) && j < |cs| && (j == 0 || FitsAt(cs, j)) && cs[j].kind == IEND
    ensures j == |cs| - 1
  {
  }

  lemma {:induction false} RunFits(cs: seq<Chunk>, i: nat)
    requires AllSized(cs) && Starts(cs) && 1 <= i <= |cs|
    requires forall j | 1 <= j < i :: FitsAt(cs, j)
    ensures var r := Run(StateOf(cs[..i]), cs[i..], false);
      && (r.Ok? <==> forall j | i <= j < |cs| :: FitsAt(cs, j))
      && (r.Ok? ==> r.value == StateOf(cs))
      && r != Err(ChunkAfterIend)
    decreases |cs| - i
  {
    hide Fits, Step, StateOf;
    if i == |cs| {
      assert cs[..i] == cs;
    } else {
      var p, c := cs[..i], cs[i];
      if p[i - 1].kind == IEND { EndsOnce(cs, i - 1); }
      assert ColorType(p) == ColorType(cs);
      NextStep(p, c, i == |cs| - 1);
      assert p + [c] == cs[..i + 1] && cs[i..][1..] == cs[i + 1..];
      if FitsAt(cs, i) { RunFits(cs, i + 1); }
    }
  }

  lemma RunAll(cs: seq<Chunk>)
    requires AllSized(cs)
    ensures Run(START, cs, true).Ok? <==> cs == [] || AllFit(cs)
    ensures cs != [] && AllFit(cs) ==> Run(START, cs, true) == Ok(StateOf(cs))
    ensures Run(START, cs, true) != Err(ChunkAfterIend)
  {
    hide Step, StateOf, Fits;
    if cs != [] {
      FirstStep(cs[0], |cs| == 1);
      NotAfterIend(cs[0], |cs| == 1);
      if GoodHeader(cs[0]) {
        assert cs[..1] == [cs[0]];
        RunFits(cs, 1);
      }
    }
  }

  lemma NotAfterIend(c: Chunk, last: bool)
    requires Sized(c)
    ensures Step(START, c, true, last) != Err(ChunkAfterIend)
  {
  }

  // ---- the grammar ----

  ghost predicate Unique(cs: seq<Chunk>, kind: nat) {
    forall i, j | 0 <= i < j < |cs| :: cs[i].kind == kind ==> cs[j].kind != kind
  }

  ghost predicate BeforeImage(cs: seq<Chunk>, kind: nat) {
    forall i, j | 0 <= i < |cs| && 0 <= j < |cs| :: cs[i].kind == kind && cs[j].kind == IDAT ==> i < j
  }

  /** The image chunks are exactly those from a up to b. */
  ghost predicate ImageRun(cs: seq<Chunk>, a: nat, b: nat) {
    a < b <= |cs| && forall i | 0 <= i < |cs| :: a <= i < b <==> cs[i].kind == IDAT
  }

  ghost predicate Known(kind: nat) {
    kind == IHDR || kind == PLTE || kind == TRNS || kind == IDAT || kind == IEND
  }

  ghost predicate HeaderRule(cs: seq<Chunk>) {
    && cs != [] && cs[0].kind == IHDR && HeaderField(cs[0].data)
    && forall i | 1 <= i < |cs| :: cs[i].kind != IHDR
  }

  ghost predicate EndRule(cs: seq<Chunk>) {
    && cs != [] && cs[|cs| - 1] == Chunk(IEND, [])
    && forall i | 0 <= i < |cs| - 1 :: cs[i].kind != IEND
  }

  ghost predicate ImageRule(cs: seq<Chunk>) {
    |ImageData(cs)| <= 16 * 1024 * 1024 && exists a: nat, b: nat :: ImageRun(cs, a, b)
  }

  ghost predicate PaletteRule(cs: seq<Chunk>, ct: byte) {
    && Unique(cs, PLTE) && BeforeImage(cs, PLTE)
    && (forall i | 0 <= i < |cs| && cs[i].kind == PLTE :: PaletteField(ct, cs[i].data))
    && (ct == 3 ==> exists i | 0 <= i < |cs| :: cs[i].kind == PLTE)
  }

  ghost predicate TransparencyRule(cs: seq<Chunk>, ct: byte) {
    && Unique(cs, TRNS) && BeforeImage(cs, TRNS)
    && forall i | 0 <= i < |cs| && cs[i].kind == TRNS :: TransparencyField(ct, Entries(cs[..i]), cs[i].data)
  }

  /** The number of palette entries so far. */
  ghost function Entries(p: seq<Chunk>): nat {
    if Latest(p, PLTE).None? then 0 else |Latest(p, PLTE).value| / 3
  }

  ghost predicate AncillaryRule(cs: seq<Chunk>)
    requires AllSized(cs)
  {
    forall i | 0 <= i < |cs| && !Known(cs[i].kind) :: !UpperCase(cs[i].kind)
  }

  ghost predicate Grammar(cs: seq<Chunk>) {
    && AllSized(cs) && HeaderRule(cs) && EndRule(cs) && ImageRule(cs)
    && PaletteRule(cs, cs[0].data[9]) && TransparencyRule(cs, cs[0].data[9]) && AncillaryRule(cs)
  }

  // ---- the tests of the validator are the fields of the standard ----

  lemma NumberFour(b: seq<byte>)
    requires |b| == 4
    ensures AsNumber(b) == U32(b)
  {
    assert b[..3][..2] == b[..2] && b[..2][..1] == b[..1] && b[..1][..0] == [];
    assert AsNumber(b[..1]) == b[0];
    assert AsNumber(b[..2]) == 256 * AsNumber(b[..1]) + b[1];
    assert AsNumber(b[..3]) == 256 * AsNumber(b[..2]) + b[2];
  }

  lemma NumberTwo(b: seq<byte>)
    requires |b| == 2
    ensures AsNumber(b) == 256 * b[0] as int + b[1]
  {
    assert b[..1][..0] == [];
    assert AsNumber(b[..1]) == b[0];
  }

  lemma SamplesMean(colorType: byte)
    requires ColorTypeField(colorType)
    ensures ChannelsOf(colorType) == Samples(colorType)
  {
  }

  lemma HeaderMeans(c: Chunk)
    ensures GoodHeader(c) <==> c.kind == IHDR && HeaderField(c.data)
    ensures HeaderField(c.data) ==>
      HeaderOf(c.data) == Header(AsNumber(c.data[..4]), AsNumber(c.data[4..8]), c.data[9])
  {
    hide U32, AsNumber, Samples, ChannelsOf;
    var data := c.data;
    if |data| == 13 {
      NumberFour(data[..4]);
      NumberFour(data[4..8]);
      assert data[10..] == [data[10], data[11], data[12]];
      if ColorTypeField(data[9]) {
        SamplesMean(data[9]);
        var w, h, n := U32(data[..4]), U32(data[4..8]), ChannelsOf(data[9]);
        assert h * (1 + w * n) == (w * n + 1) * h;
      }
    }
  }

  lemma PaletteMeans(colorType: byte, data: seq<byte>)
    requires ColorTypeField(colorType)
    ensures PaletteData(colorType, data) <==> PaletteField(colorType, data)
  {
  }

  lemma TransparencyMeans(p: seq<Chunk>, colorType: byte, data: seq<byte>)
    ensures TransparencyData(colorType, Latest(p, PLTE), data) <==> TransparencyField(colorType, Entries(p), data)
  {
    hide Latest, AsNumber;
    if colorType == 0 && |data| == 2 { NumberTwo(data); }
    if colorType == 2 && |data| == 6 {
      NumberTwo(data[..2]);
      NumberTwo(data[2..4]);
      NumberTwo(data[4..]);
    }
  }

  lemma CriticalMeans(kind: nat)
    ensures Critical(kind) <==> UpperCase(kind)
  {
  }

  lemma GrammarStarts(cs: seq<Chunk>)
    requires HeaderRule(cs)
    ensures Starts(cs) && ColorType(cs) == cs[0].data[9] && ColorTypeField(cs[0].data[9])
  {
    HeaderMeans(cs[0]);
  }

  lemma {:induction false} SeenAt(p: seq<Chunk>)
    ensures Seen(p) <==> exists i | 0 <= i < |p| :: p[i].kind == IDAT
    decreases |p|
  {
    if p != [] {
      var init := p[..|p| - 1];
      SeenAt(init);
      assert forall i | 0 <= i < |init| :: init[i] == p[i];
      if p[|p| - 1].kind != IDAT && Seen(p) {
        var i :| 0 <= i < |init| && init[i].kind == IDAT;
        assert p[i].kind == IDAT;
      }
    }
  }

  lemma {:induction false} LatestAt(p: seq<Chunk>, kind: nat)
    ensures Latest(p, kind).Some? <==> exists i | 0 <= i < |p| :: p[i].kind == kind
    decreases |p|
  {
    if p != [] {
      var init := p[..|p| - 1];
      LatestAt(init, kind);
      assert forall i | 0 <= i < |init| :: init[i] == p[i];
      if p[|p| - 1].kind != kind && Latest(p, kind).Some? {
        var i :| 0 <= i < |init| && init[i].kind == kind;
        assert p[i].kind == kind;
      }
    }
  }

  lemma {:induction false} ClosedAt(p: seq<Chunk>)
    ensures Closed(p) ==> exists i, k | 0 <= i < k < |p| :: p[i].kind == IDAT && p[k].kind != IDAT && p[k].kind != IEND
    decreases |p|
  {
    if Closed(p) {
      var init := p[..|p| - 1];
      ClosedAt(init);
      if Closed(init) {
        var i, k :| 0 <= i < k < |init| && init[i].kind == IDAT && init[k].kind != IDAT && init[k].kind != IEND;
        assert p[i].kind == IDAT && p[k].kind != IDAT && p[k].kind != IEND;
      } else {
        SeenAt(init);
        var i :| 0 <= i < |init| && init[i].kind == IDAT;
        assert p[i].kind == IDAT && p[|p| - 1].kind != IDAT && p[|p| - 1].kind != IEND;
      }
    }
  }

  lemma {:induction false} ImageDataGrows(cs: seq<Chunk>, j: nat)
    requires j <= |cs|
    ensures |ImageData(cs[..j])| <= |ImageData(cs)|
    decreases |cs|
  {
    if j < |cs| {
      ImageDataGrows(cs[..|cs| - 1], j);
      assert cs[..|cs| - 1][..j] == cs[..j];
    } else {
      assert cs[..j] == cs;
    }
  }

  // ---- fitting chunk by chunk is the grammar ----

  ghost predicate Ended(cs: seq<Chunk>) {
    cs != [] && cs[|cs| - 1].kind == IEND
  }

  lemma EndRuleHolds(cs: seq<Chunk>)
    requires AllFit(cs) && Ended(cs)
    ensures EndRule(cs) && HeaderRule(cs) && AncillaryRule(cs)
  {
    hide PlteFits, TrnsFits, IdatFits, GoodHeader, HeaderField, Critical, UpperCase;
    HeaderMeans(cs[0]);
    assert cs[0].kind == IHDR by { HeaderKind(cs); }
    assert FitsAt(cs, |cs| - 1);
    forall i | 1 <= i < |cs| ensures cs[i].kind != IHDR && (cs[i].kind == IEND ==> i == |cs| - 1) {
      assert FitsAt(cs, i);
    }
    forall i | 0 <= i < |cs| && !Known(cs[i].kind) ensures !UpperCase(cs[i].kind) {
      assert FitsAt(cs, i);
      CriticalMeans(cs[i].kind);
    }
  }

  lemma HeaderKind(cs: seq<Chunk>)
    requires Starts(cs)
    ensures cs[0].kind == IHDR
  {
  }

  /** The image chunks of a prefix are contiguous, and reach its end while it is open. */
  lemma {:induction false} PrefixRun(cs: seq<Chunk>, n: nat) returns (a: nat, b: nat)
    requires AllFit(cs) && EndRule(cs) && n < |cs|
    ensures Seen(cs[..n]) ==> ImageRun(cs[..n], a, b)
    ensures Seen(cs[..n]) && !Closed(cs[..n]) ==> b == n
    decreases n
  {
    hide PlteFits, TrnsFits;
    a, b := 0, 0;
    if n > 0 {
      var p, c := cs[..n - 1], cs[n - 1];
      assert cs[..n] == p + [c];
      Extend(p, c);
      a, b := PrefixRun(cs, n - 1);
      if n > 1 { assert FitsAt(cs, n - 1); }
      HeaderKind(cs);
      SeenAt(p);
      if c.kind == IDAT {
        if !Seen(p) { a := n - 1; }
        b := n;
      }
      assert forall i | 0 <= i < n - 1 :: cs[..n][i] == p[i];
    }
  }

  lemma ImageRuleHolds(cs: seq<Chunk>)
    requires AllFit(cs) && EndRule(cs) && HeaderRule(cs)
    ensures ImageRule(cs)
  {
    hide PlteFits, TrnsFits, IdatFits, Seen, GoodHeader, ImageData;
    HeaderKind(cs);
    var n := |cs| - 1;
    assert FitsAt(cs, n);
    var a, b := PrefixRun(cs, n);
    assert forall i | 0 <= i < n :: cs[..n][i] == cs[i];
    assert ImageRun(cs, a, b);
    ImageBound(cs, |cs|);
    assert cs[..|cs|] == cs;
  }

  lemma {:induction false} ImageBound(cs: seq<Chunk>, n: nat)
    requires AllFit(cs) && n <= |cs|
    ensures |ImageData(cs[..n])| <= MAX_COMPRESSED
    decreases n
  {
    hide PlteFits, TrnsFits;
    if n > 0 {
      ImageBound(cs, n - 1);
      assert cs[..n] == cs[..n - 1] + [cs[n - 1]];
      Extend(cs[..n - 1], cs[n - 1]);
      HeaderKind(cs);
      if n > 1 { assert FitsAt(cs, n - 1); }
    }
  }

  lemma BeforeBoth(cs: seq<Chunk>, kind: nat)
    requires AllFit(cs) && (kind == PLTE || kind == TRNS)
    ensures Unique(cs, kind) && BeforeImage(cs, kind)
  {
    hide IdatFits, GoodHeader, PaletteData, TransparencyData;
    HeaderKind(cs);
    forall i, j | 0 <= i < |cs| && 0 <= j < |cs| && cs[j].kind == kind
      ensures cs[i].kind == IDAT ==> j < i
      ensures i < j ==> cs[i].kind != kind
    {
      assert FitsAt(cs, j);
      var p := cs[..j];
      SeenAt(p);
      LatestAt(p, kind);
      if i < j { assert p[i] == cs[i]; }
    }
  }

  lemma IndexedHasPalette(cs: seq<Chunk>)
    requires AllFit(cs) && EndRule(cs) && ColorType(cs) == 3
    ensures exists i | 0 <= i < |cs| :: cs[i].kind == PLTE
  {
    hide GoodHeader, PaletteData, TransparencyData, PlteFits, TrnsFits;
    HeaderKind(cs);
    var n := |cs| - 1;
    assert FitsAt(cs, n);
    SeenAt(cs[..n]);
    var k :| 0 <= k < n && cs[..n][k].kind == IDAT;
    assert FitsAt(cs, k);
    LatestAt(cs[..k], PLTE);
    var i :| 0 <= i < k && cs[..k][i].kind == PLTE;
    assert cs[i].kind == PLTE;
  }

  lemma PaletteRuleHolds(cs: seq<Chunk>)
    requires AllFit(cs) && EndRule(cs) && HeaderRule(cs)
    ensures PaletteRule(cs, cs[0].data[9]) && TransparencyRule(cs, cs[0].data[9])
  {
    hide GoodHeader, PaletteData, TransparencyData, Unique, BeforeImage, HeaderField, HeaderOf;
    hide PaletteField, TransparencyField, Entries, ColorTypeField;
    GrammarStarts(cs);
    HeaderKind(cs);
    BeforeBoth(cs, PLTE);
    BeforeBoth(cs, TRNS);
    forall i | 0 <= i < |cs|
      ensures cs[i].kind == PLTE ==> PaletteField(ColorType(cs), cs[i].data)
      ensures cs[i].kind == TRNS ==> TransparencyField(ColorType(cs), Entries(cs[..i]), cs[i].data)
    {
      if i > 0 { assert FitsAt(cs, i); }
      PaletteMeans(ColorType(cs), cs[i].data);
      TransparencyMeans(cs[..i], ColorType(cs), cs[i].data);
    }
    if ColorType(cs) == 3 { IndexedHasPalette(cs); }
  }

  lemma FitIsGrammar(cs: seq<Chunk>)
    requires AllFit(cs) && Ended(cs)
    ensures Grammar(cs)
  {
    hide FitsAt, EndRule, ImageRule, PaletteRule, TransparencyRule, AncillaryRule;
    EndRuleHolds(cs);
    ImageRuleHolds(cs);
    PaletteRuleHolds(cs);
  }

  lemma TableFits(cs: seq<Chunk>, j: nat, kind: nat)
    requires Unique(cs, kind) && BeforeImage(cs, kind) && j < |cs| && cs[j].kind == kind
    ensures !Seen(cs[..j]) && Latest(cs[..j], kind).None?
  {
    var p := cs[..j];
    SeenAt(p);
    LatestAt(p, kind);
    assert forall i | 0 <= i < j :: p[i] == cs[i];
  }

  lemma NotClosed(cs: seq<Chunk>, j: nat)
    requires ImageRule(cs) && j < |cs| && cs[j].kind == IDAT
    ensures !Closed(cs[..j])
  {
    hide Closed, ImageData;
    ClosedAt(cs[..j]);
    assert forall i | 0 <= i < j :: cs[..j][i] == cs[i];
  }

  lemma PaletteSeen(cs: seq<Chunk>, j: nat)
    requires BeforeImage(cs, PLTE) && (exists i | 0 <= i < |cs| :: cs[i].kind == PLTE) && j < |cs| && cs[j].kind == IDAT
    ensures Latest(cs[..j], PLTE).Some?
  {
    hide Latest;
    var i :| 0 <= i < |cs| && cs[i].kind == PLTE;
    assert i < j && cs[..j][i].kind == PLTE;
    LatestAt(cs[..j], PLTE);
  }

  lemma ImageFits(cs: seq<Chunk>, j: nat)
    requires ImageRule(cs) && Starts(cs) && PaletteRule(cs, ColorType(cs)) && j < |cs| && cs[j].kind == IDAT
    ensures IdatFits(cs[..j], ColorType(cs), cs[j].data)
  {
    hide GoodHeader, PaletteData, Unique, BeforeImage, Latest, Closed, Seen, ImageData, ImageRun;
    NotClosed(cs, j);
    if ColorType(cs) == 3 { PaletteSeen(cs, j); }
    ImageDataGrows(cs, j + 1);
    assert cs[..j + 1] == cs[..j] + [cs[j]];
    Extend(cs[..j], cs[j]);
  }

  lemma EndFits(cs: seq<Chunk>)
    requires ImageRule(cs) && EndRule(cs)
    ensures Seen(cs[..|cs| - 1])
  {
    var p := cs[..|cs| - 1];
    SeenAt(p);
    var a: nat, b: nat :| ImageRun(cs, a, b);
    assert cs[a].kind == IDAT && a < |cs| - 1;
    assert p[a].kind == IDAT;
  }

  lemma GrammarFits(cs: seq<Chunk>)
    requires Grammar(cs)
    ensures AllFit(cs) && Ended(cs)
  {
    hide GoodHeader, PaletteData, TransparencyData, Critical, Unique, BeforeImage, ImageRule, IdatFits, Seen, Latest;
    hide HeaderField, HeaderOf, PaletteField, TransparencyField, UpperCase, Entries, ColorTypeField;
    GrammarStarts(cs);
    forall j | 1 <= j < |cs| ensures FitsAt(cs, j) {
      PaletteMeans(ColorType(cs), cs[j].data);
      TransparencyMeans(cs[..j], ColorType(cs), cs[j].data);
      CriticalMeans(cs[j].kind);
      if cs[j].kind == PLTE || cs[j].kind == TRNS {
        TableFits(cs, j, cs[j].kind);
      } else if cs[j].kind == IDAT {
        ImageFits(cs, j);
      } else if cs[j].kind == IEND {
        EndFits(cs);
      }
    }
  }

  lemma GrammarFinishes(cs: seq<Chunk>)
    requires Grammar(cs)
    ensures Finish(StateOf(cs)) == Ok(StateOf(cs))
  {
    LatestAt(cs, PLTE);
  }

  lemma HeaderBytes(cs: seq<Chunk>)
    requires AllSized(cs) && Starts(cs)
    ensures |Serialize(cs)| >= 25
  {
  }

  // ---- the theorem ----

  lemma SignedChunks(s: seq<byte>)
    requires |s| >= 25
    ensures Chunks(SIGNATURE + s) == match Scan(START, s, true) case Err(e) => Err(e) case Ok(st) => Finish(st)
  {
    hide Scan, Finish;
    assert (SIGNATURE + s)[8..] == s && (SIGNATURE + s)[..8] == SIGNATURE;
  }

  /** A file in the grammar is accepted, and what the loop collected is what the chunks
      say. */
  lemma GrammarAccepted(cs: seq<Chunk>)
    requires Grammar(cs)
    ensures Chunks(SIGNATURE + Serialize(cs)) == Ok(StateOf(cs))
  {
    hide Scan, Grammar, StateOf, Finish, Chunks, Run, Serialize, Ended;
    GrammarFits(cs);
    HeaderBytes(cs);
    SignedChunks(Serialize(cs));
    ScanRuns(START, cs, true);
    RunAll(cs);
    GrammarFinishes(cs);
  }

  lemma AcceptedScans(bytes: seq<byte>)
    requires Chunks(bytes).Ok?
    ensures |bytes| >= 8 && bytes == SIGNATURE + bytes[8..] && Scan(START, bytes[8..], true).Ok?
    ensures Finish(Scan(START, bytes[8..], true).value).Ok?
  {
    hide Scan, Finish;
    assert bytes == bytes[..8] + bytes[8..];
  }

  /** Nothing else is accepted. */
  lemma AcceptedInGrammar(bytes: seq<byte>) returns (cs: seq<Chunk>)
    requires Chunks(bytes).Ok?
    ensures Grammar(cs) && bytes == SIGNATURE + Serialize(cs)
  {
    hide Scan, Grammar, Chunks, Serialize, Step, FitsAt;
    AcceptedScans(bytes);
    cs := ScannedTiles(START, bytes[8..], true);
    ScanRuns(START, cs, true);
    RunAll(cs);
    FitIsGrammar(cs);
  }

  /** The branch for a chunk after IEND is never taken: the branch before it has already
      required IEND to end the file. */
  lemma {:induction false} NoChunkAfterIend(bytes: seq<byte>)
    ensures Chunks(bytes) != Err(ChunkAfterIend)
  {
    hide Step, TakeChunk;
    if Signed(bytes) {
      NoIendYet(START, bytes[8..], true);
    }
  }

  lemma {:induction false} NoIendYet(st: State, bytes: seq<byte>, first: bool)
    requires st.sawIend ==> bytes == []
    ensures Scan(st, bytes, first) != Err(ChunkAfterIend)
    decreases |bytes|
  {
    hide Step, TakeChunk;
    if bytes != [] && TakeChunk(bytes).Ok? {
      var (c, size) := TakeChunk(bytes).value;
      Taken(bytes);
      IendIsLast(st, c, first, size == |bytes|);
      var next := Step(st, c, first, size == |bytes|);
      if next.Ok? { NoIendYet(next.value, bytes[size..], false); }
    }
    TakeErrors(bytes);
  }

  lemma IendIsLast(st: State, c: Chunk, first: bool, last: bool)
    requires !st.sawIend
    ensures var r := Step(st, c, first, last); r != Err(ChunkAfterIend) && (r.Ok? && r.value.sawIend ==> last)
  {
  }

  lemma TakeErrors(bytes: seq<byte>)
    ensures TakeChunk(bytes) != Err(ChunkAfterIend)
  {
  }

  /** The smallest file in the grammar: one grey pixel, its image data left to the decompressor. */
  ghost function Smallest(): seq<Chunk> {
    [Chunk(IHDR, [0, 0, 0, 1, 0, 0, 0, 1, 8, 0, 0, 0, 0]), Chunk(IDAT, []), Chunk(IEND, [])]
  }

  lemma SmallestData()
    ensures ImageData(Smallest()) == [] && Latest(Smallest(), PLTE) == None && Latest(Smallest(), TRNS) == None
  {
    var cs := Smallest();
    var two := cs[..|cs| - 1];
    var one := two[..|two| - 1];
    assert two == [cs[0], cs[1]] && one == [cs[0]] && one[..|one| - 1] == [];
    assert ImageData(one) == [];
    assert ImageData(two) == [];
    assert Latest(one, PLTE) == None && Latest(one, TRNS) == None;
    assert Latest(two, PLTE) == None && Latest(two, TRNS) == None;
  }

  lemma SmallestHeader()
    ensures HeaderField(Smallest()[0].data) && HeaderOf(Smallest()[0].data) == Header(1, 1, 0)
  {
    hide HeaderField;
    HeaderMeans(Smallest()[0]);
    var h := Smallest()[0].data;
    assert h[..4] == [0, 0, 0, 1] && h[4..8] == [0, 0, 0, 1];
    assert U32([0, 0, 0, 1]) == 1;
  }

  lemma SmallestInGrammar()
    ensures AllSized(Smallest()) && Grammar(Smallest())
  {
    hide ImageData, Latest, HeaderField, HeaderOf;
    SmallestHeader();
    SmallestData();
    assert ImageRun(Smallest(), 1, 2);
  }
}
