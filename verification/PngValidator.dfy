/** The whole PNG validator: chunks, decompression (a parameter) and raster. */
module PngValidator {
  import opened Json
  import opened Bytes
  import opened PngRaster
  import opened PngChunks
  import opened PngGrammar
  import opened PngStandard
  import Crc32

  /** What a zlib decoder yields before it reports its end or an error. */
  datatype Inflated = Inflated(raw: seq<byte>, clean: bool)

  datatype PngInfo = PngInfo(width: nat, height: nat, alphaCapable: bool, hasTransparentPixels: bool)

  function FormatOf(st: State): Format
    requires st.ihdr.Some?
  {
    var h := st.ihdr.value;
    Format(h.width, h.height, h.colorType, st.palette, st.transparency)
  }

  function InfoOf(st: State, has: bool): PngInfo
    requires st.ihdr.Some?
  {
    var h := st.ihdr.value;
    PngInfo(h.width, h.height, h.colorType == 4 || h.colorType == 6 || st.transparency.Some?, has)
  }

  lemma {:induction false} LatestIs(p: seq<Chunk>, kind: nat)
    ensures Latest(p, kind).Some? ==> exists i | 0 <= i < |p| :: p[i].kind == kind && p[i].data == Latest(p, kind).value
    decreases |p|
  {
    if p != [] {
      var init := p[..|p| - 1];
      LatestIs(init, kind);
      assert forall i | 0 <= i < |init| :: init[i] == p[i];
      if Latest(p, kind).Some? && p[|p| - 1].kind != kind {
        var i :| 0 <= i < |init| && init[i].kind == kind && init[i].data == Latest(init, kind).value;
        assert p[i].kind == kind;
      }
    }
  }

  /** The data of the one chunk of some type, if there is one. */
  ghost function Table(cs: seq<Chunk>, kind: nat): Option<seq<byte>> {
    if i :| 0 <= i < |cs| && cs[i].kind == kind then Some(cs[i].data) else None
  }

  lemma TableIsLatest(cs: seq<Chunk>, kind: nat)
    requires Unique(cs, kind)
    ensures Table(cs, kind) == Latest(cs, kind)
  {
    LatestAt(cs, kind);
    LatestIs(cs, kind);
  }

  lemma TransparencyLengths(colorType: byte, entries: nat, data: seq<byte>)
    requires TransparencyField(colorType, entries, data)
    ensures (colorType == 0 ==> |data| == 2) && (colorType == 2 ==> |data| == 6)
  {
  }

  lemma GrammarConsistent(cs: seq<Chunk>)
    requires Grammar(cs)
    ensures FormatOf(StateOf(cs)).Consistent()
    ensures FormatOf(StateOf(cs)) == Declared(cs)
  {
    hide HeaderField, HeaderOf, TransparencyField, PaletteField, Table, Latest, Entries, ColorTypeField, ImageRule;
    HeaderMeans(cs[0]);
    GrammarStarts(cs);
    ColorTypes(cs[0].data[9]);
    HeaderSize(cs[0].data);
    TableIsLatest(cs, PLTE);
    TableIsLatest(cs, TRNS);
    LatestIs(cs, TRNS);
    LatestAt(cs, PLTE);
    if Latest(cs, TRNS).Some? {
      var i :| 0 <= i < |cs| && cs[i].kind == TRNS && cs[i].data == Latest(cs, TRNS).value;
      TransparencyLengths(cs[0].data[9], Entries(cs[..i]), cs[i].data);
    }
  }

  lemma ColorTypes(colorType: byte)
    ensures ColorTypeField(colorType) <==> colorType in {0, 2, 3, 4, 6}
  {
  }

  lemma HeaderSize(data: seq<byte>)
    requires HeaderField(data)
    ensures |data| == 13 && AsNumber(data[..4]) >= 1
  {
  }

  /** The raster layout that the chunks of a file declare: width and height as big-endian numbers, the
      colour type, the palette and the transparency table. */
  ghost function Declared(cs: seq<Chunk>): Format
    requires HeaderRule(cs)
  {
    HeaderSize(cs[0].data);
    var h := cs[0].data;
    Format(AsNumber(h[..4]), AsNumber(h[4..8]), h[9], Table(cs, PLTE), Table(cs, TRNS))
  }

  lemma ChunksConsistent(bytes: seq<byte>)
    requires Chunks(bytes).Ok?
    ensures Chunks(bytes).value.ihdr.Some? && FormatOf(Chunks(bytes).value).Consistent()
  {
    hide Chunks, Grammar, StateOf;
    var cs := AcceptedInGrammar(bytes);
    GrammarAccepted(cs);
    GrammarConsistent(cs);
    GrammarState(cs);
  }

  lemma GrammarState(cs: seq<Chunk>)
    requires Grammar(cs)
    ensures StateOf(cs).ihdr.Some? && StateOf(cs).idat == ImageData(cs)
  {
    HeaderSize(cs[0].data);
  }

  function Validate(bytes: seq<byte>, inflate: seq<byte> -> Inflated): Outcome<PngInfo> {
    var st :- Chunks(bytes);
    ChunksConsistent(bytes);
    var f, inflated := FormatOf(st), inflate(st.idat);
    match Decode(f, inflated.raw, inflated.clean, BlankRow(f.RowBytes()), f.height)
    case Rejected(error) => Err(Raster(error))
    case Transparent(has) => Ok(InfoOf(st, has))
  }

  method ValidatePng(bytes: seq<byte>, inflate: seq<byte> -> Inflated) returns (r: Outcome<PngInfo>)
    ensures r == Validate(bytes, inflate)
  {
    hide Chunks, Decode;
    var chunks := ReadChunks(bytes);
    if chunks.Err? { return Err(chunks.error); }
    ChunksConsistent(bytes);
    var st := chunks.value;
    var inflated := inflate(st.idat);
    var raster := DecodeRaster(FormatOf(st), inflated.raw, inflated.clean);
    match raster
    case Rejected(error) => r := Err(Raster(error));
    case Transparent(has) => r := Ok(InfoOf(st, has));
  }

  ghost function Layout(cs: seq<Chunk>): (f: Format)
    requires Grammar(cs)
    ensures f.Consistent()
  {
    GrammarConsistent(cs);
    Declared(cs)
  }

  /** Its pixels have alpha, or it has a transparency table. */
  ghost predicate AlphaCapable(cs: seq<Chunk>)
    requires Grammar(cs)
  {
    Bit(Layout(cs).colorType, 4) || exists i | 0 <= i < |cs| :: cs[i].kind == TRNS
  }

  /** The image data of the chunks inflate to the filtered rows of an image. */
  ghost predicate Holds(f: Format, data: seq<byte>, lines: seq<Line>, inflate: seq<byte> -> Inflated)
    requires f.Consistent()
  {
    && Image(f, lines, f.height) && Image(f, lines, |lines|) && AllInPalette(f, lines)
    && inflate(data) == Inflated(Encode(f, BlankRow(f.RowBytes()), lines), true)
  }

  lemma StateFacts(cs: seq<Chunk>)
    requires Grammar(cs)
    ensures StateOf(cs).ihdr.Some? && StateOf(cs).idat == ImageData(cs) && FormatOf(StateOf(cs)) == Layout(cs)
    ensures forall has ::
      InfoOf(StateOf(cs), has) == PngInfo(Layout(cs).width, Layout(cs).height, AlphaCapable(cs), has)
  {
    hide Grammar, StateOf, Declared, Format.Consistent;
    GrammarConsistent(cs);
    GrammarState(cs);
    GrammarTables(cs);
    AlphaBit(cs[0].data[9]);
  }

  lemma GrammarTables(cs: seq<Chunk>)
    requires Grammar(cs)
    ensures HeaderRule(cs) && |cs[0].data| == 13 && ColorTypeField(cs[0].data[9])
    ensures Declared(cs).colorType == cs[0].data[9] && Declared(cs).transparency == Table(cs, TRNS)
  {
    hide HeaderField;
    GrammarStarts(cs);
    HeaderSize(cs[0].data);
  }

  lemma AlphaBit(colorType: byte)
    requires ColorTypeField(colorType)
    ensures Bit(colorType, 4) <==> colorType == 4 || colorType == 6
  {
  }

  /** A file whose chunks are in order and whose image data inflate to an image is
      accepted, with the image's own size and transparency. */
  lemma ValidAccepted(cs: seq<Chunk>, lines: seq<Line>, inflate: seq<byte> -> Inflated)
    requires Grammar(cs) && Holds(Layout(cs), ImageData(cs), lines, inflate)
    ensures Validate(SIGNATURE + Serialize(cs), inflate)
      == Ok(PngInfo(Layout(cs).width, Layout(cs).height, AlphaCapable(cs), SomeTransparent(Layout(cs), lines)))
  {
    hide Chunks, Grammar, StateOf, Decode, Encode, AllInPalette, SomeTransparent, Serialize, FormatOf, InfoOf, Layout;
    hide Format.Consistent, BlankRow;
    var f := Layout(cs);
    GrammarAccepted(cs);
    StateFacts(cs);
    DecodeEncoded(f, BlankRow(f.RowBytes()), lines);
  }

  /** And every accepted file is of that form. */
  lemma AcceptedValid(bytes: seq<byte>, inflate: seq<byte> -> Inflated) returns (cs: seq<Chunk>, lines: seq<Line>)
    requires Validate(bytes, inflate).Ok?
    ensures Grammar(cs) && bytes == SIGNATURE + Serialize(cs) && Holds(Layout(cs), ImageData(cs), lines, inflate)
  {
    hide Chunks, Grammar, StateOf, Decode, Encode, AllInPalette, Serialize, FormatOf, InfoOf, Layout;
    hide Format.Consistent, BlankRow;
    cs := AcceptedInGrammar(bytes);
    GrammarAccepted(cs);
    StateFacts(cs);
    var f, inflated := Layout(cs), inflate(ImageData(cs));
    lines := AcceptedIsEncoded(f, inflated.raw, inflated.clean, BlankRow(f.RowBytes()), f.height);
  }

  lemma {:induction false} FrontOfChunk(c: Chunk, rest: seq<byte>)
    requires Sized(c) && |c.data| == 13
    ensures var b := SIGNATURE + (ChunkBytes(c) + rest);
      && |b| >= 33 && b[..8] == [137, 80, 78, 71, 13, 10, 26, 10]
      && AsNumber(b[8..12]) == 13 && AsNumber(b[12..16]) == c.kind && b[16..29] == c.data
  {
    hide BigEndian, U32, AsNumber, Crc;
    var b := SIGNATURE + (ChunkBytes(c) + rest);
    assert b[8..12] == BigEndian(13);
    assert b[12..16] == BigEndian(c.kind);
    assert b[16..29] == c.data;
    NumberFour(b[8..12]);
    NumberFour(b[12..16]);
  }

  /** The types are the letters of the standard, sections 11.2 and 11.3. */
  lemma TypeLetters()
    ensures AsNumber([73, 72, 68, 82]) == IHDR && AsNumber([80, 76, 84, 69]) == PLTE
    ensures AsNumber([116, 82, 78, 83]) == TRNS && AsNumber([73, 68, 65, 84]) == IDAT
    ensures AsNumber([73, 69, 78, 68]) == IEND
  {
    NumberFour([73, 72, 68, 82]);
    NumberFour([80, 76, 84, 69]);
    NumberFour([116, 82, 78, 83]);
    NumberFour([73, 68, 65, 84]);
    NumberFour([73, 69, 78, 68]);
  }

  lemma EndBytes()
    ensures ChunkBytes(Chunk(IEND, [])) == [0, 0, 0, 0, 73, 69, 78, 68, 0xae, 0x42, 0x60, 0x82]
  {
    hide Crc, BigEndian, U32, AsNumber;
    var c := Chunk(IEND, []);
    EndWords();
    assert Body(c) == BigEndian(IEND);
    EndCrc();
  }

  lemma EndWords()
    ensures BigEndian(0) == [0, 0, 0, 0] && BigEndian(IEND) == [73, 69, 78, 68]
    ensures BigEndian(0xae42_6082) == [0xae, 0x42, 0x60, 0x82]
  {
    U32Injective(BigEndian(0), [0, 0, 0, 0]);
    U32Injective(BigEndian(IEND), [73, 69, 78, 68]);
    U32Injective(BigEndian(0xae42_6082), [0xae, 0x42, 0x60, 0x82]);
  }

  lemma {:induction false} SerializeBack(cs: seq<Chunk>)
    requires cs != [] && AllSized(cs)
    ensures var back, all := ChunkBytes(cs[|cs| - 1]), Serialize(cs);
      |back| <= |all| && all[|all| - |back|..] == back
    decreases |cs|
  {
    hide ChunkBytes;
    SerializeFront(cs);
    if |cs| > 1 {
      SerializeBack(cs[1..]);
    } else {
      assert Serialize(cs[1..]) == [];
    }
  }

  lemma EndCrc()
    ensures Crc([73, 69, 78, 68]) == 0xae42_6082
  {
    hide Crc32.Crc;
    Crc32.IendCrc();
    WideLetters([73, 69, 78, 68]);
  }

  lemma WideLetters(b: seq<byte>)
    requires b == [73, 69, 78, 68]
    ensures seq(|b|, i requires 0 <= i < |b| => b[i] as bv8) == [73, 69, 78, 68]
  {
    var wide := seq(|b|, i requires 0 <= i < |b| => b[i] as bv8);
    assert |wide| == 4 && wide[0] == 73 && wide[1] == 69 && wide[2] == 78 && wide[3] == 68;
  }

  lemma LastChunk(cs: seq<Chunk>, bytes: seq<byte>)
    requires Grammar(cs) && bytes == SIGNATURE + Serialize(cs)
    ensures |bytes| >= 12 && bytes[|bytes| - 12..] == [0, 0, 0, 0, 73, 69, 78, 68, 0xae, 0x42, 0x60, 0x82]
  {
    hide HeaderField, ImageRule, PaletteRule, TransparencyRule, AncillaryRule, ChunkBytes, Serialize;
    SerializeBack(cs);
    EndBytes();
    var all := Serialize(cs);
    assert bytes[|bytes| - 12..] == all[|all| - 12..];
  }

  /** An accepted file begins with the signature and its IHDR chunk and ends with an IEND chunk; the
      result has the width and height of those bytes, and the data inflate to exactly the size they
      announce. */
  lemma AcceptedBytes(bytes: seq<byte>, inflate: seq<byte> -> Inflated) returns (cs: seq<Chunk>)
    requires Validate(bytes, inflate).Ok?
    ensures Grammar(cs) && bytes == SIGNATURE + Serialize(cs)
    ensures |bytes| >= 33 && bytes[..8] == [137, 80, 78, 71, 13, 10, 26, 10]
    ensures AsNumber(bytes[8..12]) == 13 && AsNumber(bytes[12..16]) == IHDR && HeaderField(bytes[16..29])
    ensures bytes[|bytes| - 12..] == [0, 0, 0, 0, 73, 69, 78, 68, 0xae, 0x42, 0x60, 0x82]
    ensures var info := Validate(bytes, inflate).value;
      && info.width == AsNumber(bytes[16..20]) && info.height == AsNumber(bytes[20..24])
      && (info.alphaCapable <==> Bit(bytes[25], 4) || exists i | 0 <= i < |cs| :: cs[i].kind == TRNS)
      && |inflate(ImageData(cs)).raw| == info.height * (1 + info.width * Samples(bytes[25])) <= 14 * 1024 * 1024
  {
    hide Chunks, Grammar, StateOf, Decode, Encode, AllInPalette, Serialize, FormatOf, InfoOf, Layout, ImageData;
    hide Format.Consistent, BlankRow, HeaderField, Samples, ChannelsOf, Bit;
    var lines;
    cs, lines := AcceptedValid(bytes, inflate);
    GrammarAccepted(cs);
    StateFacts(cs);
    var f := Layout(cs);
    EncodedLength(f, BlankRow(f.RowBytes()), lines);
    LayoutFields(cs);
    SerializeFront(cs);
    LastChunk(cs, bytes);
    FrontOfChunk(cs[0], Serialize(cs[1..]));
    assert bytes[16..20] == bytes[16..29][..4] && bytes[20..24] == bytes[16..29][4..8];
    assert bytes[25] == bytes[16..29][9];
  }

  lemma SerializeFront(cs: seq<Chunk>)
    requires cs != [] && AllSized(cs)
    ensures Serialize(cs) == ChunkBytes(cs[0]) + Serialize(cs[1..])
  {
  }

  lemma LayoutFields(cs: seq<Chunk>)
    requires Grammar(cs)
    ensures cs != [] && AllSized(cs) && cs[0].kind == IHDR && HeaderField(cs[0].data) && |cs[0].data| == 13
    ensures var h, f := cs[0].data, Layout(cs);
      && f.width == AsNumber(h[..4]) && f.height == AsNumber(h[4..8]) && f.colorType == h[9]
      && f.RowBytes() == f.width * Samples(h[9])
      && f.height * (1 + f.RowBytes()) <= 14 * 1024 * 1024
  {
    hide ImageRule, PaletteRule, TransparencyRule, AncillaryRule, EndRule, Samples, ChannelsOf, AsNumber;
    GrammarStarts(cs);
    SamplesMean(cs[0].data[9]);
  }

  lemma SmallSamples(t: seq<byte>)
    ensures |t| == 2 && AsNumber(t) < 256 ==> t[0] == 0
    ensures |t| == 6 && AsNumber(t[..2]) < 256 && AsNumber(t[2..4]) < 256 && AsNumber(t[4..]) < 256 ==>
      t[0] == t[2] == t[4] == 0
  {
    if |t| == 2 { NumberTwo(t); }
    if |t| == 6 {
      NumberTwo(t[..2]);
      NumberTwo(t[2..4]);
      NumberTwo(t[4..]);
    }
  }

  /** What the tests on pixels mean: an index names a palette entry, and a pixel is flagged exactly
      when it is not opaque. */
  lemma PixelMeans(cs: seq<Chunk>, row: seq<byte>, x: nat)
    requires Grammar(cs) && |row| == Layout(cs).RowBytes() && x < Layout(cs).width
    ensures var f := Layout(cs); var entries := if f.palette.Some? then |f.palette.value| / 3 else 0;
      && (x + 1) * Samples(f.colorType) <= |row|
      && (f.PixelInPalette(row, x) <==> Indexed(f.colorType, entries, Pixel(f.colorType, row, x)))
      && (f.PixelTransparent(row, x) <==> Clear(f.colorType, f.transparency, Pixel(f.colorType, row, x)))
  {
    hide Grammar, Layout, TransparencyField;
    GrammarTables(cs);
    LayoutTransparency(cs);
    PixelFields(Layout(cs), row, x);
  }

  lemma LayoutTransparency(cs: seq<Chunk>)
    requires Grammar(cs)
    ensures var f := Layout(cs);
      f.transparency.Some? && f.colorType != 3 ==> TransparencyField(f.colorType, 0, f.transparency.value)
  {
    hide HeaderField, EndRule, ImageRule, PaletteRule, AncillaryRule, Entries;
    GrammarTables(cs);
    var t := Table(cs, TRNS);
    if t.Some? {
      var i :| 0 <= i < |cs| && cs[i].kind == TRNS && cs[i].data == t.value;
      assert TransparencyField(cs[0].data[9], Entries(cs[..i]), cs[i].data);
    }
  }

  lemma PixelFields(f: Format, row: seq<byte>, x: nat)
    requires f.Consistent() && |row| == f.RowBytes() && x < f.width
    requires f.transparency.Some? && f.colorType != 3 ==> TransparencyField(f.colorType, 0, f.transparency.value)
    ensures (x + 1) * Samples(f.colorType) <= |row|
    ensures var entries := if f.palette.Some? then |f.palette.value| / 3 else 0;
      f.PixelInPalette(row, x) <==> Indexed(f.colorType, entries, Pixel(f.colorType, row, x))
    ensures f.PixelTransparent(row, x) <==> Clear(f.colorType, f.transparency, Pixel(f.colorType, row, x))
  {
    hide AsNumber;
    f.PixelStart(x);
    ColorTypes(f.colorType);
    SamplesMean(f.colorType);
    if f.transparency.Some? { SmallSamples(f.transparency.value); }
    assert (x + 1) * Samples(f.colorType) == x * Samples(f.colorType) + Samples(f.colorType);
  }

  lemma SmallestLayout()
    ensures AllSized(Smallest()) && Grammar(Smallest())
    ensures Layout(Smallest()) == Format(1, 1, 0, None, None) && ImageData(Smallest()) == []
    ensures !AlphaCapable(Smallest())
  {
    hide ImageData, Latest, Grammar, HeaderOf, HeaderField, Table;
    SmallestInGrammar();
    SmallestHeader();
    SmallestData();
    HeaderMeans(Smallest()[0]);
    SmallestTables();
  }

  lemma SmallestTables()
    ensures Table(Smallest(), PLTE) == None && Table(Smallest(), TRNS) == None
    ensures forall i | 0 <= i < |Smallest()| :: Smallest()[i].kind != TRNS
  {
  }

  lemma SmallestEncoded(f: Format)
    requires f == Format(1, 1, 0, None, None)
    ensures Encode(f, BlankRow(f.RowBytes()), [Line(0, [0])]) == [0, 0]
  {
    assert [Line(0, [0])][1..] == [];
  }

  /** There are such files: the smallest one, whose data are said to inflate to its one pixel. */
  lemma SmallestAccepted(inflate: seq<byte> -> Inflated) returns (bytes: seq<byte>)
    requires inflate([]) == Inflated([0, 0], true)
    ensures Validate(bytes, inflate) == Ok(PngInfo(1, 1, false, false))
  {
    hide Chunks, Grammar, Decode, Serialize, Layout, Encode, ImageData, Smallest, Validate;
    SmallestLayout();
    var f := Layout(Smallest());
    SmallestEncoded(f);
    ValidAccepted(Smallest(), [Line(0, [0])], inflate);
    bytes := SIGNATURE + Serialize(Smallest());
  }
}
