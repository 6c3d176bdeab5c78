/** The fields of PNG chunks as the standard gives them, without reference to the validator. */
module PngStandard {
  import opened Bytes
  import opened Json

  /** Bytes as digits of a number, the most significant first. */
  function AsNumber(b: seq<byte>): nat {
    if b == [] then 0 else 256 * AsNumber(b[..|b| - 1]) + b[|b| - 1]
  }

  /** The bits of a colour type, section 11.2.2: 1 for a palette, 2 for colour, 4 for alpha. */
  predicate Bit(colorType: byte, weight: nat)
    requires weight > 0
  {
    colorType / weight % 2 == 1
  }

  predicate ColorTypeField(colorType: byte) {
    colorType == 0 || colorType == 2 || colorType == 3 || colorType == 4 || colorType == 6
  }

  /** Samples in a pixel: the palette index alone, or grey or three colours and perhaps alpha. */
  function Samples(colorType: byte): nat {
    if Bit(colorType, 1) then 1
    else (if Bit(colorType, 2) then 3 else 1) + (if Bit(colorType, 4) then 1 else 0)
  }

  /** Width, height, eight bits a sample, a colour type, and no other compression, filter or interlace
      method than the first; the raw size is at most 14 MiB. */
  predicate HeaderField(data: seq<byte>) {
    && |data| == 13
    && 1 <= AsNumber(data[..4]) <= 8192 && 1 <= AsNumber(data[4..8]) <= 8192
    && data[8] == 8 && ColorTypeField(data[9]) && data[10..] == [0, 0, 0]
    && AsNumber(data[4..8]) * (1 + AsNumber(data[..4]) * Samples(data[9])) <= 14 * 1024 * 1024
  }

  /** One to 256 entries of three bytes, for colour types that use colour. */
  predicate PaletteField(colorType: byte, data: seq<byte>) {
    Bit(colorType, 2) && |data| % 3 == 0 && 1 <= |data| / 3 <= 256
  }

  /** A grey or three colours of 16 bits that fit a sample, or alphas for some palette entries. */
  predicate TransparencyField(colorType: byte, entries: nat, data: seq<byte>) {
    if colorType == 0 then |data| == 2 && AsNumber(data) < 256
    else if colorType == 2 then
      |data| == 6 && AsNumber(data[..2]) < 256 && AsNumber(data[2..4]) < 256 && AsNumber(data[4..]) < 256
    else colorType == 3 && 1 <= |data| <= entries
  }

  /** The samples of a pixel in a row. */
  function Pixel(colorType: byte, row: seq<byte>, x: nat): seq<byte>
    requires (x + 1) * Samples(colorType) <= |row|
  {
    row[x * Samples(colorType)..(x + 1) * Samples(colorType)]
  }

  /** An index names a palette entry. */
  predicate Indexed(colorType: byte, entries: nat, pixel: seq<byte>)
    requires |pixel| == Samples(colorType)
  {
    colorType == 3 ==> pixel[0] < entries
  }

  /** A pixel that is not opaque: by its alpha sample, as the one transparent colour, or by the alpha
      of its palette entry. */
  predicate Clear(colorType: byte, transparency: Option<seq<byte>>, pixel: seq<byte>)
    requires |pixel| == Samples(colorType)
  {
    if Bit(colorType, 4) then pixel[|pixel| - 1] < 255
    else if transparency.None? then false
    else
      var t := transparency.value;
      if Bit(colorType, 1) then pixel[0] < |t| && t[pixel[0]] < 255
      else if Bit(colorType, 2) then t == [0, pixel[0], 0, pixel[1], 0, pixel[2]]
      else t == [0, pixel[0]]
  }

  /** The first of the four letters of a type is upper-case. */
  predicate UpperCase(kind: nat) {
    'A' as int <= kind / 0x100_0000 <= 'Z' as int
  }
}
