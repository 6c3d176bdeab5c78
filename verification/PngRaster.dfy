/** Scanline reconstruction of a decompressed PNG raster, section 9 of the PNG standard. */
module PngRaster {
  import opened Json
  import opened Bytes

  // ---- prediction ----

  function Abs(x: int): int {
    if x < 0 then -x else x
  }

  function Paeth(left: byte, up: byte, upperLeft: byte): byte {
    var estimate := left + up - upperLeft;
    var dl, du, dul := Abs(estimate - left), Abs(estimate - up), Abs(estimate - upperLeft);
    if dl <= du && dl <= dul then left
    else if du <= dul then up
    else upperLeft
  }

  /** The predictor is the neighbour nearest to the estimate; on a tie the earlier of
      left, up and upper left wins. */
  lemma PaethNearest(left: byte, up: byte, upperLeft: byte)
    ensures var p, estimate := Paeth(left, up, upperLeft), left + up - upperLeft;
      var neighbours := [left, up, upperLeft];
      exists i | 0 <= i < 3 ::
        && p == neighbours[i]
        && (forall j | 0 <= j < 3 :: Abs(estimate - p) <= Abs(estimate - neighbours[j]))
        && (forall j | 0 <= j < i :: Abs(estimate - p) < Abs(estimate - neighbours[j]))
  {
    var p, neighbours := Paeth(left, up, upperLeft), [left, up, upperLeft];
    if p == left { assert p == neighbours[0]; }
    if p == up { assert p == neighbours[1]; }
    if p == upperLeft { assert p == neighbours[2]; }
  }

  function Predictor(filter: byte, left: byte, up: byte, upperLeft: byte): byte {
    if filter == 1 then left
    else if filter == 2 then up
    else if filter == 3 then (left + up) / 2
    else if filter == 4 then Paeth(left, up, upperLeft)
    else 0
  }

  function At(row: seq<byte>, i: int): byte {
    if 0 <= i < |row| then row[i] else 0
  }

  function Prediction(filter: byte, channels: nat, previous: seq<byte>, row: seq<byte>, i: nat): byte {
    Predictor(filter, At(row, i - channels), At(previous, i), At(previous, i - channels))
  }

  function Add(a: byte, b: byte): byte { (a + b) % 256 }

  function Subtract(a: byte, b: byte): byte { (a - b) % 256 }

  lemma ModOnce(n: int)
    requires -256 < n < 512
    ensures n % 256 == if n < 0 then n + 256 else if n < 256 then n else n - 256
  {
  }

  lemma AddSubtract(a: byte, b: byte)
    ensures Subtract(Add(a, b), b) == a && Add(Subtract(a, b), b) == a
  {
    ModOnce(a + b);
    ModOnce(a - b);
    ModOnce(Add(a, b) - b);
    ModOnce(Subtract(a, b) + b);
  }

  // ---- one row ----

  /** Section 9.2: the filter of a row, from the raw values on both sides. */
  function Filter(filter: byte, channels: nat, previous: seq<byte>, row: seq<byte>): (raw: seq<byte>)
    ensures |raw| == |row|
  {
    seq(|row|, i requires 0 <= i < |row| => Subtract(row[i], Prediction(filter, channels, previous, row, i)))
  }

  /** What the in-place loop leaves behind, byte after byte. */
  function Unfilter(filter: byte, channels: nat, previous: seq<byte>, raw: seq<byte>): (row: seq<byte>)
    ensures |row| == |raw|
  {
    if raw == [] then []
    else
      var n := |raw| - 1;
      var done := Unfilter(filter, channels, previous, raw[..n]);
      done + [Add(raw[n], Prediction(filter, channels, previous, done, n))]
  }

  /** Section 9.2: adding what each filter type predicts from the bytes to the left, above, and above
      to the left gives the byte back. */
  lemma FilterTable(filter: byte, channels: nat, previous: seq<byte>, row: seq<byte>, i: nat)
    requires channels >= 1 && i < |row| == |previous|
    ensures var raw := Filter(filter, channels, previous, row)[i];
      var left, up := if i >= channels then row[i - channels] else 0, previous[i];
      var upperLeft := if i >= channels then previous[i - channels] else 0;
      && (filter == 0 ==> raw == row[i])
      && (filter == 1 ==> (raw + left) % 256 == row[i])
      && (filter == 2 ==> (raw + up) % 256 == row[i])
      && (filter == 3 ==> exists half :: 2 * half <= left + up <= 2 * half + 1 && (raw + half) % 256 == row[i])
      && (filter == 4 ==> (raw + Paeth(left, up, upperLeft)) % 256 == row[i])
  {
    hide Paeth, Subtract;
    var p := Prediction(filter, channels, previous, row, i);
    AddSubtract(row[i], p);
    if filter == 3 { assert 2 * p <= At(row, i - channels) + At(previous, i) <= 2 * p + 1; }
  }

  /** A byte is filtered from what stands to its left. */
  lemma FilterPrefix(filter: byte, channels: nat, previous: seq<byte>, row: seq<byte>, n: nat)
    requires channels >= 1 && n < |row|
    ensures var raw := Filter(filter, channels, previous, row);
      && raw[..n] == Filter(filter, channels, previous, row[..n])
      && raw[n] == Subtract(row[n], Prediction(filter, channels, previous, row[..n], n))
  {
    hide Subtract, Predictor;
  }

  lemma {:induction false} UnfilterFilter(filter: byte, channels: nat, previous: seq<byte>, row: seq<byte>)
    requires channels >= 1
    ensures Unfilter(filter, channels, previous, Filter(filter, channels, previous, row)) == row
  {
    hide Add, Subtract, Predictor, Filter;
    if row != [] {
      var n := |row| - 1;
      var raw := Filter(filter, channels, previous, row);
      FilterPrefix(filter, channels, previous, row, n);
      UnfilterFilter(filter, channels, previous, row[..n]);
      AddSubtract(row[n], Prediction(filter, channels, previous, row[..n], n));
      assert row == row[..n] + [row[n]];
    }
  }

  lemma {:induction false} FilterUnfilter(filter: byte, channels: nat, previous: seq<byte>, raw: seq<byte>)
    requires channels >= 1
    ensures Filter(filter, channels, previous, Unfilter(filter, channels, previous, raw)) == raw
  {
    hide Add, Subtract, Predictor, Filter;
    if raw != [] {
      var n := |raw| - 1;
      var row := Unfilter(filter, channels, previous, raw);
      var done := Unfilter(filter, channels, previous, raw[..n]);
      FilterUnfilter(filter, channels, previous, raw[..n]);
      AddSubtract(raw[n], Prediction(filter, channels, previous, done, n));
      var again := Filter(filter, channels, previous, row);
      assert row[..n] == done;
      FilterPrefix(filter, channels, previous, row, n);
      assert again == again[..n] + [again[n]];
      assert raw == raw[..n] + [raw[n]];
    }
  }

  lemma UnfilterStep(filter: byte, channels: nat, previous: seq<byte>, raw: seq<byte>, n: nat)
    requires n < |raw|
    ensures Unfilter(filter, channels, previous, raw[..0]) == []
    ensures var done := Unfilter(filter, channels, previous, raw[..n]);
      Unfilter(filter, channels, previous, raw[..n + 1])
      == done + [Add(raw[n], Prediction(filter, channels, previous, done, n))]
  {
    hide Add, Prediction;
    assert raw[..n + 1][..n] == raw[..n];
  }

  method ReconstructRow(filter: byte, channels: nat, previous: array<byte>, current: array<byte>) returns (ok: bool)
    requires previous != current && previous.Length == current.Length > 0 && channels >= 1
    modifies current
    ensures ok == (filter <= 4)
    ensures ok ==> current[..] == Unfilter(filter, channels, previous[..], old(current[..]))
  {
    hide Add, Predictor, Unfilter;
    ghost var raw, above := current[..], previous[..];
    var index := 0;
    UnfilterStep(filter, channels, above, raw, 0);
    while index < current.Length
      invariant index <= current.Length && (index > 0 ==> filter <= 4)
      invariant current[..index] == Unfilter(filter, channels, above, raw[..index])
      invariant current[index..] == raw[index..]
    {
      var value := current[index];
      var left := if index >= channels then current[index - channels] else 0;
      var up := previous[index];
      var upperLeft := if index >= channels then previous[index - channels] else 0;
      if filter > 4 { return false; }
      ghost var done := current[..index];
      assert left == At(done, index - channels) && up == At(above, index) && upperLeft == At(above, index - channels);
      assert value == current[index..][0] == raw[index];
      UnfilterStep(filter, channels, above, raw, index);
      current[index] := Add(value, Predictor(filter, left, up, upperLeft));
      index := index + 1;
      assert current[..index] == done + [current[index - 1]];
    }
    assert current[..] == current[..index] && raw == raw[..index];
    ok := true;
  }

  // ---- all rows ----

  /** Bytes a pixel; only the colour types 0, 2, 3, 4 and 6 get this far. */
  function ChannelsOf(colorType: byte): (n: nat)
    ensures 1 <= n <= 4
  {
    if colorType == 2 then 3 else if colorType == 4 then 2 else if colorType == 6 then 4 else 1
  }

  /** The header fields and the two tables that give samples their meaning. */
  datatype Format = Format(
    width: nat, height: nat, colorType: byte, palette: Option<seq<byte>>, transparency: Option<seq<byte>>)
  {
    function Channels(): (n: nat)
      ensures 1 <= n <= 4
    {
      ChannelsOf(colorType)
    }

    function RowBytes(): nat { width * Channels() }

    /** What the chunk loop guarantees of an accepted file. */
    predicate Consistent() {
      && width >= 1 && colorType in {0, 2, 3, 4, 6}
      && (colorType == 3 ==> palette.Some?)
      && (transparency.Some? && colorType == 0 ==> |transparency.value| == 2)
      && (transparency.Some? && colorType == 2 ==> |transparency.value| == 6)
    }

    predicate PixelInPalette(row: seq<byte>, x: nat)
      requires Consistent() && |row| == RowBytes() && x < width
    {
      colorType == 3 ==> row[x] < |palette.value| / 3
    }

    predicate PixelTransparent(row: seq<byte>, x: nat)
      requires Consistent() && |row| == RowBytes() && x < width
    {
      PixelStart(x);
      var start := x * Channels();
      match colorType
      case 0 => transparency.Some? && row[start] == transparency.value[1]
      case 2 =>
        var t := transparency;
        t.Some? && row[start..start + 3] == [t.value[1], t.value[3], t.value[5]]
      case 3 =>
        var index := row[start];
        transparency.Some? && index < |transparency.value| && transparency.value[index] < 255
      case 4 => row[start + 1] < 255
      case 6 => row[start + 3] < 255
      case _ => false
    }

    lemma PixelStart(x: nat)
      requires x < width
      ensures x * Channels() + Channels() <= RowBytes()
    {
      assert (x + 1) * Channels() <= width * Channels();
    }
  }

  datatype RasterError =
    | BadZlib
    | LengthMismatch
    | UnsupportedFilter
    | PixelOutsidePalette
    | TrailingBytes

  datatype RasterResult = Transparent(has: bool) | Rejected(error: RasterError)

  /** One pass over what the decompressor yields: `clean` says whether it then reports its
      end rather than an error. */
  function Decode(f: Format, raw: seq<byte>, clean: bool, previous: seq<byte>, rows: nat): RasterResult
    requires f.Consistent() && |previous| == f.RowBytes()
    decreases rows
  {
    if rows == 0 then
      if raw != [] then Rejected(TrailingBytes) else if !clean then Rejected(BadZlib) else Transparent(false)
    else if raw == [] then Rejected(BadZlib)
    else if |raw| - 1 < f.RowBytes() then Rejected(LengthMismatch)
    else if raw[0] > 4 then Rejected(UnsupportedFilter)
    else
      var row := Unfilter(raw[0], f.Channels(), previous, raw[1..1 + f.RowBytes()]);
      if exists x: nat | x < f.width :: !f.PixelInPalette(row, x) then Rejected(PixelOutsidePalette)
      else
        var rest := Decode(f, raw[1 + f.RowBytes()..], clean, row, rows - 1);
        if rest.Rejected? then rest
        else Transparent((exists x: nat | x < f.width :: f.PixelTransparent(row, x)) || rest.has)
  }

  function BlankRow(n: nat): (row: seq<byte>)
    ensures |row| == n
  {
    seq(n, _ => 0)
  }

  ghost function Also(has: bool, r: RasterResult): RasterResult {
    if r.Rejected? then r else Transparent(has || r.has)
  }

  /** Where the pass over the rest of the data ends at once. */
  lemma DecodeEnds(f: Format, raw: seq<byte>, position: nat, clean: bool, previous: seq<byte>, rows: nat)
    requires f.Consistent() && |previous| == f.RowBytes() && position <= |raw|
    ensures var d := Decode(f, raw[position..], clean, previous, rows);
      if rows == 0 then
        d == if position < |raw| then Rejected(TrailingBytes)
          else if !clean then Rejected(BadZlib) else Transparent(false)
      else if position == |raw| then d == Rejected(BadZlib)
      else if |raw| - position - 1 < f.RowBytes() then d == Rejected(LengthMismatch)
      else raw[position] > 4 ==> d == Rejected(UnsupportedFilter)
  {
    hide Unfilter, Format.Consistent, Format.PixelTransparent, Format.PixelInPalette;
  }

  /** And where it gets past a row. */
  lemma DecodeRow(f: Format, raw: seq<byte>, position: nat, clean: bool, previous: seq<byte>, rows: nat)
    requires f.Consistent() && |previous| == f.RowBytes() && position + 1 + f.RowBytes() <= |raw|
    requires rows > 0 && raw[position] <= 4
    ensures var d := Decode(f, raw[position..], clean, previous, rows);
      var end := position + 1 + f.RowBytes();
      var row := Unfilter(raw[position], f.Channels(), previous, raw[position + 1..end]);
      if exists x: nat | x < f.width :: !f.PixelInPalette(row, x) then d == Rejected(PixelOutsidePalette)
      else
        var has := exists x: nat | x < f.width :: f.PixelTransparent(row, x);
        d == Also(has, Decode(f, raw[end..], clean, row, rows - 1))
  {
    hide Unfilter, Format.Consistent, Format.PixelTransparent, Format.PixelInPalette;
    var rest := raw[position..];
    assert rest[1..1 + f.RowBytes()] == raw[position + 1..position + 1 + f.RowBytes()];
    assert rest[1 + f.RowBytes()..] == raw[position + 1 + f.RowBytes()..];
  }

  lemma RowNotEmpty(f: Format)
    requires f.Consistent()
    ensures f.RowBytes() >= 1
  {
    f.PixelStart(0);
  }

  method DecodeRaster(f: Format, raw: seq<byte>, clean: bool) returns (r: RasterResult)
    requires f.Consistent()
    ensures r == Decode(f, raw, clean, BlankRow(f.RowBytes()), f.height)
  {
    hide Unfilter, Decode, Format.Consistent, Format.PixelTransparent, Format.PixelInPalette;
    var channels, rowBytes := f.Channels(), f.RowBytes();
    RowNotEmpty(f);
    var previous := new byte[rowBytes](_ => 0);
    var current := new byte[rowBytes](_ => 0);
    assert previous[..] == BlankRow(rowBytes);
    var has := false;
    var position := 0;
    var row := 0;
    ghost var goal := Decode(f, raw, clean, BlankRow(rowBytes), f.height);
    assert raw[0..] == raw;
    while row < f.height
      invariant row <= f.height && position <= |raw|
      invariant previous != current && previous.Length == current.Length == rowBytes
      invariant fresh(previous) && fresh(current)
      invariant goal == Also(has, Decode(f, raw[position..], clean, previous[..], f.height - row))
    {
      DecodeEnds(f, raw, position, clean, previous[..], f.height - row);
      if position == |raw| { return Rejected(BadZlib); }
      var filter := raw[position];
      if |raw| - position - 1 < rowBytes { return Rejected(LengthMismatch); }
      Fill(current, raw[position + 1..position + 1 + rowBytes]);
      var ok := ReconstructRow(filter, channels, previous, current);
      if !ok { return Rejected(UnsupportedFilter); }
      DecodeRow(f, raw, position, clean, previous[..], f.height - row);
      var inside, transparent := ScanPixels(f, current[..]);
      if !inside { return Rejected(PixelOutsidePalette); }
      has := has || transparent;
      previous, current := current, previous;
      position := position + 1 + rowBytes;
      row := row + 1;
    }
    DecodeEnds(f, raw, position, clean, previous[..], 0);
    if position < |raw| { return Rejected(TrailingBytes); }
    if !clean { return Rejected(BadZlib); }
    r := Transparent(has);
  }

  method Fill(target: array<byte>, source: seq<byte>)
    requires target.Length == |source|
    modifies target
    ensures target[..] == source
  {
    var i := 0;
    while i < target.Length
      invariant i <= target.Length && target[..i] == source[..i]
    {
      target[i] := source[i];
      i := i + 1;
    }
  }

  method ScanPixels(f: Format, row: seq<byte>) returns (inside: bool, transparent: bool)
    requires f.Consistent() && |row| == f.RowBytes()
    ensures inside <==> forall x: nat | x < f.width :: f.PixelInPalette(row, x)
    ensures inside ==> (transparent <==> exists x: nat | x < f.width :: f.PixelTransparent(row, x))
  {
    transparent := false;
    var pixel: nat := 0;
    while pixel < f.width
      invariant pixel <= f.width
      invariant forall x: nat | x < pixel :: f.PixelInPalette(row, x)
      invariant transparent <==> exists x: nat | x < pixel :: f.PixelTransparent(row, x)
    {
      if !f.PixelInPalette(row, pixel) { return false, transparent; }
      transparent := transparent || f.PixelTransparent(row, pixel);
      pixel := pixel + 1;
    }
    inside := true;
  }

  // ---- accepted rasters are exactly the encodings of images ----

  datatype Line = Line(filter: byte, row: seq<byte>)

  /** An image of so many rows, each with the filter it is to be encoded with. */
  ghost predicate Image(f: Format, lines: seq<Line>, rows: nat) {
    |lines| == rows && forall i | 0 <= i < rows :: |lines[i].row| == f.RowBytes() && lines[i].filter <= 4
  }

  ghost function Encode(f: Format, previous: seq<byte>, lines: seq<Line>): seq<byte>
    decreases |lines|
  {
    if lines == [] then []
    else
      var line := lines[0];
      [line.filter] + Filter(line.filter, f.Channels(), previous, line.row) + Encode(f, line.row, lines[1..])
  }

  ghost predicate AllInPalette(f: Format, lines: seq<Line>)
    requires f.Consistent() && Image(f, lines, |lines|)
  {
    forall i, x: nat | 0 <= i < |lines| && x < f.width :: f.PixelInPalette(lines[i].row, x)
  }

  ghost predicate SomeTransparent(f: Format, lines: seq<Line>)
    requires f.Consistent() && Image(f, lines, |lines|)
  {
    exists i, x: nat :: 0 <= i < |lines| && x < f.width && f.PixelTransparent(lines[i].row, x)
  }

  lemma {:induction false} EncodedLength(f: Format, previous: seq<byte>, lines: seq<Line>)
    requires Image(f, lines, |lines|)
    ensures |Encode(f, previous, lines)| == |lines| * (1 + f.RowBytes())
    decreases |lines|
  {
    if lines != [] {
      EncodedLength(f, lines[0].row, lines[1..]);
      assert |lines| * (1 + f.RowBytes()) == (1 + f.RowBytes()) + |lines[1..]| * (1 + f.RowBytes());
    }
  }

  lemma SplitLines(f: Format, lines: seq<Line>)
    requires f.Consistent() && lines != [] && Image(f, lines, |lines|)
    ensures Image(f, lines[1..], |lines| - 1)
    ensures AllInPalette(f, lines) <==>
      (forall x: nat | x < f.width :: f.PixelInPalette(lines[0].row, x)) && AllInPalette(f, lines[1..])
    ensures SomeTransparent(f, lines) <==>
      (exists x: nat | x < f.width :: f.PixelTransparent(lines[0].row, x)) || SomeTransparent(f, lines[1..])
  {
    assert forall i | 1 <= i < |lines| :: lines[i] == lines[1..][i - 1];
    if SomeTransparent(f, lines) {
      var i, x: nat :| 0 <= i < |lines| && x < f.width && f.PixelTransparent(lines[i].row, x);
      if i > 0 { assert f.PixelTransparent(lines[1..][i - 1].row, x); }
    }
    if SomeTransparent(f, lines[1..]) {
      var i, x: nat :| 0 <= i < |lines[1..]| && x < f.width && f.PixelTransparent(lines[1..][i].row, x);
      assert f.PixelTransparent(lines[i + 1].row, x);
    }
    forall i, x: nat | AllInPalette(f, lines) && 0 <= i < |lines[1..]| && x < f.width
      ensures f.PixelInPalette(lines[1..][i].row, x)
    {
      assert f.PixelInPalette(lines[i + 1].row, x);
    }
  }

  lemma NothingOutside(f: Format)
    requires f.Consistent()
    ensures AllInPalette(f, []) && !SomeTransparent(f, [])
  {
  }

  lemma FilterLength(filter: byte, channels: nat, previous: seq<byte>, row: seq<byte>)
    ensures |Filter(filter, channels, previous, row)| == |row|
  {
  }

  /** Every encoding of an image decodes to exactly that image: it is rejected only for a
      palette index, and flagged exactly when some pixel is transparent. */
  lemma {:induction false} DecodeEncoded(f: Format, previous: seq<byte>, lines: seq<Line>)
    requires f.Consistent() && |previous| == f.RowBytes() && Image(f, lines, |lines|)
    ensures Decode(f, Encode(f, previous, lines), true, previous, |lines|)
      == if AllInPalette(f, lines) then Transparent(SomeTransparent(f, lines)) else Rejected(PixelOutsidePalette)
    decreases |lines|
  {
    hide Unfilter, Filter, AllInPalette, SomeTransparent;
    NothingOutside(f);
    if lines != [] {
      var line, raw := lines[0], Encode(f, previous, lines);
      var body := Filter(line.filter, f.Channels(), previous, line.row);
      var rest := Encode(f, line.row, lines[1..]);
      FilterLength(line.filter, f.Channels(), previous, line.row);
      assert raw[1..1 + f.RowBytes()] == body && raw[1 + f.RowBytes()..] == rest && raw[0] == line.filter;
      UnfilterFilter(line.filter, f.Channels(), previous, line.row);
      SplitLines(f, lines);
      DecodeEncoded(f, line.row, lines[1..]);
    }
  }

  /** Nothing else is accepted: an accepted raster is the encoding of some image, of
      exactly height rows. */
  lemma {:induction false} AcceptedIsEncoded(f: Format, raw: seq<byte>, clean: bool, previous: seq<byte>, rows: nat)
    returns (lines: seq<Line>)
    requires f.Consistent() && |previous| == f.RowBytes()
    requires Decode(f, raw, clean, previous, rows).Transparent?
    ensures clean && Image(f, lines, rows) && raw == Encode(f, previous, lines) && AllInPalette(f, lines)
    ensures |raw| == rows * (1 + f.RowBytes())
    decreases rows
  {
    hide Unfilter, Filter, AllInPalette, SomeTransparent;
    if rows == 0 {
      lines := [];
      NothingOutside(f);
    } else {
      var body, rest := raw[1..1 + f.RowBytes()], raw[1 + f.RowBytes()..];
      var row := Unfilter(raw[0], f.Channels(), previous, body);
      var tail := AcceptedIsEncoded(f, rest, clean, row, rows - 1);
      FilterUnfilter(raw[0], f.Channels(), previous, body);
      lines := [Line(raw[0], row)] + tail;
      assert lines[1..] == tail;
      assert raw == [raw[0]] + body + rest;
      SplitLines(f, lines);
      EncodedLength(f, previous, lines);
    }
  }
}
