/** The JSON-lines reader over an arbitrarily cut byte stream, and the frame encoder. */
module JsonLines {
  import opened Json
  import opened Bytes
  import Utf8
  import CanonicalJson

  const LF: byte := 10
  const CR: byte := 13
  const READ_SIZE: nat := 8192
  const MAX_NESTING: nat := 127

  // ---- one pass over the whole stream ----

  datatype Failure = FrameTooLarge | EmptyFrame | BadFrame | EofInFrame | ReadFailed

  datatype Item<V> = Frame(value: V) | End | Error(failure: Failure)

  /** A stream: its bytes, and whether it then breaks instead of ending. */
  datatype Stream = Stream(data: seq<byte>, breaks: bool)

  type Parser<V> = seq<byte> -> Option<V>

  /** Where the first line feed stands, or the length. */
  function LineEnd(s: seq<byte>): (i: nat)
    ensures i <= |s| && (i < |s| ==> s[i] == LF) && forall j | 0 <= j < i :: s[j] != LF
  {
    if s == [] || s[0] == LF then 0 else 1 + LineEnd(s[1..])
  }

  function StripCr(line: seq<byte>): seq<byte> {
    if line != [] && line[|line| - 1] == CR then line[..|line| - 1] else line
  }

  function LineItem<V>(line: seq<byte>, max: nat, parse: Parser<V>): Item<V> {
    var frame := StripCr(line);
    if |frame| > max then Error(FrameTooLarge)
    else if frame == [] then Error(EmptyFrame)
    else match parse(frame)
      case None => Error(BadFrame)
      case Some(v) => Frame(v)
  }

  /** The first item of a stream. */
  function First<V>(s: Stream, max: nat, parse: Parser<V>): Item<V> {
    var end := LineEnd(s.data);
    if end < |s.data| then LineItem(s.data[..end], max, parse)
    else if |s.data| > max + 1 then Error(FrameTooLarge)
    else if s.breaks then Error(ReadFailed)
    else if s.data == [] then End
    else Error(EofInFrame)
  }

  function Rest(s: Stream): Stream
    requires LineEnd(s.data) < |s.data|
  {
    s.(data := s.data[LineEnd(s.data) + 1..])
  }

  /** All items of a stream, up to and including the first that is not a frame. */
  function Items<V>(s: Stream, max: nat, parse: Parser<V>): seq<Item<V>>
    decreases |s.data|
  {
    var item := First(s, max, parse);
    if item.Frame? then [item] + Items(Rest(s), max, parse) else [item]
  }

  lemma ItemsStep<V>(s: Stream, max: nat, parse: Parser<V>)
    ensures var item := First(s, max, parse);
      && (!item.Frame? ==> Items(s, max, parse) == [item])
      && (item.Frame? ==>
          && |Rest(s).data| < |s.data|
          && forall before :: before + Items(s, max, parse) == before + [item] + Items(Rest(s), max, parse))
  {
    hide LineEnd;
  }

  // ---- the reader ----

  /** Where bytes come from: each read delivers any number of those that are left. */
  class Source {
    var stream: Stream

    constructor (s: Stream)
      ensures stream == s
    {
      stream := s;
    }

    method Read(limit: nat) returns (failed: bool, chunk: seq<byte>)
      requires limit >= 1
      modifies this
      ensures stream.breaks == old(stream.breaks)
      ensures |chunk| <= limit && chunk + stream.data == old(stream.data)
      ensures failed <==> old(stream.data) == [] && stream.breaks
      ensures chunk == [] ==> old(stream.data) == []
    {
      failed, chunk := false, [];
      if stream.data == [] {
        failed := stream.breaks;
      } else {
        assert |stream.data| >= 1;
        var count: int := *;
        if !(1 <= count <= limit && count <= |stream.data|) { count := 1; }
        chunk := stream.data[..count];
        stream := stream.(data := stream.data[count..]);
      }
    }
  }

  class JsonLinesReader<V(0)> {
    const source: Source
    const max: nat
    const parse: Parser<V>
    var buffer: seq<byte>
    var start: nat
    var eof: bool

    constructor (source: Source, max: nat, parse: Parser<V>)
      ensures this.source == source && this.max == max && this.parse == parse
      ensures Valid() && Pending() == source.stream
    {
      this.source, this.max, this.parse := source, max, parse;
      buffer, start, eof := [], 0, false;
    }

    ghost predicate Valid()
      reads this, source
    {
      && start <= |buffer| <= max + 2
      && (eof ==> source.stream.data == [] && !source.stream.breaks)
    }

    /** What has not been delivered yet: the unread buffer and the rest of the source. */
    ghost function Pending(): Stream
      reads this, source
      requires start <= |buffer|
    {
      Stream(buffer[start..] + source.stream.data, source.stream.breaks)
    }

    method Next() returns (item: Item<V>)
      requires Valid()
      modifies this, source
      ensures Valid()
      ensures item == First(old(Pending()), max, parse)
      ensures item.Frame? ==> LineEnd(old(Pending()).data) < |old(Pending()).data| && Pending() == Rest(old(Pending()))
    {
      ghost var pending := Pending();
      while true
        invariant Valid() && Pending() == pending
        decreases |source.stream.data|, !eof
      {
        var unread := buffer[start..];
        var relative := LineEnd(unread);
        EndInPrefix(unread, source.stream.data);
        if relative < |unread| {
          item := TakeLine(relative);
          return;
        }
        if |unread| > max + 1 {
          LongLine(pending, max, parse, |unread|);
          return Error(FrameTooLarge);
        }
        if eof {
          assert pending.data == unread;
          return if unread == [] then End else Error(EofInFrame);
        }
        var failed := Refill();
        if failed {
          assert pending.data == unread;
          return Error(ReadFailed);
        }
      }
    }

    method TakeLine(relative: nat) returns (item: Item<V>)
      requires Valid() && relative == LineEnd(buffer[start..]) < |buffer| - start
      requires LineEnd(Pending().data) == relative
      modifies this
      ensures Valid() && item == First(old(Pending()), max, parse)
      ensures item.Frame? ==> Pending() == Rest(old(Pending()))
    {
      hide LineItem, LineEnd;
      var line := buffer[start..][..relative];
      ghost var pending := Pending().data;
      assert line == pending[..relative];
      item := LineItem(line, max, parse);
      if item.Frame? || item == Error(BadFrame) {
        assert buffer[start + relative + 1..] + source.stream.data == pending[relative + 1..];
        start := start + relative + 1;
        if start == |buffer| {
          assert buffer[start..] == [];
          buffer := [];
          start := 0;
        }
      }
    }

    method Refill() returns (failed: bool)
      requires Valid() && |buffer| - start <= max + 1 && !eof
      modifies this, source
      ensures Valid() && Pending() == old(Pending())
      ensures failed ==> old(source.stream.data) == [] && source.stream.breaks
      ensures !failed && !eof ==> |source.stream.data| < |old(source.stream.data)|
      ensures eof ==> source.stream.data == old(source.stream.data)
    {
      ghost var pending := Pending().data;
      if start > 0 {
        buffer := buffer[start..];
        start := 0;
      }
      ghost var left := source.stream.data;
      assert buffer + left == pending;
      var limit := max + 2 - |buffer|;
      if limit > READ_SIZE { limit := READ_SIZE; }
      var chunk;
      failed, chunk := source.Read(limit);
      if !failed {
        assert (buffer + chunk) + source.stream.data == buffer + (chunk + source.stream.data);
        buffer := buffer + chunk;
        if chunk == [] { eof := true; }
      }
      assert buffer[start..] == buffer;
    }

    /** However the source cuts the stream, repeated reading yields the items of the whole
        stream, and the buffer stays within the limit. */
    method ReadAll() returns (items: seq<Item<V>>)
      requires Valid()
      modifies this, source
      ensures items == Items(old(Pending()), max, parse)
      ensures |buffer| <= max + 2
    {
      hide First, LineEnd, Items, Rest;
      items := [];
      ghost var goal := Items(Pending(), max, parse);
      while true
        invariant Valid()
        invariant goal == items + Items(Pending(), max, parse)
        decreases |Pending().data|
      {
        ghost var before := Pending();
        var item := Next();
        ItemsStep(before, max, parse);
        items := items + [item];
        if !item.Frame? { return; }
      }
    }
  }

  lemma {:induction false} EndInPrefix(a: seq<byte>, b: seq<byte>)
    ensures LineEnd(a) < |a| ==> LineEnd(a + b) == LineEnd(a)
    ensures LineEnd(a) == |a| ==> LineEnd(a + b) >= |a|
  {
    if a != [] && a[0] != LF {
      EndInPrefix(a[1..], b);
      assert (a + b)[1..] == a[1..] + b;
    }
  }

  /** More unread bytes than the limit and its terminator allow can only be an oversize
      frame, whether or not its line feed is still to come. */
  lemma LongLine<V>(s: Stream, max: nat, parse: Parser<V>, unread: nat)
    requires max + 1 < unread <= |s.data| && LineEnd(s.data) >= unread
    ensures First(s, max, parse) == Error(FrameTooLarge)
  {
  }

  // ---- what a stream of lines is read as, in terms of its bytes alone ----

  /** A frame on a line that ends with LF or with CR LF. */
  datatype Line = Line(frame: seq<byte>, crlf: bool)

  predicate NoBreak(s: seq<byte>) { 10 !in s }

  /** The bytes up to a line feed are this frame and perhaps a carriage return. */
  predicate OnLine(line: Line) {
    NoBreak(line.frame) && (line.frame != [] && !line.crlf ==> line.frame[|line.frame| - 1] != 13)
  }

  function LineBytes(line: Line): seq<byte> {
    line.frame + if line.crlf then [13, 10] else [10]
  }

  function Text(lines: seq<Line>): seq<byte> {
    if lines == [] then [] else LineBytes(lines[0]) + Text(lines[1..])
  }

  predicate Accepts<V>(line: Line, max: nat, parse: Parser<V>) {
    OnLine(line) && 0 < |line.frame| <= max && parse(line.frame).Some?
  }

  function Parsed<V>(lines: seq<Line>, parse: Parser<V>): seq<Item<V>> {
    if lines == [] then []
    else match parse(lines[0].frame)
      case None => []
      case Some(v) => [Frame(v)] + Parsed(lines[1..], parse)
  }

  lemma LineFirst<V>(line: Line, rest: seq<byte>, breaks: bool, max: nat, parse: Parser<V>)
    requires OnLine(line)
    ensures var s := Stream(LineBytes(line) + rest, breaks);
      && LineEnd(s.data) < |s.data| && Rest(s) == Stream(rest, breaks)
      && First(s, max, parse) ==
           if |line.frame| > max then Error(FrameTooLarge)
           else if line.frame == [] then Error(EmptyFrame)
           else match parse(line.frame) case None => Error(BadFrame) case Some(v) => Frame(v)
  {
    hide LineEnd;
    var s := Stream(LineBytes(line) + rest, breaks);
    var raw := line.frame + if line.crlf then [13] else [];
    assert s.data == raw + [LF] + rest;
    LineEndAt(raw, rest);
    assert s.data[..|raw|] == raw && s.data[|raw| + 1..] == rest;
    assert StripCr(raw) == line.frame;
  }

  /** The lines that the parser accepts are delivered in order, however each ends, and then whatever
      the rest of the stream is read as. */
  lemma {:induction false} LinesRead<V>(lines: seq<Line>, rest: seq<byte>, breaks: bool, max: nat, parse: Parser<V>)
    requires forall i | 0 <= i < |lines| :: Accepts(lines[i], max, parse)
    ensures Items(Stream(Text(lines) + rest, breaks), max, parse)
      == Parsed(lines, parse) + Items(Stream(rest, breaks), max, parse)
    decreases |lines|
  {
    hide LineEnd, First, LineBytes;
    if lines == [] {
      assert Text(lines) + rest == rest;
    } else {
      var tail := Text(lines[1..]) + rest;
      assert Text(lines) + rest == LineBytes(lines[0]) + tail;
      LineFirst(lines[0], tail, breaks, max, parse);
      LinesRead(lines[1..], rest, breaks, max, parse);
    }
  }

  lemma NoLineEnd(s: seq<byte>)
    requires NoBreak(s)
    ensures LineEnd(s) == |s|
  {
  }

  /** How a stream ends after such lines: cleanly only when nothing is left of it. */
  lemma StreamEnds<V>(lines: seq<Line>, tail: seq<byte>, breaks: bool, max: nat, parse: Parser<V>)
    requires forall i | 0 <= i < |lines| :: Accepts(lines[i], max, parse)
    requires NoBreak(tail)
    ensures Items(Stream(Text(lines) + tail, breaks), max, parse) == Parsed(lines, parse) + [
      if |tail| > max + 1 then Error(FrameTooLarge)
      else if breaks then Error(ReadFailed)
      else if tail == [] then End
      else Error(EofInFrame)]
  {
    LinesRead(lines, tail, breaks, max, parse);
    NoLineEnd(tail);
  }

  /** And how reading stops at a line that is not accepted. */
  lemma StreamStops<V>(lines: seq<Line>, bad: Line, rest: seq<byte>, breaks: bool, max: nat, parse: Parser<V>)
    requires forall i | 0 <= i < |lines| :: Accepts(lines[i], max, parse)
    requires OnLine(bad) && !Accepts(bad, max, parse)
    ensures Items(Stream(Text(lines) + (LineBytes(bad) + rest), breaks), max, parse) == Parsed(lines, parse) + [
      if |bad.frame| > max then Error(FrameTooLarge)
      else if bad.frame == [] then Error(EmptyFrame)
      else Error(BadFrame)]
  {
    hide LineEnd, First, LineBytes;
    LinesRead(lines, LineBytes(bad) + rest, breaks, max, parse);
    LineFirst(bad, rest, breaks, max, parse);
  }

  // ---- frames ----

  function JsonBytes(v: Json): seq<byte> {
    Utf8.Encode(CanonicalJson.Print(v))
  }

  /** EncodedFrame::encode: serde_json prints a value compactly with its members in order,
      which is the canonical form. */
  function EncodeFrame(v: Json, max: nat): Option<seq<byte>> {
    var bytes := JsonBytes(v);
    if |bytes| > max then None else Some(bytes + [LF])
  }

  /** Arrays and objects nested no deeper than so many levels. */
  predicate NestedWithin(v: Json, levels: nat) {
    match v
    case Arr(items) => levels > 0 && forall i | 0 <= i < |items| :: NestedWithin(items[i], levels - 1)
    case Obj(members) => levels > 0 && forall k | k in members :: NestedWithin(members[k], levels - 1)
    case _ => true
  }

  /** How a number token is read: what the number prints as afterwards, or none when it is refused.
      Without its feature `float_roundtrip`, serde_json may read a float as a neighbouring one. */
  type NumberReader = Number -> Option<Number>

  function ReadNumbers(v: Json, read: NumberReader): Option<Json> {
    match v
    case Num(n) =>
      var m :- read(n);
      Some(Num(m))
    case Arr(items) =>
      if forall i | 0 <= i < |items| :: ReadNumbers(items[i], read).Some?
      then Some(Arr(seq(|items|, i requires 0 <= i < |items| => ReadNumbers(items[i], read).value)))
      else None
    case Obj(members) =>
      if forall k | k in members :: ReadNumbers(members[k], read).Some?
      then Some(Obj(map k | k in members :: ReadNumbers(members[k], read).value))
      else None
    case _ => Some(v)
  }

  /** Every number token of the value is read as itself. */
  predicate Kept(v: Json, read: NumberReader) {
    match v
    case Num(n) => read(n) == Some(n)
    case Arr(items) => forall i | 0 <= i < |items| :: Kept(items[i], read)
    case Obj(members) => forall k | k in members :: Kept(members[k], read)
    case _ => true
  }

  lemma {:induction false} ReadIffKept(v: Json, read: NumberReader)
    ensures ReadNumbers(v, read) == Some(v) <==> Kept(v, read)
  {
    match v
    case Arr(items) =>
      forall i | 0 <= i < |items| ensures ReadNumbers(items[i], read) == Some(items[i]) <==> Kept(items[i], read) {
        ReadIffKept(items[i], read);
      }
      if forall i | 0 <= i < |items| :: ReadNumbers(items[i], read).Some? {
        var out := ReadNumbers(v, read).value.items;
        assert forall i | 0 <= i < |items| :: Some(out[i]) == ReadNumbers(items[i], read);
        assert out == items <==> Kept(v, read);
      }
    case Obj(members) =>
      forall k | k in members ensures ReadNumbers(members[k], read) == Some(members[k]) <==> Kept(members[k], read) {
        ReadIffKept(members[k], read);
      }
      if forall k | k in members :: ReadNumbers(members[k], read).Some? {
        var out := ReadNumbers(v, read).value.members;
        assert forall k | k in members :: Some(out[k]) == ReadNumbers(members[k], read);
        assert out == members <==> Kept(v, read);
      }
    case _ =>
  }

  /** parse_frame: serde_json::from_str with its limit on nesting. */
  function ParseFrame(frame: seq<byte>, read: NumberReader): Option<Json> {
    var text :- Utf8.Decode(frame);
    var (v, rest) :- CanonicalJson.ParseValue(text);
    if rest == "" && NestedWithin(v, MAX_NESTING) then ReadNumbers(v, read) else None
  }

  function FrameParser(read: NumberReader): Parser<Json> {
    frame => ParseFrame(frame, read)
  }

  /** Nested no deeper than so many levels, and every number token is kept. */
  predicate Survives(v: Json, read: NumberReader, levels: nat) {
    NestedWithin(v, levels) && Kept(v, read)
  }

  /** The bytes of a value are read back as that value exactly when it survives. */
  lemma ParseFrameInverts(v: Json, read: NumberReader)
    ensures ParseFrame(JsonBytes(v), read) == if NestedWithin(v, MAX_NESTING) then ReadNumbers(v, read) else None
    ensures ParseFrame(JsonBytes(v), read) == Some(v) <==> Survives(v, read, MAX_NESTING)
  {
    hide NestedWithin, Kept, ReadNumbers;
    var text := CanonicalJson.Print(v);
    Utf8.DecodeEncoded(text);
    CanonicalJson.ParsePrinted(v, "");
    assert text + "" == text;
    ReadIffKept(v, read);
  }

  ghost predicate Printable(s: string) {
    forall i | 0 <= i < |s| :: s[i] >= ' '
  }

  lemma {:induction false} EscapedPrintable(s: string)
    ensures Printable(CanonicalJson.EscapeAll(s))
  {
    if s != "" {
      EscapedPrintable(s[1..]);
      assert Printable(CanonicalJson.Escape(s[0]));
    }
  }

  lemma NumberPrintable(n: Number)
    ensures Printable(NumberText(n))
  {
    assert Printable(n.whole) && Printable(FractionText(n.fraction)) && Printable(ExponentText(n.exponent));
  }

  lemma PrintableConcat(a: string, b: string)
    requires Printable(a) && Printable(b)
    ensures Printable(a + b)
  {
  }

  lemma {:induction false} PrintPrintable(v: Json)
    ensures Printable(CanonicalJson.Print(v))
    decreases v, 1, 0
  {
    hide Printable;
    BracketsPrintable();
    match v
    case Num(n) => NumberPrintable(n);
    case Str(s) =>
      StringPrintable(s);
    case Arr(items) =>
      ListPrintable(items);
      PrintableConcat("[", CanonicalJson.PrintList(items));
      PrintableConcat("[" + CanonicalJson.PrintList(items), "]");
    case Obj(members) =>
      var text := CanonicalJson.PrintMemberList(v, SortedKeys(members.Keys));
      MemberListPrintable(v, SortedKeys(members.Keys));
      PrintableConcat("{", text);
      PrintableConcat("{" + text, "}");
    case _ =>
  }

  lemma BracketsPrintable()
    ensures Printable("null") && Printable("true") && Printable("false") && Printable("")
    ensures Printable("[") && Printable("]") && Printable("{") && Printable("}") && Printable(",") && Printable(":")
  {
  }

  lemma StringPrintable(s: string)
    ensures Printable(CanonicalJson.PrintString(s))
  {
    EscapedPrintable(s);
  }

  lemma {:induction false} ListPrintable(items: seq<Json>)
    ensures Printable(CanonicalJson.PrintList(items))
    decreases items, 0, 1
  {
    if items != [] {
      PrintPrintable(items[0]);
      ItemsPrintable(items[1..]);
      PrintableConcat(CanonicalJson.Print(items[0]), CanonicalJson.PrintItems(items[1..]));
    }
  }

  lemma {:induction false} ItemsPrintable(items: seq<Json>)
    ensures Printable(CanonicalJson.PrintItems(items))
    decreases items, 0, 0
  {
    hide Printable;
    BracketsPrintable();
    if items != [] {
      PrintPrintable(items[0]);
      ItemsPrintable(items[1..]);
      PrintableConcat(",", CanonicalJson.Print(items[0]));
      PrintableConcat("," + CanonicalJson.Print(items[0]), CanonicalJson.PrintItems(items[1..]));
    }
  }

  lemma {:induction false} MemberPrintable(v: Json, name: string)
    requires v.Obj? && name in v.members
    ensures Printable(CanonicalJson.PrintMember(v, name))
    decreases v, 0, 0
  {
    hide Printable;
    BracketsPrintable();
    StringPrintable(name);
    PrintPrintable(v.members[name]);
    PrintableConcat(CanonicalJson.PrintString(name), ":");
    PrintableConcat(CanonicalJson.PrintString(name) + ":", CanonicalJson.Print(v.members[name]));
  }

  lemma {:induction false} MemberListPrintable(v: Json, names: seq<string>)
    requires v.Obj? && forall i | 0 <= i < |names| :: names[i] in v.members
    ensures Printable(CanonicalJson.PrintMemberList(v, names))
    decreases v, 0, 2 + |names|
  {
    if names != [] {
      MemberPrintable(v, names[0]);
      MembersPrintable(v, names[1..]);
    }
  }

  lemma {:induction false} MembersPrintable(v: Json, names: seq<string>)
    requires v.Obj? && forall i | 0 <= i < |names| :: names[i] in v.members
    ensures Printable(CanonicalJson.PrintMembers(v, names))
    decreases v, 0, 1 + |names|
  {
    hide Printable;
    BracketsPrintable();
    if names != [] {
      var member := CanonicalJson.PrintMember(v, names[0]);
      MemberPrintable(v, names[0]);
      MembersPrintable(v, names[1..]);
      PrintableConcat(",", member);
      PrintableConcat("," + member, CanonicalJson.PrintMembers(v, names[1..]));
    }
  }

  lemma JsonBytesPrintable(v: Json)
    ensures JsonBytes(v) != [] && forall i | 0 <= i < |JsonBytes(v)| :: JsonBytes(v)[i] >= 0x20
  {
    PrintPrintable(v);
    CanonicalJson.PrintStart(v);
    Utf8.EncodePrintable(CanonicalJson.Print(v));
  }

  // ---- round trip ----

  ghost function Sent(values: seq<Json>): seq<byte> {
    if values == [] then [] else JsonBytes(values[0]) + [LF] + Sent(values[1..])
  }

  /** The items that a parser makes of the frames of some values. */
  ghost function Received(values: seq<Json>, parse: Parser<Json>): seq<Item<Json>> {
    if values == [] then [End]
    else match parse(JsonBytes(values[0]))
      case None => [Error(BadFrame)]
      case Some(v) => [Frame(v)] + Received(values[1..], parse)
  }

  ghost function Frames(values: seq<Json>): seq<Item<Json>> {
    if values == [] then [End] else [Frame(values[0])] + Frames(values[1..])
  }

  lemma LineEndAt(line: seq<byte>, rest: seq<byte>)
    requires forall i | 0 <= i < |line| :: line[i] != LF
    ensures LineEnd(line + [LF] + rest) == |line|
  {
    EndInPrefix(line + [LF], rest);
    var end := LineEnd(line + [LF]);
    assert (line + [LF])[|line|] == LF;
  }

  /** The reader finds the frames of values that were encoded under its limit, one by one, and
      hands each to the parser. */
  lemma {:induction false} FramesFound(values: seq<Json>, max: nat, parse: Parser<Json>)
    requires forall i | 0 <= i < |values| :: EncodeFrame(values[i], max).Some?
    ensures Items(Stream(Sent(values), false), max, parse) == Received(values, parse)
    decreases |values|
  {
    hide JsonBytes;
    if values != [] {
      var line, rest := JsonBytes(values[0]), Sent(values[1..]);
      var s := Stream(Sent(values), false);
      JsonBytesPrintable(values[0]);
      LineEndAt(line, rest);
      assert s.data[..|line|] == line && Rest(s).data == rest;
      FramesFound(values[1..], max, parse);
    }
  }

  /** So they are read back as they were, followed by the end of the stream, by any parser that
      reads them. */
  lemma {:induction false} FramesRoundTrip(values: seq<Json>, max: nat, parse: Parser<Json>)
    requires forall i | 0 <= i < |values| :: EncodeFrame(values[i], max).Some?
    requires forall i | 0 <= i < |values| :: parse(JsonBytes(values[i])) == Some(values[i])
    ensures Items(Stream(Sent(values), false), max, parse) == Frames(values)
    decreases |values|
  {
    hide JsonBytes, Items, Sent, EncodeFrame;
    FramesFound(values, max, parse);
    if values != [] {
      FramesRoundTrip(values[1..], max, parse);
      FramesFound(values[1..], max, parse);
    }
  }

  /** Encoded values are read back as they were, followed by the end of the stream, exactly when
      none of them is nested too deep and every number token in them is kept. */
  lemma EncodedFramesReadBack(values: seq<Json>, max: nat, read: NumberReader)
    requires forall i | 0 <= i < |values| :: EncodeFrame(values[i], max).Some?
    ensures Items(Stream(Sent(values), false), max, FrameParser(read)) == Frames(values)
      <==> forall i | 0 <= i < |values| :: Survives(values[i], read, MAX_NESTING)
  {
    hide JsonBytes, FrameParser, Survives, Items, EncodeFrame;
    FramesFound(values, max, FrameParser(read));
    ReceivedFrames(values, read);
  }

  lemma {:induction false} ReceivedFrames(values: seq<Json>, read: NumberReader)
    ensures Received(values, FrameParser(read)) == Frames(values)
      <==> forall i | 0 <= i < |values| :: Survives(values[i], read, MAX_NESTING)
    decreases |values|
  {
    hide JsonBytes, ParseFrame, Survives;
    if values != [] {
      var rest := values[1..];
      ParseFrameInverts(values[0], read);
      ReceivedFrames(rest, read);
      assert forall i | 1 <= i < |values| :: values[i] == rest[i - 1];
      assert (forall i | 0 <= i < |rest| :: Survives(rest[i], read, MAX_NESTING))
        <==> forall i | 1 <= i < |values| :: Survives(values[i], read, MAX_NESTING);
      var a, b := Received(values, FrameParser(read)), Frames(values);
      if Survives(values[0], read, MAX_NESTING) {
        assert a[1..] == Received(rest, FrameParser(read)) && b[1..] == Frames(rest);
      } else {
        assert a[0] != b[0];
      }
    }
  }

  function Nested(levels: nat, objects: bool): Json {
    if levels == 0 then Null
    else if objects then Obj(map["a" := Nested(levels - 1, objects)])
    else Arr([Nested(levels - 1, objects)])
  }

  lemma {:induction false} NestedDepth(levels: nat, objects: bool, limit: nat, read: NumberReader)
    ensures NestedWithin(Nested(levels, objects), limit) <==> levels <= limit
    ensures Kept(Nested(levels, objects), read)
  {
    if levels > 0 {
      var inner := Nested(levels - 1, objects);
      NestedDepth(levels - 1, objects, if limit == 0 then 0 else limit - 1, read);
      if objects {
        assert Nested(levels, objects).members["a"] == inner;
      } else {
        assert Nested(levels, objects).items[0] == inner;
      }
    }
  }

  /** However numbers are read, 127 nested arrays or objects are read back; 128 are encoded all the same
      and come back as a bad frame. */
  lemma DeepFrameLost(max: nat, objects: bool, read: NumberReader)
    requires |JsonBytes(Nested(128, objects))| <= max
    ensures ParseFrame(JsonBytes(Nested(127, objects)), read) == Some(Nested(127, objects))
    ensures EncodeFrame(Nested(128, objects), max).Some?
    ensures Items(Stream(Sent([Nested(128, objects)]), false), max, FrameParser(read)) == [Error(BadFrame)]
  {
    hide JsonBytes, ParseFrame, Nested, Items;
    NestedDepth(127, objects, MAX_NESTING, read);
    NestedDepth(128, objects, MAX_NESTING, read);
    ParseFrameInverts(Nested(127, objects), read);
    ParseFrameInverts(Nested(128, objects), read);
    FramesFound([Nested(128, objects)], max, FrameParser(read));
  }
}
