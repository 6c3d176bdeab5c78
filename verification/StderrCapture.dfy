/** Capture of a child's standard error: lines of bounded length into a bounded ring. */
module StderrCapture {
  import opened Json
  import opened Bytes
  import opened JsonLines

  const MAX_LINE: nat := 64 * 1024
  const READ_BUFFER: nat := 4096

  type Rewrite = seq<byte> -> seq<byte>

  // ---- a text cut to its tail ----

  function NextBoundary(s: seq<byte>, i: nat): (j: nat)
    requires i <= |s|
    ensures i <= j <= |s| && CharBoundary(s, j)
    ensures forall k | i <= k < j :: !CharBoundary(s, k)
    decreases |s| - i
  {
    if CharBoundary(s, i) then i else NextBoundary(s, i + 1)
  }

  /** The longest tail of at most so many bytes that starts at a character. */
  function Tail(s: seq<byte>, max: nat): (t: seq<byte>)
    ensures |t| <= max
  {
    if |s| <= max then s else s[NextBoundary(s, |s| - max)..]
  }

  lemma TailLongest(s: seq<byte>, max: nat, start: nat)
    requires start <= |s| && CharBoundary(s, start) && |s| - start <= max
    ensures |Tail(s, max)| >= |s| - start
    ensures Tail(s, max) == s[|s| - |Tail(s, max)|..]
  {
  }

  lemma TailShort(s: seq<byte>, max: nat)
    ensures |s| <= max ==> Tail(s, max) == s
  {
  }

  method Utf8Suffix(input: seq<byte>, max: nat) returns (t: seq<byte>)
    ensures t == Tail(input, max)
  {
    if |input| <= max { return input; }
    var start := |input| - max;
    while !CharBoundary(input, start)
      invariant start <= |input|
      invariant NextBoundary(input, start) == NextBoundary(input, |input| - max)
      decreases |input| - start
    {
      start := start + 1;
    }
    t := input[start..];
  }

  // ---- the ring ----

  function Joined(lines: seq<seq<byte>>): seq<byte> {
    if lines == [] then []
    else if |lines| == 1 then lines[0]
    else lines[0] + [LF] + Joined(lines[1..])
  }

  function JoinedLength(lines: seq<seq<byte>>): (n: nat)
    ensures n == |Joined(lines)|
  {
    if lines == [] then 0
    else if |lines| == 1 then |lines[0]|
    else |lines[0]| + 1 + JoinedLength(lines[1..])
  }

  /** Lines without as many of the first as it takes for the rest to fit. */
  function Newest(lines: seq<seq<byte>>, capacity: nat): (kept: seq<seq<byte>>)
    ensures JoinedLength(kept) <= capacity
  {
    if JoinedLength(lines) <= capacity then lines else Newest(lines[1..], capacity)
  }

  lemma EmptyLength()
    ensures JoinedLength([]) == 0
  {
  }

  lemma DropDrop(lines: seq<seq<byte>>, k: nat)
    requires 1 <= k <= |lines|
    ensures lines[k..] == lines[1..][k - 1..]
  {
  }

  /** What is kept is the longest suffix that fits. */
  lemma {:induction false} NewestLongest(lines: seq<seq<byte>>, capacity: nat)
    ensures var kept := Newest(lines, capacity);
      && |kept| <= |lines| && kept == lines[|lines| - |kept|..]
      && forall k | 0 <= k <= |lines| && JoinedLength(lines[k..]) <= capacity :: |lines| - k <= |kept|
    decreases |lines|
  {
    hide JoinedLength;
    assert lines[0..] == lines;
    if JoinedLength(lines) > capacity {
      EmptyLength();
      var tail := lines[1..];
      NewestLongest(tail, capacity);
      var kept := Newest(tail, capacity);
      assert kept == tail[|tail| - |kept|..] == lines[|lines| - |kept|..];
      forall k | 1 <= k <= |lines| && JoinedLength(lines[k..]) <= capacity ensures |lines| - k <= |kept| {
        DropDrop(lines, k);
      }
    }
  }

  lemma {:induction false} AppendLength(lines: seq<seq<byte>>, line: seq<byte>)
    ensures JoinedLength(lines + [line]) == JoinedLength(lines) + |line| + (if lines == [] then 0 else 1)
    decreases |lines|
  {
    if lines != [] {
      assert (lines + [line])[1..] == lines[1..] + [line];
      AppendLength(lines[1..], line);
      if |lines| == 1 { assert lines[1..] == []; }
    }
  }

  /** Nothing that was dropped before would fit after another line. */
  lemma {:induction false} NewestAppend(lines: seq<seq<byte>>, line: seq<byte>, capacity: nat)
    requires |line| <= capacity
    ensures Newest(lines + [line], capacity) == Newest(Newest(lines, capacity) + [line], capacity)
    decreases |lines|
  {
    AppendLength(lines, line);
    if JoinedLength(lines) > capacity {
      assert (lines + [line])[1..] == lines[1..] + [line];
      NewestAppend(lines[1..], line, capacity);
    }
  }

  lemma DropFirst(lines: seq<seq<byte>>, capacity: nat)
    ensures JoinedLength([]) == 0
    ensures lines != [] ==>
      JoinedLength(lines[1..]) == JoinedLength(lines) - |lines[0]| - (if |lines| > 1 then 1 else 0)
    ensures Newest(lines, capacity) == if JoinedLength(lines) <= capacity then lines else Newest(lines[1..], capacity)
  {
  }

  /** Lines are joined by line feeds. */
  lemma {:induction false} JoinedMore(lines: seq<seq<byte>>, line: seq<byte>)
    ensures Joined(lines + [line]) == if lines == [] then line else Joined(lines) + [10] + line
    decreases |lines|
  {
    if lines != [] {
      assert (lines + [line])[1..] == lines[1..] + [line];
      JoinedMore(lines[1..], line);
      if |lines| == 1 { assert lines[1..] == []; }
    }
  }

  function SaturatingSub(a: nat, b: nat): nat {
    if a < b then 0 else a - b
  }

  class StderrRing {
    const capacity: nat
    const redact: Rewrite
    var bytes: nat
    var lines: seq<seq<byte>>
    ghost var history: seq<seq<byte>>

    constructor (capacity: nat, redact: Rewrite)
      ensures this.capacity == capacity && this.redact == redact
      ensures Valid() && history == []
    {
      this.capacity, this.redact := capacity, redact;
      bytes, lines, history := 0, [], [];
    }

    /** The ring holds the newest of all lines ever pushed, and counts its bytes right. */
    ghost predicate Valid()
      reads this
    {
      lines == Newest(history, capacity) && bytes == JoinedLength(lines)
    }

    ghost function Recorded(line: seq<byte>): seq<seq<byte>> {
      if capacity == 0 then [] else [Tail(redact(line), capacity)]
    }

    method Push(line: seq<byte>)
      requires Valid()
      modifies this
      ensures Valid() && history == old(history) + Recorded(line)
    {
      hide Newest, JoinedLength, Tail;
      if capacity == 0 { return; }
      var entry := redact(line);
      if |entry| > capacity { entry := Utf8Suffix(entry, capacity); }
      TailShort(redact(line), capacity);
      ghost var goal := Newest(history + [entry], capacity);
      NewestAppend(history, entry, capacity);
      DropFirst([], capacity);
      var cost := |entry| + (if lines == [] then 0 else 1);
      while bytes + cost > capacity && lines != []
        invariant bytes == JoinedLength(lines)
        invariant lines != [] ==> cost == |entry| + 1
        invariant goal == Newest(lines + [entry], capacity)
        invariant history == old(history)
        decreases |lines|
      {
        var removed := lines[0];
        AppendLength(lines, entry);
        DropFirst(lines, capacity);
        DropFirst(lines + [entry], capacity);
        assert (lines + [entry])[1..] == lines[1..] + [entry];
        lines := lines[1..];
        bytes := SaturatingSub(bytes, |removed|);
        if lines != [] { bytes := SaturatingSub(bytes, 1); }
      }
      AppendLength(lines, entry);
      DropFirst(lines + [entry], capacity);
      if lines != [] { bytes := bytes + 1; }
      bytes := bytes + |entry|;
      lines := lines + [entry];
      history := history + [entry];
    }

    method Text() returns (tail: Option<seq<byte>>)
      requires Valid()
      ensures tail == if lines == [] then None else Some(Joined(Newest(history, capacity)))
      ensures tail.Some? ==> |tail.value| == bytes <= capacity
    {
      tail := if lines == [] then None else Some(Joined(lines));
    }
  }

  // ---- one pass over the whole stream ----

  datatype Line = Oversized | Whole(bytes: seq<byte>)

  function LineOf(line: seq<byte>): Line {
    if |line| > MAX_LINE then Oversized else Whole(StripCr(line))
  }

  /** The lines of a stream; a last line without line feed keeps its carriage return. */
  function Lines(data: seq<byte>): seq<Line>
    decreases |data|
  {
    var end := LineEnd(data);
    if end < |data| then [LineOf(data[..end])] + Lines(data[end + 1..])
    else if data == [] then []
    else if |data| > MAX_LINE then [Oversized]
    else [Whole(data)]
  }

  /** The lines after the rest of one that was found oversize. */
  function LinesAfterDiscard(data: seq<byte>): seq<Line> {
    var end := LineEnd(data);
    if end < |data| then Lines(data[end + 1..]) else []
  }

  lemma Unfold(data: seq<byte>)
    ensures LineEnd(data) < |data| ==> Lines(data) == [LineOf(data[..LineEnd(data)])] + Lines(data[LineEnd(data) + 1..])
    ensures LineEnd(data) == |data| > MAX_LINE ==> Lines(data) == [Oversized]
  {
  }

  /** What a line of the stream is recorded as, by its length without the line feed. */
  function LineMeans(line: JsonLines.Line): Line {
    if |line.frame| + (if line.crlf then 1 else 0) > 65536 then Oversized else Whole(line.frame)
  }

  function LinesMean(lines: seq<JsonLines.Line>): seq<Line> {
    if lines == [] then [] else [LineMeans(lines[0])] + LinesMean(lines[1..])
  }

  lemma FirstLine(line: JsonLines.Line, rest: seq<byte>)
    requires OnLine(line)
    ensures Lines(LineBytes(line) + rest) == [LineMeans(line)] + Lines(rest)
  {
    hide LineEnd;
    var data := LineBytes(line) + rest;
    var raw := line.frame + if line.crlf then [13] else [];
    assert data == raw + [LF] + rest;
    LineEndAt(raw, rest);
    assert data[..|raw|] == raw && data[|raw| + 1..] == rest;
    assert StripCr(raw) == line.frame;
  }

  /** The lines of a stream, in terms of its bytes: each without its LF or CR LF, and what follows the
      last of them; one longer than 64 KiB is oversize. */
  lemma {:induction false} LinesAre(lines: seq<JsonLines.Line>, tail: seq<byte>)
    requires forall i | 0 <= i < |lines| :: OnLine(lines[i])
    requires NoBreak(tail)
    ensures Lines(JsonLines.Text(lines) + tail) == LinesMean(lines) +
      if tail == [] then [] else if |tail| > 65536 then [Oversized] else [Whole(tail)]
    decreases |lines|
  {
    hide Lines, LineBytes, LineMeans, LineEnd;
    if lines == [] {
      assert JsonLines.Text(lines) + tail == tail;
      NoLineEnd(tail);
      Unfold(tail);
      if |tail| <= MAX_LINE { LastLine(tail); }
    } else {
      var rest := JsonLines.Text(lines[1..]) + tail;
      assert JsonLines.Text(lines) + tail == LineBytes(lines[0]) + rest;
      FirstLine(lines[0], rest);
      LinesAre(lines[1..], tail);
    }
  }

  /** A complete line at the front of what is pending comes off whatever is to follow. */
  lemma CompleteLine(a: seq<byte>, b: seq<byte>)
    requires LineEnd(a) < |a|
    ensures Lines(a + b) == [LineOf(a[..LineEnd(a)])] + Lines(a[LineEnd(a) + 1..] + b)
    ensures LinesAfterDiscard(a + b) == Lines(a[LineEnd(a) + 1..] + b)
  {
    hide Lines, LineOf, LineEnd;
    var end := LineEnd(a);
    EndInPrefix(a, b);
    Unfold(a + b);
    assert (a + b)[..end] == a[..end] && (a + b)[end + 1..] == a[end + 1..] + b;
  }

  /** An incomplete one is discarded to its end, and is oversize once it is too long. */
  lemma IncompleteLine(a: seq<byte>, b: seq<byte>)
    requires LineEnd(a) == |a|
    ensures LinesAfterDiscard(a + b) == LinesAfterDiscard(b)
    ensures |a| > MAX_LINE ==> Lines(a + b) == [Oversized] + LinesAfterDiscard(b)
  {
    hide Lines, LineEnd;
    EndPastPrefix(a, b);
    Unfold(a + b);
    if LineEnd(b) < |b| {
      assert (a + b)[|a| + LineEnd(b) + 1..] == b[LineEnd(b) + 1..];
    }
  }

  lemma {:induction false} EndPastPrefix(a: seq<byte>, b: seq<byte>)
    requires LineEnd(a) == |a|
    ensures LineEnd(a + b) == |a| + LineEnd(b)
  {
    if a == [] {
      assert a + b == b;
    } else {
      assert (a + b)[1..] == a[1..] + b;
      EndPastPrefix(a[1..], b);
    }
  }

  /** What a line becomes in the ring: a marker, or the text a lossy decoder makes of it. */
  function TextOf(line: Line, marker: seq<byte>, lossy: Rewrite): seq<byte> {
    match line
    case Oversized => marker
    case Whole(bytes) => lossy(bytes)
  }

  ghost function Record(ring: StderrRing, lines: seq<Line>, marker: seq<byte>, lossy: Rewrite): seq<seq<byte>> {
    if lines == [] then []
    else ring.Recorded(TextOf(lines[0], marker, lossy)) + Record(ring, lines[1..], marker, lossy)
  }

  lemma {:induction false} RecordAppend(
    ring: StderrRing, lines: seq<Line>, line: Line, marker: seq<byte>, lossy: Rewrite)
    ensures Record(ring, lines + [line], marker, lossy)
      == Record(ring, lines, marker, lossy) + ring.Recorded(TextOf(line, marker, lossy))
    decreases |lines|
  {
    hide StderrRing.Recorded, TextOf;
    if lines == [] {
      assert lines + [line] == [line];
      var one := Record(ring, [line], marker, lossy);
      assert Record(ring, [line][1..], marker, lossy) == [];
      assert one == ring.Recorded(TextOf(line, marker, lossy)) + [];
    } else {
      assert (lines + [line])[1..] == lines[1..] + [line];
      RecordAppend(ring, lines[1..], line, marker, lossy);
      Associate(ring.Recorded(TextOf(lines[0], marker, lossy)), Record(ring, lines[1..], marker, lossy),
        ring.Recorded(TextOf(line, marker, lossy)));
    }
  }

  lemma Associate<T>(a: seq<T>, b: seq<T>, c: seq<T>)
    ensures (a + b) + c == a + (b + c)
  {
  }

  ghost function Remaining(discarding: bool, data: seq<byte>): seq<Line> {
    if discarding then LinesAfterDiscard(data) else Lines(data)
  }

  lemma NoLine()
    ensures LineEnd([]) == 0
  {
  }

  lemma LastLine(data: seq<byte>)
    requires LineEnd(data) == |data| <= MAX_LINE
    ensures Lines(data) == if data == [] then [] else [Whole(data)]
    ensures LinesAfterDiscard(data) == []
  {
  }

  /** The capture loop, with what has been pushed so far. */
  class Capture {
    const ring: StderrRing
    const marker: seq<byte>
    const lossy: Rewrite
    ghost var pushed: seq<Line>
    ghost const start: seq<seq<byte>>

    constructor (ring: StderrRing, marker: seq<byte>, lossy: Rewrite)
      requires ring.Valid()
      ensures this.ring == ring && this.marker == marker && this.lossy == lossy
      ensures start == ring.history && pushed == [] && Valid()
    {
      this.ring, this.marker, this.lossy := ring, marker, lossy;
      pushed, start := [], ring.history;
    }

    ghost predicate Valid()
      reads this, ring
    {
      ring.Valid() && ring.history == start + Record(ring, pushed, marker, lossy)
    }

    method Push(line: Line)
      requires Valid()
      modifies ring, this`pushed
      ensures Valid() && pushed == old(pushed) + [line]
    {
      RecordAppend(ring, pushed, line, marker, lossy);
      ring.Push(TextOf(line, marker, lossy));
      pushed := pushed + [line];
    }

    /** However the reads cut the stream, the lines pushed are those of the whole stream,
        and no more than a line and one read is ever pending. */
    method Run(source: Source) returns (ghost peak: nat)
      requires Valid()
      modifies source, ring, this`pushed
      ensures Valid() && pushed == old(pushed) + Lines(old(source.stream.data))
      ensures peak <= MAX_LINE + READ_BUFFER
    {
      hide Lines, LinesAfterDiscard, LineEnd, Record;
      var pending: seq<byte> := [];
      var discarding := false;
      peak := 0;
      ghost var goal := pushed + Lines(source.stream.data);
      assert pending + source.stream.data == source.stream.data;
      NoLine();
      while true
        invariant Valid()
        invariant goal == pushed + Remaining(discarding, pending + source.stream.data)
        invariant |pending| <= MAX_LINE && LineEnd(pending) == |pending| && (discarding ==> pending == [])
        invariant peak <= MAX_LINE + READ_BUFFER
        decreases |source.stream.data|
      {
        ghost var left := source.stream.data;
        var failed, chunk := source.Read(READ_BUFFER);
        if failed || chunk == [] {
          assert left == [] && pending + left == pending;
          break;
        }
        ghost var rest := source.stream.data;
        assert pending + left == (pending + chunk) + rest;
        pending := pending + chunk;
        peak := if |pending| > peak then |pending| else peak;
        pending, discarding := Absorb(pending, discarding, rest, goal);
      }
      LastLine(pending);
      if !discarding && pending != [] { Push(Whole(pending)); }
    }

    /** Deal with what is pending after a read: skip the rest of an oversize line, push the
        complete lines, and give up on a line that has become too long. */
    method Absorb(before: seq<byte>, skipping: bool, ghost rest: seq<byte>, ghost goal: seq<Line>)
      returns (pending: seq<byte>, discarding: bool)
      requires Valid() && goal == pushed + Remaining(skipping, before + rest)
      modifies ring, this`pushed
      ensures Valid() && goal == pushed + Remaining(discarding, pending + rest)
      ensures |pending| <= MAX_LINE && LineEnd(pending) == |pending| && (discarding ==> pending == [])
    {
      hide Lines, LinesAfterDiscard, LineEnd, Record;
      NoLine();
      pending, discarding := before, skipping;
      var consumed := 0;
      if discarding {
        var position := LineEnd(pending);
        if position == |pending| {
          IncompleteLine(pending, rest);
          pending := [];
          assert pending + rest == rest;
          return;
        }
        CompleteLine(pending, rest);
        consumed := position + 1;
        discarding := false;
      } else {
        assert pending[0..] == pending;
      }
      consumed := PushLines(pending, consumed, rest, goal);
      pending := pending[consumed..];
      if |pending| > MAX_LINE {
        IncompleteLine(pending, rest);
        Associate(pushed, [Oversized], LinesAfterDiscard(rest));
        Push(Oversized);
        pending := [];
        discarding := true;
        assert pending + rest == rest;
      }
    }

    /** Push every complete line from a position on, and say where the last one ended. */
    method PushLines(pending: seq<byte>, from: nat, ghost rest: seq<byte>, ghost goal: seq<Line>)
      returns (consumed: nat)
      requires Valid() && from <= |pending| && goal == pushed + Lines(pending[from..] + rest)
      modifies ring, this`pushed
      ensures Valid() && consumed <= |pending| && goal == pushed + Lines(pending[consumed..] + rest)
      ensures LineEnd(pending[consumed..]) == |pending| - consumed
    {
      hide Lines, LineEnd, Record;
      consumed := from;
      while true
        invariant Valid() && consumed <= |pending| && goal == pushed + Lines(pending[consumed..] + rest)
        decreases |pending| - consumed
      {
        var unread := pending[consumed..];
        var relative := LineEnd(unread);
        if relative == |unread| { return; }
        CompleteLine(unread, rest);
        var line := unread[..relative];
        Associate(pushed, [LineOf(line)], Lines(unread[relative + 1..] + rest));
        if |line| > MAX_LINE {
          Push(Oversized);
        } else {
          Push(Whole(StripCr(line)));
        }
        assert unread[relative + 1..] == pending[consumed + relative + 1..];
        consumed := consumed + relative + 1;
      }
    }
  }
}
