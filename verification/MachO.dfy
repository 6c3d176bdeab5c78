/** Giving the Mach-O guardian a fixed build identifier, so that builds can be compared. */
module MachO {
  import opened Json
  import opened Bytes

  const MACH_HEADER_64: nat := 0xfeed_facf
  const LC_UUID: nat := 0x1b
  const UUID_OFFSET: nat := 8
  const LOAD_COMMANDS_OFFSET: nat := 32
  const LOAD_COMMAND_HEADER_BYTES: nat := 8
  const FIXED_UUID: seq<byte> := [
    0x56, 0x45, 0x52, 0x47, 0x45, 0x52, 0x41, 0x49, 0x4c, 0x2d, 0x47, 0x55, 0x41, 0x52, 0x44, 0x31]

  datatype Error =
    | HeaderTruncated
    | NotMachO
    | CommandTruncated
    | SizeMissing
    | SizeInvalid
    | UuidTruncated
    | UuidMissing

  datatype Result<+T> = Ok(value: T) | Err(error: Error)

  /** A little-endian 32-bit number. */
  function ReadU32(b: seq<byte>, offset: nat): Option<nat> {
    if offset + 4 <= |b| then Some(Word(b[offset], b[offset + 1], b[offset + 2], b[offset + 3])) else None
  }

  function Word(b0: nat, b1: nat, b2: nat, b3: nat): nat {
    b0 + 0x100 * b1 + 0x1_0000 * b2 + 0x100_0000 * b3
  }

  // ---- where the identifiers are ----

  /** The size of the load command at an offset, or what is wrong with it. */
  function CommandSize(b: seq<byte>, offset: nat): (size: Result<nat>)
    ensures size.Ok? ==> LOAD_COMMAND_HEADER_BYTES <= size.value <= |b| - offset
    ensures size.Ok? && IsUuid(b, offset) ==> UUID_OFFSET + |FIXED_UUID| <= size.value
  {
    if ReadU32(b, offset).None? then Err(CommandTruncated)
    else match ReadU32(b, offset + 4)
      case None => Err(SizeMissing)
      case Some(size) =>
        if size < LOAD_COMMAND_HEADER_BYTES || offset + size > |b| then Err(SizeInvalid)
        else if IsUuid(b, offset) && size < UUID_OFFSET + |FIXED_UUID| then Err(UuidTruncated)
        else Ok(size)
  }

  predicate IsUuid(b: seq<byte>, offset: nat) {
    ReadU32(b, offset) == Some(LC_UUID)
  }

  /** The offsets of the UUID commands among so many load commands from an offset on. */
  function Uuids(b: seq<byte>, offset: nat, count: nat): (at: Result<seq<nat>>)
    ensures at.Ok? ==> forall u | u in at.value :: offset <= u && u + UUID_OFFSET + |FIXED_UUID| <= |b|
    decreases count
  {
    if count == 0 then Ok([])
    else match CommandSize(b, offset)
      case Err(error) => Err(error)
      case Ok(size) => Prepend(if IsUuid(b, offset) then [offset] else [], Uuids(b, offset + size, count - 1))
  }

  function Prepend(first: seq<nat>, rest: Result<seq<nat>>): Result<seq<nat>> {
    match rest
    case Err(_) => rest
    case Ok(us) => Ok(first + us)
  }

  /** The offsets of the UUID commands of a whole file, of which there is at least one. */
  function UuidsOf(b: seq<byte>): Result<seq<nat>> {
    if |b| < LOAD_COMMANDS_OFFSET then Err(HeaderTruncated)
    else if ReadU32(b, 0) != Some(MACH_HEADER_64) then Err(NotMachO)
    else
      var at := Uuids(b, LOAD_COMMANDS_OFFSET, ReadU32(b, 16).value);
      if at == Ok([]) then Err(UuidMissing) else at
  }

  /** Whether a byte belongs to the identifier of one of these commands. */
  ghost predicate InPayload(us: seq<nat>, p: nat) {
    exists u | u in us :: u + UUID_OFFSET <= p < u + UUID_OFFSET + |FIXED_UUID|
  }

  /** Two files that differ in the identifiers of the first one only. */
  ghost predicate SameOutside(us: seq<nat>, a: seq<byte>, b: seq<byte>) {
    |a| == |b| && forall p | 0 <= p < |a| && !InPayload(us, p) :: a[p] == b[p]
  }

  /** Which identifiers can still matter: none reaches into the command headers that are left. */
  ghost predicate Ahead(all: seq<nat>, b: seq<byte>, offset: nat, count: nat) {
    && Uuids(b, offset, count).Ok?
    && forall u | u in all :: u in Uuids(b, offset, count).value || u + UUID_OFFSET + |FIXED_UUID| <= offset
  }

  lemma AheadNext(all: seq<nat>, b: seq<byte>, offset: nat, count: nat)
    requires count > 0 && Ahead(all, b, offset, count)
    ensures CommandSize(b, offset).Ok? && Ahead(all, b, offset + CommandSize(b, offset).value, count - 1)
  {
  }

  lemma HeaderSame(all: seq<nat>, a: seq<byte>, b: seq<byte>, offset: nat, count: nat)
    requires SameOutside(all, a, b) && count > 0 && Ahead(all, a, offset, count)
    ensures IsUuid(a, offset) == IsUuid(b, offset) && CommandSize(a, offset) == CommandSize(b, offset)
  {
    hide Word;
    forall p | offset <= p < offset + UUID_OFFSET ensures !InPayload(all, p) {}
    assert ReadU32(a, offset) == ReadU32(b, offset);
    assert ReadU32(a, offset + 4) == ReadU32(b, offset + 4);
  }

  /** Load commands are found alike in files that differ in identifiers only. */
  lemma {:induction false} UuidsSame(all: seq<nat>, a: seq<byte>, b: seq<byte>, offset: nat, count: nat)
    requires SameOutside(all, a, b) && Ahead(all, a, offset, count)
    ensures Uuids(b, offset, count) == Uuids(a, offset, count)
    decreases count
  {
    hide SameOutside, CommandSize, IsUuid, Ahead;
    if count > 0 {
      HeaderSame(all, a, b, offset, count);
      AheadNext(all, a, offset, count);
      UuidsSame(all, a, b, offset + CommandSize(a, offset).value, count - 1);
    }
  }

  /** A whole file's identifiers are where they are in any file that differs in them only. */
  lemma UuidsOfSame(a: seq<byte>, b: seq<byte>)
    requires UuidsOf(a).Ok? && SameOutside(UuidsOf(a).value, a, b)
    ensures UuidsOf(b) == UuidsOf(a)
  {
    hide Word, Uuids, CommandSize;
    var us := UuidsOf(a).value;
    forall p | 0 <= p < LOAD_COMMANDS_OFFSET ensures !InPayload(us, p) {}
    UuidsSame(us, a, b, LOAD_COMMANDS_OFFSET, ReadU32(a, 16).value);
  }

  // ---- a file laid out command by command ----

  datatype Command = Command(kind: nat, body: seq<byte>)

  function LittleEndian(n: nat): (b: seq<byte>)
    requires n < 0x1_0000_0000
    ensures |b| == 4
  {
    var low, high := n % 0x1_0000, n / 0x1_0000;
    [low % 256, low / 256, high % 256, high / 256]
  }

  ghost predicate Encodable(c: Command) {
    c.kind < 0x1_0000_0000 && |c.body| < 0x1_0000_0000 - 8 && (c.kind == 0x1b ==> |c.body| >= 16)
  }

  /** A load command: its kind, its whole size and its body. */
  ghost function CommandBytes(c: Command): (b: seq<byte>)
    requires Encodable(c)
    ensures |b| == 8 + |c.body|
  {
    LittleEndian(c.kind) + LittleEndian(8 + |c.body|) + c.body
  }

  ghost function AllCommands(cs: seq<Command>): seq<byte>
    requires forall i | 0 <= i < |cs| :: Encodable(cs[i])
  {
    if cs == [] then [] else CommandBytes(cs[0]) + AllCommands(cs[1..])
  }

  ghost function UuidPlaces(cs: seq<Command>, offset: nat): seq<nat> {
    if cs == [] then []
    else (if cs[0].kind == 0x1b then [offset] else []) + UuidPlaces(cs[1..], offset + 8 + |cs[0].body|)
  }

  lemma WordRead(n: nat)
    requires n < 0x1_0000_0000
    ensures var b := LittleEndian(n); Word(b[0], b[1], b[2], b[3]) == n
  {
  }

  lemma CommandRead(before: seq<byte>, c: Command, rest: seq<byte>)
    requires Encodable(c)
    ensures var b := before + (CommandBytes(c) + rest);
      && IsUuid(b, |before|) == (c.kind == 0x1b)
      && CommandSize(b, |before|) == Ok(8 + |c.body|)
  {
    hide Word, LittleEndian;
    WordRead(c.kind);
    WordRead(8 + |c.body|);
    var b, o := before + (CommandBytes(c) + rest), |before|;
    assert b[o..o + 4] == LittleEndian(c.kind) && b[o + 4..o + 8] == LittleEndian(8 + |c.body|);
    assert ReadU32(b, o) == Some(c.kind) && ReadU32(b, o + 4) == Some(8 + |c.body|);
  }

  lemma {:induction false} UuidsFound(before: seq<byte>, cs: seq<Command>, rest: seq<byte>)
    requires forall i | 0 <= i < |cs| :: Encodable(cs[i])
    ensures Uuids(before + (AllCommands(cs) + rest), |before|, |cs|) == Ok(UuidPlaces(cs, |before|))
    decreases |cs|
  {
    hide CommandSize, IsUuid, CommandBytes;
    if cs != [] {
      var first, tail := CommandBytes(cs[0]), AllCommands(cs[1..]);
      var b := before + (AllCommands(cs) + rest);
      assert b == before + (first + (tail + rest));
      assert b == (before + first) + (tail + rest);
      CommandRead(before, cs[0], tail + rest);
      UuidsFound(before + first, cs[1..], rest);
    }
  }

  /** The identifiers of a file are found in the bodies of its commands of kind 0x1b, after a header of
      32 bytes with the magic number and the number of commands. */
  lemma UuidsOfCommands(middle: seq<byte>, after: seq<byte>, cs: seq<Command>, rest: seq<byte>)
    requires |middle| == |after| == 12 && |cs| < 0x1_0000_0000
    requires forall i | 0 <= i < |cs| :: Encodable(cs[i])
    ensures var header := [0xcf, 0xfa, 0xed, 0xfe] + middle + LittleEndian(|cs|) + after;
      UuidsOf(header + (AllCommands(cs) + rest))
      == if UuidPlaces(cs, 32) == [] then Err(UuidMissing) else Ok(UuidPlaces(cs, 32))
  {
    hide LittleEndian, Uuids, AllCommands, UuidPlaces, ReadU32;
    var header := [0xcf, 0xfa, 0xed, 0xfe] + middle + LittleEndian(|cs|) + after;
    HeaderRead([0xcf, 0xfa, 0xed, 0xfe], middle, |cs|, after, AllCommands(cs) + rest);
    UuidsFound(header, cs, rest);
  }

  lemma HeaderRead(magic: seq<byte>, middle: seq<byte>, count: nat, after: seq<byte>, rest: seq<byte>)
    requires magic == [0xcf, 0xfa, 0xed, 0xfe] && |middle| == |after| == 12 && count < 0x1_0000_0000
    ensures var b := magic + middle + LittleEndian(count) + after + rest;
      |b| >= 32 && ReadU32(b, 0) == Some(MACH_HEADER_64) && ReadU32(b, 16) == Some(count)
  {
    hide Word, LittleEndian;
    var b := magic + middle + LittleEndian(count) + after + rest;
    WordRead(count);
    MagicRead();
    assert b[..4] == magic && b[16..20] == LittleEndian(count);
    assert b[16] == b[16..20][0] && b[17] == b[16..20][1] && b[18] == b[16..20][2] && b[19] == b[16..20][3];
  }

  lemma MagicRead()
    ensures Word(0xcf, 0xfa, 0xed, 0xfe) == MACH_HEADER_64
  {
  }

  // ---- writing them ----

  function WithUuid(b: seq<byte>, u: nat): (r: seq<byte>)
    requires u + UUID_OFFSET + |FIXED_UUID| <= |b|
    ensures |r| == |b|
    ensures forall p | 0 <= p < |b| ::
      r[p] == if u + UUID_OFFSET <= p < u + UUID_OFFSET + |FIXED_UUID| then FIXED_UUID[p - u - UUID_OFFSET] else b[p]
  {
    b[..u + UUID_OFFSET] + FIXED_UUID + b[u + UUID_OFFSET + |FIXED_UUID|..]
  }

  ghost predicate InBounds(us: seq<nat>, length: nat) {
    forall u | u in us :: u + UUID_OFFSET + |FIXED_UUID| <= length
  }

  lemma InBoundsInit(us: seq<nat>, length: nat)
    requires InBounds(us, length) && us != []
    ensures InBounds(us[..|us| - 1], length) && us[|us| - 1] + UUID_OFFSET + |FIXED_UUID| <= length
    ensures forall u | u in us[..|us| - 1] :: u in us
    ensures forall u | u in us :: u in us[..|us| - 1] || u == us[|us| - 1]
  {
    var init, last := us[..|us| - 1], us[|us| - 1];
    assert us == init + [last];
    assert last in us && forall u | u in init :: u in us;
  }

  ghost function Patched(b: seq<byte>, us: seq<nat>): (r: seq<byte>)
    requires InBounds(us, |b|)
    ensures |r| == |b|
    decreases |us|
  {
    if us == [] then b
    else
      InBoundsInit(us, |b|);
      WithUuid(Patched(b, us[..|us| - 1]), us[|us| - 1])
  }

  /** What the file should become: the file itself but for its identifiers, or an error. */
  ghost function Normalized(b: seq<byte>): Result<seq<byte>> {
    match UuidsOf(b)
    case Err(error) => Err(error)
    case Ok(us) => Ok(Patched(b, us))
  }

  lemma PayloadMore(some: seq<nat>, us: seq<nat>, p: nat)
    requires forall u | u in some :: u in us
    ensures InPayload(some, p) ==> InPayload(us, p)
  {
  }

  /** Where no identifier of the list is, nothing changes. */
  lemma {:induction false} PatchedOutside(b: seq<byte>, us: seq<nat>)
    requires InBounds(us, |b|)
    ensures SameOutside(us, b, Patched(b, us))
    decreases |us|
  {
    if us != [] {
      var init, last := us[..|us| - 1], us[|us| - 1];
      InBoundsInit(us, |b|);
      assert last in us;
      PatchedOutside(b, init);
      forall p | 0 <= p < |b| && !InPayload(us, p) ensures b[p] == Patched(b, us)[p] {
        PayloadMore(init, us, p);
      }
    }
  }

  /** Where one is, what was there before makes no difference. */
  lemma {:induction false} PatchedInside(a: seq<byte>, b: seq<byte>, us: seq<nat>, p: nat)
    requires |a| == |b| && InBounds(us, |b|)
    requires p < |a| && InPayload(us, p)
    ensures Patched(a, us)[p] == Patched(b, us)[p]
    decreases |us|
  {
    var init, last := us[..|us| - 1], us[|us| - 1];
    InBoundsInit(us, |b|);
    if !(last + UUID_OFFSET <= p < last + UUID_OFFSET + |FIXED_UUID|) {
      PatchedInside(a, b, init, p);
    }
  }

  lemma PatchedSame(a: seq<byte>, b: seq<byte>, us: seq<nat>)
    requires InBounds(us, |b|) && SameOutside(us, a, b)
    ensures Patched(a, us) == Patched(b, us)
  {
    hide Patched;
    PatchedOutside(a, us);
    PatchedOutside(b, us);
    forall p | 0 <= p < |a| && InPayload(us, p) ensures Patched(a, us)[p] == Patched(b, us)[p] {
      PatchedInside(a, b, us, p);
    }
  }

  /** Two files normalise to the same bytes exactly when they differ in identifiers only; in
      particular nothing but identifiers is lost. */
  lemma SameBuildIffSameOutside(a: seq<byte>, b: seq<byte>)
    requires UuidsOf(a).Ok?
    ensures Normalized(a) == Normalized(b) <==> SameOutside(UuidsOf(a).value, a, b)
  {
    hide Patched, UuidsOf;
    var us := UuidsOf(a).value;
    if SameOutside(us, a, b) {
      UuidsOfSame(a, b);
      InBoundsOf(a);
      PatchedSame(a, b, us);
    }
    if Normalized(a) == Normalized(b) {
      NormalizedIsFixed(a);
      NormalizedIsFixed(b);
    }
  }

  lemma InBoundsOf(b: seq<byte>)
    requires UuidsOf(b).Ok?
    ensures InBounds(UuidsOf(b).value, |b|)
  {
  }

  /** Normalising changes only identifiers, keeps finding them where they were, and once is enough. */
  lemma NormalizedIsFixed(b: seq<byte>)
    requires UuidsOf(b).Ok?
    ensures var r := Normalized(b).value;
      SameOutside(UuidsOf(b).value, b, r) && UuidsOf(r) == UuidsOf(b) && Normalized(r) == Ok(r)
  {
    hide Patched, UuidsOf;
    var us := UuidsOf(b).value;
    InBoundsOf(b);
    var r := Patched(b, us);
    PatchedOutside(b, us);
    UuidsOfSame(b, r);
    PatchedSame(b, r, us);
  }

  /** Commands do not overlap, so that each gets the whole fixed identifier. */
  lemma {:induction false} UuidsApart(b: seq<byte>, offset: nat, count: nat, i: nat, j: nat)
    requires Uuids(b, offset, count).Ok? && i < j < |Uuids(b, offset, count).value|
    ensures Uuids(b, offset, count).value[i] + UUID_OFFSET + |FIXED_UUID| <= Uuids(b, offset, count).value[j]
    decreases count
  {
    var next := offset + CommandSize(b, offset).value;
    var rest := Uuids(b, next, count - 1).value;
    if IsUuid(b, offset) {
      assert Uuids(b, offset, count).value[j] == rest[j - 1] && rest[j - 1] in rest;
      if i > 0 { UuidsApart(b, next, count - 1, i - 1, j - 1); }
    } else {
      assert Uuids(b, offset, count).value == rest;
      UuidsApart(b, next, count - 1, i, j);
    }
  }

  ghost predicate Apart(us: seq<nat>) {
    forall i, j | 0 <= i < j < |us| :: us[i] + UUID_OFFSET + |FIXED_UUID| <= us[j]
  }

  lemma {:induction false} PatchedFixed(b: seq<byte>, us: seq<nat>, i: nat)
    requires InBounds(us, |b|) && Apart(us) && i < |us|
    ensures us[i] in us
    ensures Patched(b, us)[us[i] + UUID_OFFSET..us[i] + UUID_OFFSET + |FIXED_UUID|] == FIXED_UUID
    decreases |us|
  {
    var init, last := us[..|us| - 1], us[|us| - 1];
    InBoundsInit(us, |b|);
    assert last in us;
    if i < |us| - 1 {
      PatchedFixed(b, init, i);
    }
  }

  function FixedText(s: string): seq<byte> {
    seq(|s|, i requires 0 <= i < |s| => if s[i] as int < 0x80 then s[i] as int else 0)
  }

  lemma FixedIsText()
    ensures FIXED_UUID == FixedText("VERGERAIL-GUARD1")
  {
  }

  lemma EveryUuidFixed(b: seq<byte>, u: nat)
    requires UuidsOf(b).Ok? && u in UuidsOf(b).value
    ensures u + 24 <= |b|
    ensures Normalized(b).value[u + 8..u + 24] == FixedText("VERGERAIL-GUARD1")
  {
    FixedIsText();
    hide Patched, Uuids;
    var us := UuidsOf(b).value;
    forall i, j | 0 <= i < j < |us| ensures us[i] + UUID_OFFSET + |FIXED_UUID| <= us[j] {
      UuidsApart(b, LOAD_COMMANDS_OFFSET, ReadU32(b, 16).value, i, j);
    }
    InBoundsOf(b);
    var i :| 0 <= i < |us| && us[i] == u;
    PatchedFixed(b, us, i);
  }

  // ---- the walk that does it ----

  class File {
    var content: seq<byte>

    constructor (content: seq<byte>)
      ensures this.content == content
    {
      this.content := content;
    }
  }

  lemma UuidsUnfold(b: seq<byte>, offset: nat, count: nat)
    ensures count == 0 ==> Uuids(b, offset, count) == Ok([])
    ensures count > 0 && CommandSize(b, offset).Err? ==>
      Uuids(b, offset, count) == Err(CommandSize(b, offset).error)
    ensures count > 0 && CommandSize(b, offset).Ok? ==>
      Uuids(b, offset, count)
        == Prepend(if IsUuid(b, offset) then [offset] else [],
                   Uuids(b, offset + CommandSize(b, offset).value, count - 1))
  {
  }

  lemma PrependEnd(done: seq<nat>, error: Error)
    ensures Prepend(done, Ok([])) == Ok(done) && Prepend(done, Err(error)) == Err(error)
  {
    assert done + [] == done;
  }

  lemma PrependTwice(a: seq<nat>, b: seq<nat>, rest: Result<seq<nat>>)
    ensures Prepend(a, Prepend(b, rest)) == Prepend(a + b, rest) && Prepend([], rest) == rest
  {
    match rest
    case Err(_) =>
    case Ok(us) =>
      assert a + (b + us) == a + b + us && [] + us == us;
  }

  lemma PatchedOneMore(b: seq<byte>, us: seq<nat>, u: nat)
    requires InBounds(us, |b|) && u + UUID_OFFSET + |FIXED_UUID| <= |b|
    ensures InBounds(us + [u], |b|) && Patched(b, us + [u]) == WithUuid(Patched(b, us), u)
  {
    assert (us + [u])[..|us|] == us;
  }

  /** The bytes ahead say the same about the command at an offset. */
  lemma ReadAhead(a: seq<byte>, b: seq<byte>, offset: nat)
    requires |a| == |b| && offset <= |a| && a[offset..] == b[offset..]
    ensures ReadU32(a, offset) == ReadU32(b, offset) && ReadU32(a, offset + 4) == ReadU32(b, offset + 4)
  {
    hide Word;
    forall p | offset <= p < |a| ensures a[p] == b[p] {
      assert a[p] == a[offset..][p - offset] && b[p] == b[offset..][p - offset];
    }
  }

  lemma DropMore(a: seq<byte>, b: seq<byte>, offset: nat, later: nat)
    requires |a| == |b| && offset <= later <= |a| && a[offset..] == b[offset..]
    ensures a[later..] == b[later..]
  {
    assert a[later..] == a[offset..][later - offset..];
    assert b[later..] == b[offset..][later - offset..];
  }

  lemma WithUuidTail(b: seq<byte>, u: nat, later: nat)
    requires u + UUID_OFFSET + |FIXED_UUID| <= later <= |b|
    ensures WithUuid(b, u)[later..] == b[later..]
  {
  }

  method CopyUuid(bytes: array<byte>, u: nat)
    requires u + UUID_OFFSET + |FIXED_UUID| <= bytes.Length
    modifies bytes
    ensures bytes[..] == WithUuid(old(bytes[..]), u)
  {
    var start := u + UUID_OFFSET;
    for k := 0 to |FIXED_UUID|
      invariant forall p | 0 <= p < bytes.Length ::
        bytes[p] == if start <= p < start + k then FIXED_UUID[p - start] else old(bytes[p])
    {
      bytes[start + k] := FIXED_UUID[k];
    }
  }

  /** Overwrite the identifiers while walking the commands, and write the file only if all went well. */
  method NormalizeMachoUuid(file: File) returns (outcome: Result<()>)
    modifies file
    ensures match Normalized(old(file.content))
      case Ok(normal) => outcome == Ok(()) && file.content == normal
      case Err(error) => outcome == Err(error) && file.content == old(file.content)
  {
    hide CommandSize, Patched, Uuids;
    var source := file.content;
    if |source| < LOAD_COMMANDS_OFFSET { return Err(HeaderTruncated); }
    if ReadU32(source, 0) != Some(MACH_HEADER_64) { return Err(NotMachO); }
    var bytes := new byte[|source|](i requires 0 <= i < |source| => source[i]);
    outcome := NormalizeCommands(bytes, ReadU32(source, 16).value, source);
    if outcome.Ok? { file.content := bytes[..]; }
  }

  method NormalizeCommands(bytes: array<byte>, count: nat, ghost source: seq<byte>) returns (outcome: Result<()>)
    requires bytes[..] == source && |source| >= LOAD_COMMANDS_OFFSET
    modifies bytes
    ensures match Uuids(source, LOAD_COMMANDS_OFFSET, count)
      case Err(error) => outcome == Err(error)
      case Ok(us) =>
        if us == [] then outcome == Err(UuidMissing) else outcome == Ok(()) && bytes[..] == Patched(source, us)
  {
    hide Word, Patched, Uuids, WithUuid, Prepend;
    var offset: nat := LOAD_COMMANDS_OFFSET;
    var found := false;
    ghost var done: seq<nat> := [];
    ghost var whole := Uuids(source, offset, count);
    PrependTwice([], [], whole);
    PatchedNone(source);
    var i := 0;
    while i < count
      invariant i <= count && offset <= bytes.Length == |source|
      invariant whole == Prepend(done, Uuids(source, offset, count - i))
      invariant InBounds(done, |source|) && bytes[..] == Patched(source, done)
      invariant bytes[..][offset..] == source[offset..]
      invariant found <==> done != []
    {
      UuidsUnfold(source, offset, count - i);
      if CommandSize(source, offset).Err? { PrependEnd(done, CommandSize(source, offset).error); }
      ReadAhead(bytes[..], source, offset);
      ghost var before := bytes[..];
      var command := ReadU32(bytes[..], offset);
      if command.None? { return Err(CommandTruncated); }
      var size := ReadU32(bytes[..], offset + 4);
      if size.None? { return Err(SizeMissing); }
      if size.value < LOAD_COMMAND_HEADER_BYTES || offset + size.value > bytes.Length { return Err(SizeInvalid); }
      if command.value == LC_UUID {
        if size.value < UUID_OFFSET + |FIXED_UUID| { return Err(UuidTruncated); }
        WithUuidTail(bytes[..], offset, offset + size.value);
        CopyUuid(bytes, offset);
        found := true;
        PatchedOneMore(source, done, offset);
        PrependTwice(done, [offset], Uuids(source, offset + size.value, count - i - 1));
        done := done + [offset];
      } else {
        PrependTwice(done, [], Uuids(source, offset + size.value, count - i - 1));
        assert done + [] == done;
      }
      DropMore(before, source, offset, offset + size.value);
      offset, i := offset + size.value, i + 1;
    }
    UuidsUnfold(source, offset, 0);
    PrependEnd(done, UuidMissing);
    if !found { return Err(UuidMissing); }
    outcome := Ok(());
  }

  lemma PatchedNone(b: seq<byte>)
    ensures Patched(b, []) == b
  {
  }
}
