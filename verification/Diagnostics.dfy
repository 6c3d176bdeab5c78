/** The bounded buffer of diagnostics that belong to no run. */
module Diagnostics {
  import opened Bytes
  import Utf8

  const CAPACITY: nat := 128
  const ITEM_BYTES: nat := 8 * 1024
  const TOTAL_BYTES: nat := 1024 * 1024
  const USIZE_MAX: nat := 0xffff_ffff_ffff_ffff

  function SatAdd(a: nat, b: nat): nat {
    if a + b > USIZE_MAX then USIZE_MAX else a + b
  }

  function SatSub(a: nat, b: nat): nat {
    if a < b then 0 else a - b
  }

  datatype Diagnostic = Diagnostic(name: seq<byte>, text: seq<byte>)

  /** Sizes are taken of bounded diagnostics only, where the sum cannot saturate. */
  function Size(d: Diagnostic): nat { |d.name| + |d.text| }

  function AsciiByte(c: char): byte {
    if c as int < 0x80 then c as int else 0x3f
  }

  function Ascii(s: string): (b: seq<byte>)
    ensures |b| == |s|
  {
    seq(|s|, i requires 0 <= i < |s| => AsciiByte(s[i]))
  }

  /** What stands for everything that was discarded. */
  function Marker(): (d: Diagnostic)
    ensures |d.name| == 29 && Size(d) == 106
  {
    Diagnostic(Ascii("vergerail/diagnosticsOverflow"),
      Ascii("older diagnostics were discarded after reaching a bounded count or byte limit"))
  }

  predicate IsMarker(d: Diagnostic) { d.name == Marker().name }

  predicate HasMarker(items: seq<Diagnostic>) {
    exists i | 0 <= i < |items| :: IsMarker(items[i])
  }

  // ---- a diagnostic cut to its limit ----

  function LastBoundary(s: seq<byte>, i: nat): (j: nat)
    requires i <= |s|
    ensures j <= i && CharBoundary(s, j)
    ensures forall k | j < k <= i :: !CharBoundary(s, k)
  {
    if CharBoundary(s, i) then i else LastBoundary(s, i - 1)
  }

  /** The longest start of at most so many bytes that ends with a character. */
  function Head(s: seq<byte>, max: nat): (h: seq<byte>)
    ensures |h| <= max
  {
    s[..LastBoundary(s, if |s| < max then |s| else max)]
  }

  lemma HeadLongest(s: seq<byte>, max: nat, end: nat)
    requires end <= |s| && CharBoundary(s, end) && end <= max
    ensures |Head(s, max)| >= end && Head(s, max) <= s
  {
  }

  function Bound(d: Diagnostic): (b: Diagnostic)
    ensures Size(b) <= ITEM_BYTES
  {
    var name := Head(d.name, ITEM_BYTES);
    Diagnostic(name, Head(d.text, ITEM_BYTES - |name|))
  }

  /** UTF-8 text has a character boundary among any four places in a row. */
  ghost predicate Textual(s: seq<byte>) {
    forall i: nat | i + 4 <= |s| :: BoundaryNear(s, i)
  }

  ghost predicate BoundaryNear(s: seq<byte>, i: nat)
    requires i + 4 <= |s|
  {
    exists k | i <= k < i + 4 :: CharBoundary(s, k)
  }

  lemma {:induction false} EncodedIsTextual(s: string)
    ensures Textual(Utf8.Encode(s))
  {
    if s != "" {
      var first, rest := Utf8.EncodeChar(s[0]), Utf8.Encode(s[1..]);
      EncodedIsTextual(s[1..]);
      var whole := first + rest;
      forall i: nat | i + 4 <= |whole| ensures BoundaryNear(whole, i) {
        NearAfter(first, rest, i);
      }
    }
  }

  lemma NearAfter(first: seq<byte>, rest: seq<byte>, i: nat)
    requires 1 <= |first| <= 4 && Textual(rest) && CharBoundary(rest, 0) && i + 4 <= |first + rest|
    requires rest != [] ==> !(0x80 <= rest[0] < 0xc0)
    ensures BoundaryNear(first + rest, i)
  {
    var whole := first + rest;
    if i == 0 {
      assert CharBoundary(whole, 0);
    } else if i <= |first| {
      assert CharBoundary(whole, |first|);
    } else {
      assert BoundaryNear(rest, i - |first|);
      var k :| i - |first| <= k < i - |first| + 4 && CharBoundary(rest, k);
      assert CharBoundary(whole, k + |first|);
    }
  }

  /** Cutting neither makes nor unmakes a marker, and what is within the limit is kept. */
  lemma BoundKeeps(d: Diagnostic)
    ensures Textual(d.name) ==> (IsMarker(Bound(d)) <==> IsMarker(d))
    ensures Size(d) <= ITEM_BYTES ==> Bound(d) == d
  {
    hide Marker, CharBoundary;
    if Textual(d.name) && |d.name| > ITEM_BYTES {
      assert BoundaryNear(d.name, ITEM_BYTES - 3);
      var k :| ITEM_BYTES - 3 <= k < ITEM_BYTES + 1 && CharBoundary(d.name, k);
      HeadLongest(d.name, ITEM_BYTES, k);
    }
    Whole(d.name, ITEM_BYTES);
    Whole(d.text, ITEM_BYTES - |Head(d.name, ITEM_BYTES)|);
  }

  lemma Whole(s: seq<byte>, max: nat)
    ensures |s| <= max ==> Head(s, max) == s
  {
  }

  method TruncateToBoundary(s: seq<byte>, max: nat) returns (h: seq<byte>)
    ensures h == Head(s, max)
  {
    var limit := if |s| < max then |s| else max;
    while limit > 0 && !CharBoundary(s, limit)
      invariant 0 <= limit <= |s|
      invariant LastBoundary(s, limit) == LastBoundary(s, if |s| < max then |s| else max)
    {
      limit := limit - 1;
    }
    h := s[..limit];
  }

  method BoundDiagnostic(d: Diagnostic) returns (b: Diagnostic)
    ensures b == Bound(d)
  {
    var name := TruncateToBoundary(d.name, ITEM_BYTES);
    var limit := SatSub(ITEM_BYTES, |name|);
    var text := d.text;
    if |text| > limit { text := TruncateToBoundary(text, limit); }
    b := Diagnostic(name, text);
  }

  // ---- the buffer as a value ----

  /** What is held, and the count of its bytes, which a second lock protects. */
  datatype State = State(items: seq<Diagnostic>, bytes: nat)

  const EMPTY := State([], 0)

  function Sum(items: seq<Diagnostic>): nat {
    if items == [] then 0 else Size(items[0]) + Sum(items[1..])
  }

  predicate Full(s: State, size: nat) {
    |s.items| >= CAPACITY || SatAdd(s.bytes, size) > TOTAL_BYTES
  }

  predicate Tight(s: State, size: nat) {
    || |s.items| >= CAPACITY - 1
    || SatAdd(SatAdd(s.bytes, size), if HasMarker(s.items) then 0 else Size(Marker())) > TOTAL_BYTES
  }

  function Add(s: State, d: Diagnostic): State {
    State(s.items + [d], SatAdd(s.bytes, Size(d)))
  }

  /** The buffer without its oldest diagnostics. */
  function Without(s: State, n: nat): State
    requires n <= |s.items|
  {
    State(s.items[n..], SatSub(s.bytes, Sum(s.items[..n])))
  }

  /** What counts as full, and as leaving no room for a marker besides, while the count is right. */
  lemma RoomMeans(s: State, size: nat)
    requires s.bytes == Sum(s.items) && s.bytes + size + 106 <= 0xffff_ffff_ffff_ffff
    ensures Full(s, size) <==> |s.items| >= 128 || Sum(s.items) + size > 1024 * 1024
    ensures Tight(s, size) <==>
      |s.items| >= 127 || Sum(s.items) + size + (if HasMarker(s.items) then 0 else 106) > 1024 * 1024
  {
    hide Marker, Sum;
  }

  /** How many of the oldest have to go, at least so many, before there is room for one more
      and a marker. */
  function Excess(s: State, size: nat, from: nat): (n: nat)
    requires from <= |s.items|
    ensures from <= n <= |s.items|
    ensures forall k | from <= k < n :: Tight(Without(s, k), size)
    ensures n < |s.items| ==> !Tight(Without(s, n), size)
    decreases |s.items| - from
  {
    if from < |s.items| && Tight(Without(s, from), size) then Excess(s, size, from + 1) else from
  }

  /** How many have to go before there is room for one more. */
  function Surplus(s: State, size: nat, from: nat): (n: nat)
    requires from <= |s.items|
    ensures from <= n <= |s.items|
    ensures forall k | from <= k < n :: Full(Without(s, k), size)
    ensures n < |s.items| ==> !Full(Without(s, n), size)
    decreases |s.items| - from
  {
    if from < |s.items| && Full(Without(s, from), size) then Surplus(s, size, from + 1) else from
  }

  function WithMarker(s: State): State {
    if !HasMarker(s.items) && |s.items| < CAPACITY then Add(s, Marker()) else s
  }

  /** The buffer ready for an item of a size. */
  function Cleared(s: State, size: nat): State {
    var marked := if Full(s, size) then WithMarker(Without(s, Excess(s, size, 0))) else s;
    Without(marked, Surplus(marked, size, 0))
  }

  function Pushed(s: State, d: Diagnostic): State {
    Add(Cleared(s, Size(Bound(d))), Bound(d))
  }

  // ---- the buffer as an object ----

  lemma {:induction false} SumSplit(a: seq<Diagnostic>, b: seq<Diagnostic>)
    ensures Sum(a + b) == Sum(a) + Sum(b)
    decreases |a|
  {
    if a == [] {
      assert a + b == b;
    } else {
      assert (a + b)[1..] == a[1..] + b;
      SumSplit(a[1..], b);
    }
  }

  lemma OneSum(d: Diagnostic)
    ensures Sum([d]) == Size(d) && Sum([]) == 0
  {
    assert [d][1..] == [];
  }

  lemma WithoutMore(s: State, n: nat)
    requires n < |s.items|
    ensures Without(s, 0) == s
    ensures Without(s, n).items[0] == s.items[n]
    ensures Without(s, n + 1) == State(Without(s, n).items[1..], SatSub(Without(s, n).bytes, Size(s.items[n])))
  {
    hide Size;
    OneSum(s.items[n]);
    SumSplit(s.items[..n], [s.items[n]]);
    assert s.items[..n + 1] == s.items[..n] + [s.items[n]];
  }

  lemma WithoutNone(s: State)
    ensures Without(s, 0) == s
  {
  }

  class DiagnosticBuffer {
    var items: seq<Diagnostic>
    var bytes: nat

    constructor ()
      ensures Value() == EMPTY
    {
      items, bytes := [], 0;
    }

    ghost function Value(): State
      reads this
    {
      State(items, bytes)
    }

    method Push(diagnostic: Diagnostic)
      modifies this
      ensures Value() == Pushed(old(Value()), diagnostic)
    {
      hide Bound, Tight, Full, Sum, Marker, IsMarker;
      var d := BoundDiagnostic(diagnostic);
      var size := Size(d);
      var full := |items| >= CAPACITY || SatAdd(bytes, size) > TOTAL_BYTES;
      assert full <==> Full(Value(), size) by { IsFull(Value(), size); }
      WithoutNone(Value());
      if full {
        MakeRoom(size);
        var marked := HasOverflow();
        if !marked && |items| < CAPACITY {
          bytes := SatAdd(bytes, Size(Marker()));
          items := items + [Marker()];
        }
      }
      Trim(size);
      bytes := SatAdd(bytes, size);
      items := items + [d];
    }

    method HasOverflow() returns (found: bool)
      ensures found <==> HasMarker(items)
    {
      for i := 0 to |items|
        invariant forall k | 0 <= k < i :: !IsMarker(items[k])
      {
        if IsMarker(items[i]) { return true; }
      }
      found := false;
    }

    /** Discard the oldest until there is room for one more and a marker. */
    method MakeRoom(size: nat)
      modifies this
      ensures Value() == Without(old(Value()), Excess(old(Value()), size, 0))
    {
      hide Sum, Marker, Size;
      ghost var start := Value();
      ghost var n: nat := 0;
      WithoutNone(start);
      while items != []
        invariant n <= |start.items| && Value() == Without(start, n)
        invariant Excess(start, size, n) == Excess(start, size, 0)
        decreases |items|
      {
        var marked := HasOverflow();
        if !(|items| >= CAPACITY - 1
          || SatAdd(SatAdd(bytes, size), if marked then 0 else Size(Marker())) > TOTAL_BYTES)
        {
          return;
        }
        WithoutMore(start, n);
        n := n + 1;
        DropFirst();
      }
    }

    /** Discard the oldest until there is room for one more. */
    method Trim(size: nat)
      modifies this
      ensures Value() == Without(old(Value()), Surplus(old(Value()), size, 0))
    {
      hide Sum, Size;
      ghost var start := Value();
      ghost var n: nat := 0;
      WithoutNone(start);
      while (|items| >= CAPACITY || SatAdd(bytes, size) > TOTAL_BYTES) && items != []
        invariant n <= |start.items| && Value() == Without(start, n)
        invariant Surplus(start, size, n) == Surplus(start, size, 0)
        decreases |items|
      {
        WithoutMore(start, n);
        n := n + 1;
        DropFirst();
      }
    }

    method DropFirst()
      requires items != []
      modifies this
      ensures Value() == State(old(items)[1..], SatSub(old(bytes), Size(old(items)[0])))
    {
      var removed := items[0];
      items := items[1..];
      bytes := SatSub(bytes, Size(removed));
    }

    /** The first critical section of a take. */
    method Drain() returns (taken: seq<Diagnostic>)
      modifies this`items
      ensures taken == old(items) && items == []
    {
      taken := items;
      items := [];
    }

    /** The second. */
    method Zero()
      modifies this`bytes
      ensures bytes == 0
    {
      bytes := 0;
    }

    method Take() returns (taken: seq<Diagnostic>)
      modifies this
      ensures taken == old(items) && Value() == EMPTY
    {
      taken := Drain();
      Zero();
    }
  }

  lemma IsFull(s: State, size: nat)
    ensures Full(s, size) <==> |s.items| >= CAPACITY || SatAdd(s.bytes, size) > TOTAL_BYTES
  {
  }
}
