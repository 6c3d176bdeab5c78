/** What the diagnostic buffer keeps over whole runs, with takes in one piece and in two. */
module DiagnosticRuns {
  import opened Bytes
  import opened Diagnostics

  // ---- every interleaving, the two critical sections of a take apart ----

  datatype Step = Push(d: Diagnostic) | Drain | Zero

  function After(s: State, step: Step): State {
    match step
    case Push(d) => Pushed(s, d)
    case Drain => s.(items := [])
    case Zero => s.(bytes := 0)
  }

  function Run(steps: seq<Step>): State {
    if steps == [] then EMPTY else After(Run(steps[..|steps| - 1]), steps[|steps| - 1])
  }

  ghost predicate Small(items: seq<Diagnostic>) {
    forall d | d in items :: Size(d) <= ITEM_BYTES
  }

  lemma {:induction false} SumBound(items: seq<Diagnostic>)
    requires Small(items)
    ensures Sum(items) <= |items| * ITEM_BYTES
    decreases |items|
  {
    if items != [] { SumBound(items[1..]); }
  }

  lemma ClearedSmall(s: State, size: nat)
    requires Small(s.items)
    ensures Small(Cleared(s, size).items) && |Cleared(s, size).items| < CAPACITY
  {
    hide Marker, Sum, SatAdd, SatSub;
  }

  /** However pushes and the halves of takes interleave, at most 128 diagnostics of at most
      1 MiB are held, although the count of bytes can drift. */
  lemma {:induction false} AlwaysBounded(steps: seq<Step>)
    ensures var items := Run(steps).items;
      |items| <= 128 && Sum(items) <= 1024 * 1024 && forall d | d in items :: Size(d) <= 8 * 1024
    decreases |steps|
  {
    hide Sum, Cleared;
    if steps == [] {
      SumBound([]);
    } else {
      var s, last := Run(steps[..|steps| - 1]), steps[|steps| - 1];
      AlwaysBounded(steps[..|steps| - 1]);
      if last.Push? { ClearedSmall(s, Size(Bound(last.d))); }
      SumBound(Run(steps).items);
    }
  }

  // ---- takes in one piece ----

  function Ordinary(items: seq<Diagnostic>): (o: seq<Diagnostic>)
    ensures |o| <= |items|
  {
    if items == [] then []
    else (if IsMarker(items[0]) then [] else [items[0]]) + Ordinary(items[1..])
  }

  lemma {:induction false} OrdinarySplit(a: seq<Diagnostic>, b: seq<Diagnostic>)
    ensures Ordinary(a + b) == Ordinary(a) + Ordinary(b)
    decreases |a|
  {
    hide Marker, IsMarker;
    if a == [] {
      assert a + b == b;
    } else {
      assert (a + b)[1..] == a[1..] + b;
      OrdinarySplit(a[1..], b);
    }
  }

  lemma OrdinaryOne(d: Diagnostic)
    ensures Ordinary([d]) == if IsMarker(d) then [] else [d]
  {
    assert [d][1..] == [];
  }

  lemma {:induction false} MarkerCount(items: seq<Diagnostic>)
    ensures HasMarker(items) <==> |Ordinary(items)| < |items|
    decreases |items|
  {
    hide Marker, IsMarker;
    if items != [] {
      MarkerCount(items[1..]);
      assert HasMarker(items) <==> IsMarker(items[0]) || HasMarker(items[1..]) by {
        assert forall i | 0 <= i < |items| - 1 :: items[i + 1] == items[1..][i];
        assert forall i | 1 <= i < |items| :: items[i] == items[1..][i - 1];
      }
    }
  }

  /** The count is right, the limits hold, and there is at most one marker. */
  ghost predicate Exact(s: State) {
    && s.bytes == Sum(s.items) <= TOTAL_BYTES
    && |s.items| <= CAPACITY && Small(s.items)
    && |s.items| - |Ordinary(s.items)| <= 1
    && forall d | d in s.items && IsMarker(d) :: d == Marker()
  }

  lemma WithoutExact(s: State, n: nat)
    requires Exact(s) && n <= |s.items|
    ensures Exact(Without(s, n))
    ensures Ordinary(s.items) == Ordinary(s.items[..n]) + Ordinary(s.items[n..])
    ensures n - 1 <= |Ordinary(s.items[..n])| <= n
    ensures Without(s, n).bytes == s.bytes - Sum(s.items[..n])
  {
    hide Size, Marker;
    assert s.items == s.items[..n] + s.items[n..];
    SumSplit(s.items[..n], s.items[n..]);
    OrdinarySplit(s.items[..n], s.items[n..]);
  }

  /** With a right count, making room throws out at least one ordinary diagnostic. */
  lemma FullDiscards(s: State, size: nat)
    requires Exact(s) && size <= ITEM_BYTES && Full(s, size)
    ensures |Ordinary(Without(s, Excess(s, size, 0)).items)| < |Ordinary(s.items)|
  {
    hide Sum, Marker, Ordinary, Size, IsMarker, HasMarker;
    var n := Excess(s, size, 0);
    WithoutExact(s, n);
    NothingHeld();
    WithoutNone(s);
    if n == 1 && Ordinary(s.items[..1]) == [] { MarkerFirst(s, size); }
  }

  lemma NothingHeld()
    ensures Sum([]) == 0 && Ordinary([]) == [] && !HasMarker([])
  {
  }

  lemma MarkerFirst(s: State, size: nat)
    requires Exact(s) && size <= ITEM_BYTES && Full(s, size)
    requires |s.items| >= 1 && Ordinary(s.items[..1]) == []
    ensures Tight(Without(s, 1), size) && |s.items| > 1
  {
    hide Sum, Marker, Ordinary, Size, IsMarker, HasMarker;
    var first, rest := s.items[0], s.items[1..];
    assert s.items[..1] == [first];
    OrdinaryOne(first);
    OneSum(first);
    WithoutExact(s, 1);
    MarkerCount(rest);
    NothingHeld();
  }

  lemma AddExact(s: State, d: Diagnostic)
    requires Exact(s) && |s.items| < CAPACITY && s.bytes + Size(d) <= TOTAL_BYTES && Size(d) <= ITEM_BYTES
    requires IsMarker(d) ==> d == Marker() && !HasMarker(s.items)
    ensures Exact(Add(s, d))
    ensures Ordinary(Add(s, d).items) == Ordinary(s.items) + if IsMarker(d) then [] else [d]
  {
    hide Sum, Marker, Ordinary, Size, IsMarker, HasMarker;
    OrdinaryOne(d);
    OneSum(d);
    SumSplit(s.items, [d]);
    OrdinarySplit(s.items, [d]);
    MarkerCount(s.items);
  }

  lemma MarkedExact(u: State, size: nat)
    requires Exact(u) && size <= ITEM_BYTES && !Tight(u, size)
    ensures var t := WithMarker(u);
      Exact(t) && !Full(t, size) && Ordinary(t.items) == Ordinary(u.items) && |t.items| == |Ordinary(t.items)| + 1
  {
    hide Sum, Ordinary, Size, IsMarker, HasMarker, Add, Exact;
    MarkerCount(u.items);
    ExactParts(u);
    if !HasMarker(u.items) {
      MarkerIsOne();
      AddExact(u, Marker());
      AddParts(u, Marker());
    }
  }

  lemma MarkerIsOne()
    ensures IsMarker(Marker()) && Size(Marker()) == 106
  {
  }

  lemma AddParts(s: State, d: Diagnostic)
    ensures |Add(s, d).items| == |s.items| + 1 && Add(s, d).bytes == SatAdd(s.bytes, Size(d))
  {
  }

  lemma ExactParts(s: State)
    requires Exact(s)
    ensures s.bytes <= TOTAL_BYTES && |s.items| <= CAPACITY && |s.items| - |Ordinary(s.items)| <= 1
  {
  }

  lemma NotTight(s: State, size: nat)
    requires Exact(s) && size <= ITEM_BYTES
    ensures !Tight(Without(s, Excess(s, size, 0)), size)
  {
    hide Ordinary, Size, IsMarker, HasMarker, Sum;
    WithoutExact(s, Excess(s, size, 0));
    NothingHeld();
  }

  lemma ClearedFits(s: State, size: nat)
    ensures var t := if Full(s, size) then WithMarker(Without(s, Excess(s, size, 0))) else s;
      !Full(t, size) ==> Cleared(s, size) == t
  {
    hide Full, Excess, WithMarker, Sum;
    WithoutNone(if Full(s, size) then WithMarker(Without(s, Excess(s, size, 0))) else s);
  }

  /** With a right count, there is then room for the marker and the item, and the second loop
      has nothing to do. */
  lemma ClearedExact(s: State, size: nat)
    requires Exact(s) && size <= ITEM_BYTES
    ensures Full(s, size) ==> Cleared(s, size) == WithMarker(Without(s, Excess(s, size, 0)))
    ensures !Full(s, size) ==> Cleared(s, size) == s
    ensures Exact(Cleared(s, size)) && !Full(Cleared(s, size), size)
  {
    hide Tight, WithMarker, Cleared, Without, Full, Exact;
    ClearedFits(s, size);
    if Full(s, size) {
      var u := Without(s, Excess(s, size, 0));
      WithoutExact(s, Excess(s, size, 0));
      NotTight(s, size);
      MarkedExact(u, size);
    }
  }

  /** The buffer after these ordinary diagnostics since the last take: a right count, the newest
      of them, and one marker exactly when an older one is missing. */
  ghost predicate Kept(s: State, pushed: seq<Diagnostic>) {
    var o := Ordinary(s.items);
    && Exact(s)
    && |o| <= |pushed| && o == pushed[|pushed| - |o|..]
    && (HasMarker(s.items) <==> |o| < |pushed|)
  }

  lemma PushedKept(s: State, pushed: seq<Diagnostic>, d: Diagnostic)
    requires Kept(s, pushed) && !IsMarker(Bound(d))
    ensures Kept(Pushed(s, d), pushed + [Bound(d)])
  {
    hide Tight, WithMarker, Cleared, Full, Exact, Ordinary, HasMarker, IsMarker, Bound, Without;
    var b := Bound(d);
    var size := Size(b);
    var t := Cleared(s, size);
    var o := Ordinary(t.items);
    ClearedExact(s, size);
    if Full(s, size) {
      var n := Excess(s, size, 0);
      FullDiscards(s, size);
      WithoutExact(s, n);
      WithoutItems(s, n);
      NotTight(s, size);
      MarkedExact(Without(s, n), size);
    }
    NotFull(t, size);
    AddExact(t, b);
    MarkerCount(t.items);
    MarkerCount(Add(t, b).items);
  }

  lemma WithoutItems(s: State, n: nat)
    requires n <= |s.items|
    ensures Without(s, n).items == s.items[n..]
  {
  }

  lemma NotFull(s: State, size: nat)
    requires Exact(s) && size <= ITEM_BYTES && !Full(s, size)
    ensures |s.items| < CAPACITY && s.bytes + size <= TOTAL_BYTES
  {
    hide Ordinary, Sum, Marker, IsMarker;
  }

  datatype Action = Post(d: Diagnostic) | Take

  /** A run in which nothing comes between the halves of a take. */
  function RunWhole(actions: seq<Action>): State {
    if actions == [] then EMPTY
    else
      var s := RunWhole(actions[..|actions| - 1]);
      match actions[|actions| - 1]
      case Post(d) => After(s, Push(d))
      case Take => After(After(s, Drain), Zero)
  }

  /** The diagnostics since the last take, each cut to its limit. */
  function SinceTake(actions: seq<Action>): seq<Diagnostic> {
    if actions == [] then []
    else match actions[|actions| - 1]
      case Post(d) => SinceTake(actions[..|actions| - 1]) + [Bound(d)]
      case Take => []
  }

  lemma EmptyKept()
    ensures Kept(EMPTY, [])
  {
    MarkerCount([]);
  }

  /** The buffer after any run of pushes, none with the marker's name, and whole takes. */
  lemma {:induction false} WholeRunKept(actions: seq<Action>)
    requires forall a | a in actions && a.Post? :: Textual(a.d.name) && !IsMarker(a.d)
    ensures Kept(RunWhole(actions), SinceTake(actions))
    decreases |actions|
  {
    hide Kept, Pushed, IsMarker, Textual, Bound;
    EmptyKept();
    if actions != [] {
      var before, last := actions[..|actions| - 1], actions[|actions| - 1];
      WholeRunKept(before);
      if last.Post? {
        BoundKeeps(last.d);
        PushedKept(RunWhole(before), SinceTake(before), last.d);
      }
    }
  }

  // ---- when a take in two pieces costs the marker ----

  lemma MarkerWeighs(items: seq<Diagnostic>)
    requires HasMarker(items) && forall d | d in items && IsMarker(d) :: d == Marker()
    ensures Sum(items) >= Size(Marker())
    decreases |items|
  {
    hide Marker;
    if !IsMarker(items[0]) { MarkerWeighs(items[1..]); }
  }

  /** A push that finds the buffer full leaves a marker exactly when the count of bytes exceeds
      what is held by no more than leaves room for the marker and the item. */
  lemma FullMarksIff(s: State, d: Diagnostic)
    requires Small(s.items) && (forall i | i in s.items && IsMarker(i) :: i == Marker())
    requires !IsMarker(Bound(d)) && Full(s, Size(Bound(d)))
    ensures HasMarker(Pushed(s, d).items) <==>
      SatSub(s.bytes, Sum(s.items)) + Size(Marker()) + Size(Bound(d)) <= TOTAL_BYTES
  {
    hide Marker, Bound, HasMarker, Sum, Full, IsMarker;
    var b := Bound(d);
    var size := Size(b);
    var n := Excess(s, size, 0);
    var u := Without(s, n);
    var t := WithMarker(u);
    assert s.items == s.items[..n] + s.items[n..];
    SumSplit(s.items[..n], s.items[n..]);
    MarkerIsOne();
    MarkedLast(Cleared(s, size).items, b);
    if !Tight(u, size) {
      WithMarkerHas(u);
      if HasMarker(u.items) { MarkerWeighs(u.items); }
      IsFull(t, size);
      WithoutNone(t);
    } else {
      NothingHeld();
      IsFull(t, size);
      OneSum(Marker());
      WithoutNone(t);
      assert t.items == [Marker()];
      assert Without(t, 1).items == [];
    }
  }

  lemma WithMarkerHas(u: State)
    ensures |u.items| < CAPACITY ==> HasMarker(WithMarker(u).items)
  {
    MarkerIsOne();
    if !HasMarker(u.items) && |u.items| < CAPACITY {
      assert WithMarker(u).items[|u.items|] == Marker();
    }
  }

  lemma MarkedLast(items: seq<Diagnostic>, d: Diagnostic)
    requires !IsMarker(d)
    ensures HasMarker(items + [d]) <==> HasMarker(items)
  {
    hide Marker, IsMarker;
    assert forall i | 0 <= i < |items| :: (items + [d])[i] == items[i];
  }

  function Big(): Diagnostic { Diagnostic([], seq(ITEM_BYTES, _ => 0x61)) }

  lemma BigItem()
    ensures Size(Big()) == ITEM_BYTES && Bound(Big()) == Big() && !IsMarker(Big())
  {
    hide Marker;
    BoundKeeps(Big());
  }

  function Times<T>(n: nat, x: T): (s: seq<T>)
    ensures |s| == n
  {
    if n == 0 then [] else Times(n - 1, x) + [x]
  }

  lemma RunMore(steps: seq<Step>, step: Step)
    ensures Run(steps + [step]) == After(Run(steps), step)
  {
    assert (steps + [step])[..|steps|] == steps;
  }

  lemma {:induction false} Filled(n: nat)
    requires n <= CAPACITY
    ensures Run(Times(n, Push(Big()))) == State(Times(n, Big()), n * ITEM_BYTES)
  {
    hide Big, Run, Pushed, Times;
    TimesMore(n, Push(Big()));
    TimesMore(n, Big());
    if n == 0 {
      RunNone();
    } else {
      Filled(n - 1);
      RunMore(Times(n - 1, Push(Big())), Push(Big()));
      BigFits(State(Times(n - 1, Big()), (n - 1) * ITEM_BYTES));
    }
  }

  lemma TimesMore<T>(n: nat, x: T)
    ensures Times(n, x) == if n == 0 then [] else Times(n - 1, x) + [x]
  {
  }

  lemma BigFits(s: State)
    requires |s.items| < CAPACITY && s.bytes + ITEM_BYTES <= TOTAL_BYTES
    ensures Pushed(s, Big()) == State(s.items + [Big()], s.bytes + ITEM_BYTES)
  {
    hide Bound, Big, Size, Cleared;
    BigItem();
    IsFull(s, ITEM_BYTES);
    ClearedFits(s, ITEM_BYTES);
  }

  /** A count that stands at the limit for nothing costs everything held and the marker. */
  lemma StalePush(s: State, d: Diagnostic)
    requires s.bytes == Sum(s.items) + TOTAL_BYTES && Size(Bound(d)) > 0
    ensures Pushed(s, d) == State([Bound(d)], TOTAL_BYTES + Size(Bound(d)))
  {
    hide Marker, Bound, HasMarker, Sum, Size;
    var size := Size(Bound(d));
    var n := Excess(s, size, 0);
    var u := Without(s, n);
    assert s.items == s.items[..n] + s.items[n..];
    SumSplit(s.items[..n], s.items[n..]);
    NothingHeld();
    assert s.items[..|s.items|] == s.items;
    assert u == State([], TOTAL_BYTES);
    MarkerIsOne();
    OneSum(Marker());
    var t := WithMarker(u);
    assert t.items == [Marker()];
    WithoutNone(t);
    assert Without(t, 1) == State([], TOTAL_BYTES) by { assert t.items[..1] == [Marker()]; }
  }

  /** With a take in two pieces, a diagnostic can be lost without a marker: the buffer is filled,
      and two are pushed after it was emptied and before its count is reset. */
  lemma LostUnmarked(a: Diagnostic, b: Diagnostic)
    requires Size(Bound(a)) > 0 && Size(Bound(b)) > 0
    ensures Run(Times(CAPACITY, Push(Big())) + [Drain] + [Push(a)] + [Push(b)]).items == [Bound(b)]
  {
    hide Bound, Size, Pushed, Run, Sum;
    var fill := Times(CAPACITY, Push(Big()));
    Filled(CAPACITY);
    RunMore(fill, Drain);
    RunMore(fill + [Drain], Push(a));
    RunMore(fill + [Drain] + [Push(a)], Push(b));
    NothingHeld();
    OneSum(Bound(a));
    StalePush(State([], TOTAL_BYTES), a);
    StalePush(State([Bound(a)], TOTAL_BYTES + Size(Bound(a))), b);
  }

  /** And once the count has been reset under a diagnostic it is wrong. */
  lemma CountDrifts(a: Diagnostic)
    ensures Run([Drain] + [Push(a)] + [Zero]) == State([Bound(a)], 0)
  {
    hide Bound, Size, Run;
    assert Run([]) == EMPTY by { RunNone(); }
    RunMore([], Drain);
    assert [] + [Drain] == [Drain];
    RunMore([Drain], Push(a));
    RunMore([Drain] + [Push(a)], Zero);
    IsFull(EMPTY, Size(Bound(a)));
    ClearedFits(EMPTY, Size(Bound(a)));
  }

  lemma RunNone()
    ensures Run([]) == EMPTY
  {
  }
}
