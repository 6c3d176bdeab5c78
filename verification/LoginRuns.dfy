/** What the login registry keeps over every run, with the results sent outside its lock. */
module LoginRuns {
  import opened Json
  import opened Logins

  // ---- the cache of early results ----

  ghost predicate Distinct(order: seq<string>) {
    forall i, j | 0 <= i < j < |order| :: order[i] != order[j]
  }

  /** The order queue lists the cached logins, each once, none of them registered. */
  ghost predicate EarlyValid(r: Registry) {
    && Distinct(r.order)
    && (forall login :: login in r.order <==> login in r.early)
    && (forall login | login in r.early :: login !in r.active)
    && |r.early| <= EARLY_CAPACITY
  }

  lemma {:induction false} DistinctCount(order: seq<string>, keys: set<string>)
    requires Distinct(order) && forall login :: login in order <==> login in keys
    ensures |order| == |keys|
    decreases |order|
  {
    if order == [] {
      assert keys == {};
    } else {
      assert forall login :: login in order[1..] <==> login in order && login != order[0];
      DistinctCount(order[1..], keys - {order[0]});
    }
  }

  lemma {:induction false} WithoutDistinct(order: seq<string>, login: string)
    requires Distinct(order)
    ensures Distinct(Without(order, login))
    decreases |order|
  {
    if order != [] {
      WithoutDistinct(order[1..], login);
      assert order[0] !in order[1..];
    }
  }

  lemma Fewer<T>(m: map<string, T>, login: string)
    ensures |m - {login}| <= |m|
    ensures login !in m ==> m - {login} == m
  {
    var less := m - {login};
    assert less.Keys == m.Keys - {login};
    assert |less| == |less.Keys| && |m| == |m.Keys|;
  }

  lemma ForgetValid(r: Registry, login: string)
    requires EarlyValid(r)
    ensures EarlyValid(r.(early := r.early - {login}, order := Without(r.order, login)))
  {
    WithoutDistinct(r.order, login);
    Fewer(r.early, login);
  }

  lemma CachedValid(r: Registry, login: string, outcome: Outcome)
    requires EarlyValid(r) && login !in r.active
    ensures EarlyValid(Cached(r, login, outcome))
  {
  }

  // ---- runs ----

  /** Where a waiter waits: at which login, and at which of its registrations. */
  datatype Place = Place(login: string, registration: nat)

  /** The registry between critical sections, the results on their way, and what happened so far:
      the results received, the waiters that stopped waiting, where each waiter was issued, which
      registration each active login is in, and how each registration ended. */
  datatype System = System(
    registry: Registry,
    sending: map<nat, Outcome>,
    received: map<nat, Outcome>,
    gone: set<nat>,
    issued: map<nat, Place>,
    current: map<string, nat>,
    ended: map<nat, Outcome>,
    registrations: nat)

  const START := System(EMPTY, map[], map[], {}, map[], map[], map[], 0)

  datatype Step =
    | Register(login: string)
    | Await(login: string)
    | RemoveWaiter(login: string, waiter: nat)
    | Release(login: string)
    | Complete(login: string, outcome: Outcome)
    | FailActive(error: string)
    | Send(waiter: nat)

  function ToAll(waiters: set<nat>, outcome: Outcome): map<nat, Outcome> {
    map w | w in waiters :: outcome
  }

  predicate AtHome(r: Registry, login: string, waiter: nat) {
    login in r.active && waiter in r.active[login].waiters
  }

  function Terminal(r: Registry, login: string): Option<Outcome> {
    if login in r.active then r.active[login].terminal else None
  }

  ghost predicate Tracked(s: System) { s.current.Keys == s.registry.active.Keys }

  ghost function AfterRegister(s: System, login: string): (t: System)
    requires Tracked(s)
    ensures Tracked(t)
  {
    var r := s.registry;
    if login in r.active then s
    else
      s.(registry := Registered(r, login), current := s.current[login := s.registrations],
         registrations := s.registrations + 1,
         ended := if login in r.early then s.ended[s.registrations := r.early[login]] else s.ended)
  }

  ghost function AfterAwait(s: System, login: string): (t: System)
    requires Tracked(s)
    ensures Tracked(t)
  {
    var r := s.registry;
    if Answer(r, login).Pending? then
      s.(registry := Awaited(r, login), issued := s.issued[r.next := Place(login, s.current[login])])
    else s
  }

  ghost function AfterRemove(s: System, login: string, waiter: nat): (t: System)
    requires Tracked(s)
    ensures Tracked(t)
  {
    s.(registry := Removed(s.registry, login, waiter),
       gone := s.gone + if AtHome(s.registry, login, waiter) then {waiter} else {})
  }

  ghost function AfterRelease(s: System, login: string): (t: System)
    requires Tracked(s)
    ensures Tracked(t)
  {
    var r := s.registry;
    s.(registry := Released(r, login), current := s.current - {login},
       gone := s.gone + if login in r.active then r.active[login].waiters else {})
  }

  ghost function AfterComplete(s: System, login: string, outcome: Outcome): (t: System)
    requires Tracked(s)
    ensures Tracked(t)
  {
    var r := s.registry;
    s.(registry := Closed(r, login, outcome), sending := s.sending + ToAll(Taken(r, login), outcome),
       ended := if Open(r, login) then s.ended[s.current[login] := outcome] else s.ended)
  }

  ghost function AfterFailActive(s: System, error: string): (t: System)
    requires Tracked(s)
    ensures Tracked(t)
  {
    var r := s.registry;
    s.(registry := FailedAll(r, error), sending := s.sending + ToAll(TakenAll(r), Failed(error)),
       ended := s.ended + ToAll(OpenRegistrations(s), Failed(error)))
  }

  ghost function AfterSend(s: System, waiter: nat): (t: System)
    requires Tracked(s)
    ensures Tracked(t)
  {
    if waiter in s.sending then
      s.(sending := s.sending - {waiter}, received := s.received[waiter := s.sending[waiter]])
    else s
  }

  ghost function Next(s: System, step: Step): (t: System)
    requires Tracked(s)
    ensures Tracked(t)
    ensures !step.RemoveWaiter? && !step.Release? ==> t.gone == s.gone
  {
    match step
    case Register(login) => AfterRegister(s, login)
    case Await(login) => AfterAwait(s, login)
    case RemoveWaiter(login, waiter) => AfterRemove(s, login, waiter)
    case Release(login) => AfterRelease(s, login)
    case Complete(login, outcome) => AfterComplete(s, login, outcome)
    case FailActive(error) => AfterFailActive(s, error)
    case Send(waiter) => AfterSend(s, waiter)
  }

  ghost function OpenRegistrations(s: System): set<nat> {
    set login | login in s.current && Open(s.registry, login) :: s.current[login]
  }

  ghost function Run(steps: seq<Step>): (s: System)
    ensures Tracked(s)
  {
    if steps == [] then START else Next(Run(steps[..|steps| - 1]), steps[|steps| - 1])
  }

  /** A waiter waits where it was issued, and only for a result that is not there yet. */
  ghost predicate HomesValid(s: System) {
    forall login, w | AtHome(s.registry, login, w) ::
      && Terminal(s.registry, login) == None
      && login in s.current && w in s.issued && s.issued[w] == Place(login, s.current[login])
  }

  /** Registrations are told apart, and one has ended exactly when its login has a result. */
  ghost predicate EndsValid(s: System) {
    && Tracked(s)
    && (forall login | login in s.current ::
      s.current[login] < s.registrations && Terminal(s.registry, login) == Lookup(s.ended, s.current[login]))
    && (forall a, b | a in s.current && b in s.current && s.current[a] == s.current[b] :: a == b)
    && (forall k | k in s.ended :: k < s.registrations)
  }

  function Lookup(m: map<nat, Outcome>, k: nat): Option<Outcome> {
    if k in m then Some(m[k]) else None
  }

  /** A result on its way or received is the one that the waiter's registration ended with. */
  ghost predicate ResultsValid(s: System) {
    && (forall w | w in s.sending :: w in s.issued && Lookup(s.ended, s.issued[w].registration) == Some(s.sending[w]))
    && (forall w | w in s.received :: w in s.issued && Lookup(s.ended, s.issued[w].registration) == Some(s.received[w]))
  }

  /** Every number handed out so far is new, and its waiter is in exactly one state. */
  ghost predicate WaitersValid(s: System) {
    && 1 <= s.registry.next <= U64_MAX
    && (forall w :: w in s.issued <==> 1 <= w < s.registry.next)
    && (forall w | w in s.gone :: w in s.issued)
    && (forall w | w in s.issued :: s.issued[w].registration < s.registrations && InOneState(s, w))
  }

  ghost predicate InOneState(s: System, w: nat)
    requires w in s.issued
  {
    One(AtHome(s.registry, s.issued[w].login, w)) + One(w in s.sending) + One(w in s.received) + One(w in s.gone) == 1
  }

  function One(b: bool): nat { if b then 1 else 0 }

  // ---- what each critical section does to waiters and results ----

  lemma RegisterEffect(r: Registry, login: string)
    requires login !in r.active
    ensures forall l, w :: AtHome(Registered(r, login), l, w) == AtHome(r, l, w)
    ensures forall l | l != login :: Terminal(Registered(r, login), l) == Terminal(r, l)
    ensures Terminal(Registered(r, login), login) == if login in r.early then Some(r.early[login]) else None
    ensures Registered(r, login).next == r.next
  {
  }

  lemma AwaitEffect(r: Registry, login: string)
    requires Answer(r, login).Pending? && r.next <= U64_MAX
    ensures forall l, w :: AtHome(Awaited(r, login), l, w) <==> AtHome(r, l, w) || (l == login && w == r.next)
    ensures forall l :: Terminal(Awaited(r, login), l) == Terminal(r, l)
    ensures login in r.active && Terminal(r, login) == None
    ensures r.next < U64_MAX && Awaited(r, login).next == r.next + 1
  {
  }

  lemma RemoveEffect(r: Registry, login: string, waiter: nat)
    ensures forall l, w :: AtHome(Removed(r, login, waiter), l, w) <==> AtHome(r, l, w) && !(l == login && w == waiter)
    ensures forall l :: Terminal(Removed(r, login, waiter), l) == Terminal(r, l)
    ensures Removed(r, login, waiter).next == r.next
  {
  }

  lemma ReleaseEffect(r: Registry, login: string)
    ensures forall l, w :: AtHome(Released(r, login), l, w) <==> AtHome(r, l, w) && l != login
    ensures forall l | l != login :: Terminal(Released(r, login), l) == Terminal(r, l)
    ensures Released(r, login).next == r.next
    ensures forall w :: AtHome(r, login, w) <==> login in r.active && w in r.active[login].waiters
  {
  }

  lemma CompleteEffect(r: Registry, login: string, outcome: Outcome)
    ensures forall l, w :: AtHome(Closed(r, login, outcome), l, w) <==> AtHome(r, l, w) && !(l == login && Open(r, l))
    ensures forall l | l != login :: Terminal(Closed(r, login, outcome), l) == Terminal(r, l)
    ensures Terminal(Closed(r, login, outcome), login) == if Open(r, login) then Some(outcome) else Terminal(r, login)
    ensures Closed(r, login, outcome).next == r.next
    ensures forall w :: w in Taken(r, login) <==> AtHome(r, login, w) && Open(r, login)
    ensures Open(r, login) ==> login in r.active
  {
  }

  lemma FailActiveEffect(r: Registry, error: string)
    ensures forall l, w :: !AtHome(FailedAll(r, error), l, w)
    ensures forall l :: Terminal(FailedAll(r, error), l) == if Open(r, l) then Some(Failed(error)) else Terminal(r, l)
    ensures FailedAll(r, error).next == r.next
    ensures forall l, w | AtHome(r, l, w) :: w in TakenAll(r)
    ensures forall w | w in TakenAll(r) :: exists l :: AtHome(r, l, w)
    ensures forall l :: Open(r, l) <==> l in r.active && Terminal(r, l) == None
  {
    forall w | w in TakenAll(r) ensures exists l :: AtHome(r, l, w) {
      var l :| l in r.active && w in r.active[l].waiters;
      assert AtHome(r, l, w);
    }
  }

  /** Who is registered is answered by its result, or else by a new number while there are any. */
  lemma AnswerExact(r: Registry, login: string)
    ensures Answer(r, login) == NotActive <==> login !in r.active
    ensures forall o :: Answer(r, login) == Completed(o) <==> Terminal(r, login) == Some(o)
    ensures forall w :: Answer(r, login) == Pending(w) <==>
      login in r.active && Terminal(r, login) == None && w == r.next && r.next != 0xffff_ffff_ffff_ffff
  {
  }

  /** A result that comes before its login is registered is the result of the registration, the first
      one if there are several. */
  lemma EarlyTakenOver(r: Registry, login: string, outcome: Outcome)
    requires EarlyValid(r) && login !in r.active
    ensures var s := Registered(Closed(r, login, outcome), login);
      && Terminal(s, login) == Some(if login in r.early then r.early[login] else outcome)
      && login !in s.early && login !in s.order
  {
  }

  /** Caching one forgets at most the oldest of 32 others; releasing a login forgets it. */
  lemma EarlyKept(r: Registry, login: string, outcome: Outcome)
    requires EarlyValid(r) && login !in r.active
    ensures var s := Closed(r, login, outcome);
      && login in s.early && s.active == r.active && s.next == r.next
      && forall l | l in r.early :: l in s.early ==> s.early[l] == r.early[l]
    ensures var s := Closed(r, login, outcome);
      forall l | l in r.early && l !in s.early :: |r.early| == 32 && l == r.order[0] && login !in r.early
    ensures var s := Released(r, login);
      && login !in s.active && login !in s.early
      && forall l | l in r.early && l != login :: l in s.early && s.early[l] == r.early[l]
  {
    if r.order != [] { assert r.order[0] in r.order; }
    if |r.early| >= 32 {
      DistinctCount(r.order, r.early.Keys);
      assert r.order != [];
    }
  }

  // ---- what every step keeps ----

  lemma LookupAdded(m: map<nat, Outcome>, n: nat, outcome: Outcome)
    ensures forall k: nat :: Lookup(m[n := outcome], k) == if k == n then Some(outcome) else Lookup(m, k)
  {
    forall k: nat ensures Lookup(m[n := outcome], k) == if k == n then Some(outcome) else Lookup(m, k) {}
  }

  lemma RegisterEnds(s: System, login: string)
    requires EndsValid(s)
    ensures EndsValid(AfterRegister(s, login))
  {
    hide AtHome, Terminal, Registered, Lookup;
    var r, n := s.registry, s.registrations;
    if login !in r.active {
      RegisterEffect(r, login);
      LookupMissing(s.ended, n);
      if login in r.early { LookupAdded(s.ended, n, r.early[login]); }
    }
  }

  lemma LookupMissing(m: map<nat, Outcome>, n: nat)
    requires n !in m
    ensures Lookup(m, n) == None
  {
  }

  lemma RegisterResults(s: System, login: string)
    requires HomesValid(s) && EndsValid(s) && ResultsValid(s) && WaitersValid(s)
    ensures ResultsValid(AfterRegister(s, login))
  {
    hide AtHome, Terminal, Registered;
    if login !in s.registry.active { RegisterEffect(s.registry, login); }
  }

  lemma RegisterWaiters(s: System, login: string)
    requires HomesValid(s) && EndsValid(s) && WaitersValid(s)
    ensures HomesValid(AfterRegister(s, login)) && WaitersValid(AfterRegister(s, login))
  {
    hide AtHome, Terminal, Registered, Lookup, One;
    if login !in s.registry.active { RegisterEffect(s.registry, login); }
  }

  lemma AwaitEnds(s: System, login: string)
    requires HomesValid(s) && EndsValid(s) && WaitersValid(s)
    ensures HomesValid(AfterAwait(s, login)) && EndsValid(AfterAwait(s, login))
  {
    hide AtHome, Terminal, Awaited, Answer;
    if Answer(s.registry, login).Pending? { AwaitEffect(s.registry, login); }
  }

  lemma AwaitResults(s: System, login: string)
    requires HomesValid(s) && EndsValid(s) && ResultsValid(s) && WaitersValid(s)
    ensures ResultsValid(AfterAwait(s, login))
  {
    hide AtHome, Terminal, Awaited, Answer;
    if Answer(s.registry, login).Pending? { AwaitEffect(s.registry, login); }
  }

  lemma AwaitWaiters(s: System, login: string)
    requires HomesValid(s) && EndsValid(s) && ResultsValid(s) && WaitersValid(s)
    ensures WaitersValid(AfterAwait(s, login))
  {
    hide AtHome, Terminal, Awaited, Answer, Lookup;
    if Answer(s.registry, login).Pending? { AwaitEffect(s.registry, login); }
  }

  lemma RemoveEnds(s: System, login: string, waiter: nat)
    requires HomesValid(s) && EndsValid(s) && WaitersValid(s)
    ensures HomesValid(AfterRemove(s, login, waiter)) && EndsValid(AfterRemove(s, login, waiter))
  {
    hide AtHome, Terminal, Removed;
    RemoveEffect(s.registry, login, waiter);
  }

  lemma RemoveWaiters(s: System, login: string, waiter: nat)
    requires HomesValid(s) && EndsValid(s) && ResultsValid(s) && WaitersValid(s)
    ensures ResultsValid(AfterRemove(s, login, waiter)) && WaitersValid(AfterRemove(s, login, waiter))
  {
    hide AtHome, Terminal, Removed, Lookup;
    RemoveEffect(s.registry, login, waiter);
  }

  lemma ReleaseEnds(s: System, login: string)
    requires HomesValid(s) && EndsValid(s) && WaitersValid(s)
    ensures HomesValid(AfterRelease(s, login)) && EndsValid(AfterRelease(s, login))
  {
    hide AtHome, Terminal, Released, Lookup, WaitersValid;
    ReleaseEffect(s.registry, login);
  }

  lemma ReleaseWaiters(s: System, login: string)
    requires HomesValid(s) && EndsValid(s) && ResultsValid(s) && WaitersValid(s)
    ensures ResultsValid(AfterRelease(s, login)) && WaitersValid(AfterRelease(s, login))
  {
    hide AtHome, Terminal, Released, Lookup, EndsValid;
    ReleaseEffect(s.registry, login);
  }

  lemma CompleteEnds(s: System, login: string, outcome: Outcome)
    requires EndsValid(s)
    ensures EndsValid(AfterComplete(s, login, outcome))
  {
    hide AtHome, Terminal, Closed, Taken, Open;
    CompleteEffect(s.registry, login, outcome);
  }

  /** How a registration ended is never changed. */
  ghost predicate Later(s: System, t: System) {
    && (forall k | k in s.ended :: k in t.ended && t.ended[k] == s.ended[k])
    && (forall w | w in s.issued :: w in t.issued && t.issued[w] == s.issued[w])
    && (forall w | w in s.received :: w in t.received && t.received[w] == s.received[w])
  }

  lemma CompleteLater(s: System, login: string, outcome: Outcome)
    requires EndsValid(s)
    ensures Later(s, AfterComplete(s, login, outcome))
  {
    hide AtHome, Terminal, Closed, Taken, Open;
    CompleteEffect(s.registry, login, outcome);
    OpenIs(s.registry, login);
  }

  lemma OpenIs(r: Registry, login: string)
    ensures Open(r, login) <==> login in r.active && Terminal(r, login) == None
  {
  }

  lemma FailActiveLater(s: System, error: string)
    requires EndsValid(s)
    ensures Later(s, AfterFailActive(s, error))
  {
    hide AtHome, Terminal, FailedAll, TakenAll, Open;
    FailActiveEffect(s.registry, error);
  }

  lemma ResultsMore(s: System, t: System, waiters: set<nat>, outcome: Outcome)
    requires ResultsValid(s) && Later(s, t) && t.received == s.received
    requires t.sending == s.sending + ToAll(waiters, outcome)
    requires forall w | w in waiters :: w in t.issued && Lookup(t.ended, t.issued[w].registration) == Some(outcome)
    ensures ResultsValid(t)
  {
  }

  lemma CompleteResults(s: System, login: string, outcome: Outcome)
    requires HomesValid(s) && EndsValid(s) && ResultsValid(s)
    ensures ResultsValid(AfterComplete(s, login, outcome))
  {
    hide AtHome, Terminal, Closed, Taken, Open, Later, ResultsValid, ToAll;
    CompleteEffect(s.registry, login, outcome);
    CompleteLater(s, login, outcome);
    ResultsMore(s, AfterComplete(s, login, outcome), Taken(s.registry, login), outcome);
  }

  lemma CompleteWaiters(s: System, login: string, outcome: Outcome)
    requires HomesValid(s) && EndsValid(s) && WaitersValid(s)
    ensures HomesValid(AfterComplete(s, login, outcome)) && WaitersValid(AfterComplete(s, login, outcome))
  {
    hide AtHome, Terminal, Closed, Taken, Open;
    CompleteEffect(s.registry, login, outcome);
  }

  lemma FailActiveEnds(s: System, error: string)
    requires EndsValid(s)
    ensures EndsValid(AfterFailActive(s, error))
  {
    hide AtHome, Terminal, FailedAll, TakenAll, Open;
    FailActiveEffect(s.registry, error);
  }

  lemma FailActiveResults(s: System, error: string)
    requires HomesValid(s) && EndsValid(s) && ResultsValid(s)
    ensures ResultsValid(AfterFailActive(s, error))
  {
    hide AtHome, Terminal, FailedAll, TakenAll, Open, Later, ResultsValid;
    FailActiveEffect(s.registry, error);
    FailActiveLater(s, error);
    forall w | w in TakenAll(s.registry)
      ensures w in s.issued && s.issued[w].registration in OpenRegistrations(s)
    {
      var l :| AtHome(s.registry, l, w);
    }
    ResultsMore(s, AfterFailActive(s, error), TakenAll(s.registry), Failed(error));
  }

  lemma FailActiveWaiters(s: System, error: string)
    requires HomesValid(s) && EndsValid(s) && WaitersValid(s)
    ensures HomesValid(AfterFailActive(s, error)) && WaitersValid(AfterFailActive(s, error))
  {
    hide AtHome, Terminal, FailedAll, TakenAll, Open;
    FailActiveEffect(s.registry, error);
  }

  lemma SendKeeps(s: System, waiter: nat)
    requires HomesValid(s) && EndsValid(s) && ResultsValid(s) && WaitersValid(s)
    ensures var t := AfterSend(s, waiter);
      HomesValid(t) && EndsValid(t) && ResultsValid(t) && WaitersValid(t)
  {
    hide AtHome, Terminal;
  }

  lemma SameEarly(r: Registry, t: Registry)
    requires EarlyValid(r) && t.early == r.early && t.order == r.order && t.active.Keys == r.active.Keys
    ensures EarlyValid(t)
  {
  }

  lemma RegisterEarly(r: Registry, login: string)
    requires EarlyValid(r)
    ensures EarlyValid(Registered(r, login))
  {
    ForgetValid(r, login);
  }

  lemma ReleaseEarly(r: Registry, login: string)
    requires EarlyValid(r)
    ensures EarlyValid(Released(r, login))
  {
    ForgetValid(r, login);
  }

  lemma CloseEarly(r: Registry, login: string, outcome: Outcome)
    requires EarlyValid(r)
    ensures EarlyValid(Closed(r, login, outcome))
  {
    hide EarlyValid;
    if login in r.active { SameEarly(r, Closed(r, login, outcome)); } else { CachedValid(r, login, outcome); }
  }

  lemma WaitersEarly(r: Registry, login: string, waiter: nat, error: string)
    requires EarlyValid(r)
    ensures EarlyValid(Awaited(r, login)) && EarlyValid(Removed(r, login, waiter)) && EarlyValid(FailedAll(r, error))
  {
    hide EarlyValid;
    SameEarly(r, Awaited(r, login));
    SameEarly(r, Removed(r, login, waiter));
    SameEarly(r, FailedAll(r, error));
  }

  lemma EarlyStep(s: System, step: Step)
    requires EarlyValid(s.registry) && Tracked(s)
    ensures EarlyValid(Next(s, step).registry)
  {
    hide EarlyValid, Tracked, Registered, Awaited, Removed, Released, Closed, FailedAll;
    hide Answer, AtHome, ToAll, TakenAll, OpenRegistrations, Taken, Open;
    var r := s.registry;
    match step
    case Register(login) => RegisterEarly(r, login);
    case Release(login) => ReleaseEarly(r, login);
    case Complete(login, outcome) => CloseEarly(r, login, outcome);
    case Await(login) => WaitersEarly(r, login, 0, "");
    case RemoveWaiter(login, waiter) => WaitersEarly(r, login, waiter, "");
    case FailActive(error) => WaitersEarly(r, "", 0, error);
    case Send(_) =>
  }

  ghost predicate Valid(s: System) {
    EarlyValid(s.registry) && HomesValid(s) && EndsValid(s) && ResultsValid(s) && WaitersValid(s)
  }

  lemma SendLater(s: System, waiter: nat)
    requires Tracked(s) && WaitersValid(s) && ResultsValid(s)
    ensures Later(s, AfterSend(s, waiter))
  {
    hide AtHome;
  }

  lemma AwaitLater(s: System, login: string)
    requires WaitersValid(s) && Tracked(s)
    ensures Later(s, AfterAwait(s, login))
  {
    hide AtHome, Awaited;
  }

  lemma StepValid(s: System, step: Step)
    requires Valid(s)
    ensures Valid(Next(s, step))
  {
    hide EarlyValid, HomesValid, ResultsValid, WaitersValid;
    EarlyStep(s, step);
    match step
    case Register(login) =>
      RegisterEnds(s, login); RegisterResults(s, login); RegisterWaiters(s, login);
    case Await(login) =>
      AwaitEnds(s, login); AwaitResults(s, login); AwaitWaiters(s, login);
    case RemoveWaiter(login, waiter) =>
      RemoveEnds(s, login, waiter); RemoveWaiters(s, login, waiter);
    case Release(login) =>
      ReleaseEnds(s, login); ReleaseWaiters(s, login);
    case Complete(login, outcome) =>
      CompleteEnds(s, login, outcome);
      CompleteResults(s, login, outcome); CompleteWaiters(s, login, outcome);
    case FailActive(error) =>
      FailActiveEnds(s, error); FailActiveResults(s, error);
      FailActiveWaiters(s, error);
    case Send(waiter) =>
      SendKeeps(s, waiter);
  }

  lemma StepLater(s: System, step: Step)
    requires Valid(s)
    ensures Later(s, Next(s, step))
  {
    hide EarlyValid, HomesValid, ResultsValid, WaitersValid;
    match step
    case Register(_) =>
    case Await(login) => AwaitLater(s, login);
    case RemoveWaiter(_, _) =>
    case Release(_) =>
    case Complete(login, outcome) => CompleteLater(s, login, outcome);
    case FailActive(error) => FailActiveLater(s, error);
    case Send(waiter) => SendLater(s, waiter);
  }

  // ---- whole runs ----

  lemma StartValid()
    ensures Valid(START)
  {
  }

  lemma {:induction false} RunValid(steps: seq<Step>)
    ensures Valid(Run(steps))
    decreases |steps|
  {
    hide Valid, Next;
    StartValid();
    if steps != [] {
      RunValid(steps[..|steps| - 1]);
      StepValid(Run(steps[..|steps| - 1]), steps[|steps| - 1]);
    }
  }

  lemma LaterSame(s: System)
    ensures Later(s, s)
  {
  }

  lemma LaterThen(a: System, b: System, c: System)
    requires Later(a, b) && Later(b, c)
    ensures Later(a, c)
  {
  }

  /** What has been issued, ended or received stays so, whatever comes later. */
  lemma {:induction false} RunLater(steps: seq<Step>, more: seq<Step>)
    ensures Later(Run(steps), Run(steps + more))
    decreases |more|
  {
    hide Next, Valid, Later;
    LaterSame(Run(steps));
    if more == [] {
      assert steps + more == steps;
    } else {
      var before := steps + more[..|more| - 1];
      RunLater(steps, more[..|more| - 1]);
      RunValid(before);
      StepLater(Run(before), more[|more| - 1]);
      assert (steps + more)[..|steps + more| - 1] == before;
      LaterThen(Run(steps), Run(before), Run(steps + more));
    }
  }

  /** The first result of a registered login stays until the login is released. */
  lemma TerminalStays(s: System, step: Step, login: string)
    requires Tracked(s) && Terminal(s.registry, login).Some? && step != Release(login)
    ensures Terminal(Next(s, step).registry, login) == Terminal(s.registry, login)
  {
    hide AtHome;
    match step
    case Register(l) =>
    case Await(l) =>
    case RemoveWaiter(l, w) =>
    case Release(l) =>
    case Complete(l, outcome) => CompleteEffect(s.registry, l, outcome);
    case FailActive(error) =>
    case Send(_) =>
  }

  /** Whoever was told to wait is still waiting, has stopped, or has been sent one result: the
      one that the registration ended with. None waits once it has ended. */
  lemma EveryWaiterOwed(steps: seq<Step>, w: nat)
    requires 1 <= w < Run(steps).registry.next
    ensures var s := Run(steps);
      && w in s.issued && InOneState(s, w)
      && match Lookup(s.ended, s.issued[w].registration)
         case None => w !in s.sending && w !in s.received
         case Some(outcome) =>
           w in s.gone || (w in s.sending && s.sending[w] == outcome) || (w in s.received && s.received[w] == outcome)
  {
    RunValid(steps);
  }

  /** A number is never given to a second waiter. */
  lemma NumbersFresh(steps: seq<Step>, login: string, w: nat)
    requires Answer(Run(steps).registry, login) == Pending(w)
    ensures w !in Run(steps).issued && w < U64_MAX
    ensures Run(steps + [Await(login)]).issued.Keys == Run(steps).issued.Keys + {w}
  {
    hide AtHome, Next;
    RunValid(steps);
    assert (steps + [Await(login)])[..|steps|] == steps;
    AwaitIssues(Run(steps), login);
  }

  lemma AwaitIssues(s: System, login: string)
    requires Tracked(s) && Answer(s.registry, login).Pending?
    ensures Next(s, Await(login)).issued.Keys == s.issued.Keys + {s.registry.next}
  {
  }

  /** The cache of early results stays small, ordered once each, and apart from what is registered. */
  lemma EarlyCacheValid(steps: seq<Step>)
    ensures EarlyValid(Run(steps).registry)
    ensures |Run(steps).registry.order| == |Run(steps).registry.early| <= 32
  {
    RunValid(steps);
    var r := Run(steps).registry;
    DistinctCount(r.order, r.early.Keys);
  }
}
