/** The registry of managed logins: its critical sections, as functions and as methods. */
module Logins {
  import opened Json

  const EARLY_CAPACITY: nat := 32
  const U64_MAX: nat := 0xffff_ffff_ffff_ffff

  datatype Outcome = Succeeded | Failed(error: string)

  /** A registered login: its terminal result, and the waiters that are owed one. */
  datatype Entry = Entry(terminal: Option<Outcome>, waiters: set<nat>)

  datatype Registry = Registry(
    next: nat,
    active: map<string, Entry>,
    early: map<string, Outcome>,
    order: seq<string>)

  const EMPTY := Registry(1, map[], map[], [])

  datatype Wait =
    | Completed(outcome: Outcome)
    | Pending(waiter: nat)
    | NotActive
    | Exhausted

  // ---- the critical sections ----

  function Without(order: seq<string>, login: string): (r: seq<string>)
    ensures forall x :: x in r <==> x in order && x != login
    ensures |r| <= |order|
  {
    if order == [] then []
    else if order[0] == login then Without(order[1..], login)
    else [order[0]] + Without(order[1..], login)
  }

  function Registered(r: Registry, login: string): Registry {
    if login in r.active then r
    else if login in r.early then
      r.(active := r.active[login := Entry(Some(r.early[login]), {})],
         early := r.early - {login},
         order := Without(r.order, login))
    else r.(active := r.active[login := Entry(None, {})])
  }

  function Answer(r: Registry, login: string): Wait {
    if login !in r.active then NotActive
    else if r.active[login].terminal.Some? then Completed(r.active[login].terminal.value)
    else if r.next == U64_MAX then Exhausted
    else Pending(r.next)
  }

  function Awaited(r: Registry, login: string): Registry {
    if Answer(r, login).Pending? then
      var entry := r.active[login];
      r.(next := r.next + 1, active := r.active[login := entry.(waiters := entry.waiters + {r.next})])
    else r
  }

  function Removed(r: Registry, login: string, waiter: nat): Registry {
    if login in r.active then
      var entry := r.active[login];
      r.(active := r.active[login := entry.(waiters := entry.waiters - {waiter})])
    else r
  }

  function Released(r: Registry, login: string): Registry {
    r.(active := r.active - {login}, early := r.early - {login}, order := Without(r.order, login))
  }

  predicate Open(r: Registry, login: string) {
    login in r.active && r.active[login].terminal.None?
  }

  function Closed(r: Registry, login: string, outcome: Outcome): Registry {
    if login !in r.active then Cached(r, login, outcome)
    else if r.active[login].terminal.Some? then r
    else r.(active := r.active[login := Entry(Some(outcome), {})])
  }

  /** The waiters that completing a login sends its result to. */
  function Taken(r: Registry, login: string): set<nat> {
    if Open(r, login) then r.active[login].waiters else {}
  }

  function Cached(r: Registry, login: string, outcome: Outcome): Registry {
    if login in r.early then r
    else
      var r := if |r.early| >= EARLY_CAPACITY && r.order != [] then
          r.(early := r.early - {r.order[0]}, order := r.order[1..])
        else r;
      r.(early := r.early[login := outcome], order := r.order + [login])
  }

  function FailedEntry(entry: Entry, error: string): Entry {
    Entry(if entry.terminal.None? then Some(Failed(error)) else entry.terminal, {})
  }

  function FailedAll(r: Registry, error: string): Registry {
    r.(active := map login | login in r.active :: FailedEntry(r.active[login], error))
  }

  function TakenAll(r: Registry): set<nat> {
    set login, w | login in r.active && w in r.active[login].waiters :: w
  }

  // ---- the registry as an object ----

  class LoginRegistry {
    var next: nat
    var active: map<string, Entry>
    var early: map<string, Outcome>
    var order: seq<string>

    constructor ()
      ensures Value() == EMPTY
    {
      next, active, early, order := 1, map[], map[], [];
    }

    ghost function Value(): Registry
      reads this
    {
      Registry(next, active, early, order)
    }

    method Register(login: string) returns (registered: bool)
      modifies this
      ensures Value() == Registered(old(Value()), login)
      ensures registered <==> login !in old(active)
    {
      if login in active { return false; }
      var terminal := None;
      if login in early {
        terminal := Some(early[login]);
        early := early - {login};
        order := Without(order, login);
      }
      active := active[login := Entry(terminal, {})];
      registered := true;
    }

    method WaitFor(login: string) returns (wait: Wait)
      modifies this
      ensures Value() == Awaited(old(Value()), login)
      ensures wait == Answer(old(Value()), login)
    {
      if login !in active { return NotActive; }
      var entry := active[login];
      if entry.terminal.Some? { return Completed(entry.terminal.value); }
      var waiter := next;
      if waiter == U64_MAX { return Exhausted; }
      next := waiter + 1;
      active := active[login := entry.(waiters := entry.waiters + {waiter})];
      wait := Pending(waiter);
    }

    method RemoveWaiter(login: string, waiter: nat)
      modifies this
      ensures Value() == Removed(old(Value()), login, waiter)
    {
      if login in active {
        var entry := active[login];
        active := active[login := entry.(waiters := entry.waiters - {waiter})];
      }
    }

    method Release(login: string)
      modifies this
      ensures Value() == Released(old(Value()), login)
    {
      active := active - {login};
      early := early - {login};
      order := Without(order, login);
    }

    /** Returns the waiters to send the result to once the lock is given back. */
    method Complete(login: string, outcome: Outcome) returns (waiters: set<nat>)
      modifies this
      ensures Value() == Closed(old(Value()), login, outcome)
      ensures waiters == Taken(old(Value()), login)
    {
      if login !in active {
        CacheEarly(login, outcome);
        return {};
      }
      var entry := active[login];
      if entry.terminal.Some? { return {}; }
      active := active[login := Entry(Some(outcome), {})];
      waiters := entry.waiters;
    }

    method CacheEarly(login: string, outcome: Outcome)
      modifies this
      ensures Value() == Cached(old(Value()), login, outcome)
    {
      if login in early { return; }
      if |early| >= EARLY_CAPACITY && order != [] {
        var expired := order[0];
        order := order[1..];
        early := early - {expired};
      }
      order := order + [login];
      early := early[login := outcome];
    }

    /** Returns the waiters to send the error to once the lock is given back. */
    method FailActive(error: string) returns (waiters: set<nat>)
      modifies this
      ensures Value() == FailedAll(old(Value()), error)
      ensures waiters == TakenAll(old(Value()))
    {
      waiters := {};
      ghost var start := active;
      var left := active.Keys;
      while left != {}
        invariant left <= start.Keys == active.Keys
        invariant forall l | l in start ::
          active[l] == if l in left then start[l] else FailedEntry(start[l], error)
        invariant forall w :: w in waiters <==> exists l | l in start.Keys - left :: w in start[l].waiters
        invariant next == old(next) && early == old(early) && order == old(order)
        decreases |left|
      {
        var login :| login in left;
        var entry := active[login];
        var terminal := if entry.terminal.None? then Some(Failed(error)) else entry.terminal;
        waiters := waiters + entry.waiters;
        active := active[login := Entry(terminal, {})];
        left := left - {login};
      }
    }
  }
}
