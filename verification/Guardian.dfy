/** The guardian's custody of a private process group, against a group whose members fork,
    exit and leave between any two of its system calls. */
module Guardian {

  const FAILURE := 70
  const MAX_GROUP_MEMBERS := 4096
  const SCAN_ATTEMPTS := 24
  const LEADER: nat := 1

  // ---- the group ----

  datatype Ending = Exited(code: nat) | Signaled(number: nat)

  /** Only the guardian turns a zombie leader into a reaped one. */
  datatype Leader = Alive | Zombie(how: Ending) | Reaped(how: Ending)

  /** `anchored`: the leader is in its own group; `members`: its other live members. */
  datatype World = World(leader: Leader, anchored: bool, members: set<nat>)

  datatype Event =
    | Fork(parent: nat, child: nat)
    | MemberExits(member: nat)
    | MemberLeaves(member: nat)
    | LeaderExits(how: Ending)
    | LeaderJoins
    | LeaderLeaves

  predicate CanFork(w: World, parent: nat) {
    parent in w.members || (parent == LEADER && w.leader.Alive? && w.anchored)
  }

  /** What an event does; one that cannot happen does nothing. A group grows only by a fork
      of one of its live members. */
  function Happens(w: World, e: Event): World {
    match e
    case Fork(parent, child) => if CanFork(w, parent) && child != LEADER then w.(members := w.members + {child}) else w
    case MemberExits(member) => w.(members := w.members - {member})
    case MemberLeaves(member) => w.(members := w.members - {member})
    case LeaderExits(how) => if w.leader.Alive? then w.(leader := Zombie(how)) else w
    case LeaderJoins => if w.leader.Alive? then w.(anchored := true) else w
    case LeaderLeaves => if w.leader.Alive? then w.(anchored := false) else w
  }

  function After(w: World, events: seq<Event>): World
    decreases |events|
  {
    if events == [] then w else After(Happens(w, events[0]), events[1..])
  }

  ghost predicate Evolves(before: World, after: World) {
    exists events :: After(before, events) == after
  }

  /** The leader is gone and no other member is left. */
  predicate Quiet(w: World) {
    !w.leader.Alive? && w.members == {}
  }

  lemma {:induction false} AfterConcat(w: World, a: seq<Event>, b: seq<Event>)
    ensures After(w, a + b) == After(After(w, a), b)
    decreases |a|
  {
    if a == [] {
      assert a + b == b;
    } else {
      assert (a + b)[1..] == a[1..] + b;
      AfterConcat(Happens(w, a[0]), a[1..], b);
    }
  }

  lemma {:induction false} AfterKeeps(w: World, events: seq<Event>)
    ensures !w.leader.Alive? ==> After(w, events).leader == w.leader
    ensures w.leader.Alive? ==> !After(w, events).leader.Reaped?
    ensures LEADER !in w.members ==> LEADER !in After(w, events).members
    ensures Quiet(w) ==> Quiet(After(w, events))
    decreases |events|
  {
    if events != [] { AfterKeeps(Happens(w, events[0]), events[1..]); }
  }

  /** A group that may still gain a member does so by some events. */
  lemma Refills(w: World) returns (events: seq<Event>)
    requires !Quiet(w)
    ensures After(w, events).members != {}
  {
    if w.leader.Alive? {
      var child := LEADER + 1;
      events := [LeaderJoins, Fork(LEADER, child)];
      var joined := w.(anchored := true);
      assert After(joined, [Fork(LEADER, child)]) == After(Happens(joined, Fork(LEADER, child)), []);
      assert events[1..] == [Fork(LEADER, child)] && events[0] == LeaderJoins;
      assert After(w, events) == After(joined, events[1..]);
      assert child in After(w, events).members;
    } else {
      events := [];
    }
  }

  /** A group is empty for good exactly when it is empty and its leader has exited: while
      the leader is alive an empty scan means nothing. */
  lemma EmptyForever(w: World)
    ensures Quiet(w) <==> forall events :: After(w, events).members == {}
  {
    if Quiet(w) {
      forall events: seq<Event> ensures After(w, events).members == {} { AfterKeeps(w, events); }
    } else {
      var events := Refills(w);
    }
  }

  lemma EvolvesKeeps(before: World, after: World)
    requires Evolves(before, after)
    ensures !before.leader.Alive? ==> after.leader == before.leader
    ensures before.leader.Alive? ==> !after.leader.Reaped?
    ensures LEADER !in before.members ==> LEADER !in after.members
    ensures Quiet(before) ==> Quiet(after)
  {
    var events :| After(before, events) == after;
    AfterKeeps(before, events);
  }

  // ---- system calls ----

  datatype Pgid = Group(id: nat) | NoSuchProcess | PgidFailed

  datatype Signal = SIGTERM | SIGKILL

  /** A signal to the group, with the state of the group and the number of sleeps before it. */
  datatype Kill = Kill(signal: Signal, world: World, slept: nat)

  datatype Killed = Sent | NoSuchGroup | KillFailed

  /** A system call with its result. */
  datatype Call =
    | Observed(failed: bool, ended: bool)
    | Listed(failed: bool, listed: seq<nat>)
    | Asked(group: Pgid)
    | Killing(signal: Signal, result: Killed)
    | Slept(failed: bool)
    | Waited(reaped: bool)
    | Launched(execResult: int)
    | Polled(stop: bool)

  /** A call that did not do its work, or found the leader in another group. */
  predicate Broken(c: Call) {
    match c
    case Observed(failed, _) => failed
    case Listed(failed, listed) => failed || |listed| > 4096
    case Asked(group) => group.PgidFailed? || (group.Group? && group.id != LEADER)
    case Killing(_, result) => result.KillFailed?
    case Slept(failed) => failed
    case Waited(reaped) => !reaped
    case Launched(execResult) => execResult != 0
    case Polled(_) => false
  }

  predicate Others(listed: seq<nat>) {
    exists i | 0 <= i < |listed| :: listed[i] != LEADER
  }

  predicate EmptyScan(c: Call) {
    c.Listed? && !Broken(c) && !Others(c.listed)
  }

  predicate FullScan(c: Call) {
    c.Listed? && !Broken(c) && Others(c.listed)
  }

  ghost predicate Troubled(calls: seq<Call>, from: nat) {
    exists k | from <= k < |calls| :: Broken(calls[k])
  }

  /** The leader had no group although it had not been seen to exit. */
  ghost predicate LostLeader(calls: seq<Call>, from: nat) {
    exists k | from <= k < |calls| ::
      calls[k] == Asked(NoSuchProcess) && forall j | from <= j < k :: calls[j] != Observed(false, true)
  }

  /** How often another member was listed. */
  ghost function FullScans(calls: seq<Call>, from: nat): nat
    decreases |calls|
  {
    if |calls| <= from then 0
    else FullScans(calls[..|calls| - 1], from) + (if FullScan(calls[|calls| - 1]) then 1 else 0)
  }

  /** The operating system as the guardian sees it. Each call first lets the group do
      anything it can; results the guardian cannot foresee are arbitrary. */
  class Kernel {
    var world: World
    ghost var kills: seq<Kill>
    ghost var sleeps: nat
    ghost var calls: seq<Call>
    /** How often at most nobody asks for a stop yet. */
    var patience: nat

    constructor (w: World)
      requires LEADER !in w.members
      ensures world == w && kills == [] && sleeps == 0 && calls == []
    {
      calls := [];
      patience := *;
      world := w;
      kills := [];
      sleeps := 0;
    }

    ghost predicate Unreaped()
      reads this
    {
      LEADER !in world.members && !world.leader.Reaped?
    }

    /** Every signal so far was sent while the leader was unreaped. */
    ghost predicate Custody()
      reads this
    {
      forall k | 0 <= k < |kills| :: !kills[k].world.leader.Reaped?
    }

    method Interleave()
      requires LEADER !in world.members
      modifies this`world
      ensures Evolves(old(world), world)
      ensures LEADER !in world.members
      ensures !old(world.leader).Alive? ==> world.leader == old(world.leader)
      ensures old(world.leader).Alive? ==> !world.leader.Reaped?
      ensures Quiet(old(world)) ==> Quiet(world)
    {
      var steps: nat := *;
      ghost var events: seq<Event> := [];
      while steps > 0
        invariant After(old(world), events) == world
      {
        var e: Event := *;
        AfterConcat(old(world), events, [e]);
        world := Happens(world, e);
        events := events + [e];
        steps := steps - 1;
      }
      assert After(old(world), events) == world;
      EvolvesKeeps(old(world), world);
    }

    /** waitid with WNOWAIT: nothing, or how the leader ended. */
    method WaitId() returns (failed: bool, ended: bool, how: Ending)
      requires Unreaped()
      modifies this`world, this`calls
      ensures Unreaped() && Evolves(old(world), world)
      ensures calls == old(calls) + [Observed(failed, ended)]
      ensures !failed ==> (ended <==> world.leader.Zombie?) && (ended ==> how == world.leader.how)
      ensures old(world.leader).Zombie? ==> world.leader == old(world.leader)
      ensures Quiet(old(world)) ==> Quiet(world)
    {
      Interleave();
      failed := *;
      how := *;
      ended := world.leader.Zombie?;
      if ended { how := world.leader.how; }
      calls := calls + [Observed(failed, ended)];
    }

    /** proc_listpgrppids: every live member is listed unless the buffer is full; what else
        is listed, such as the leader or dead members, is up to the kernel. */
    method ListGroup() returns (failed: bool, listed: seq<nat>)
      requires Unreaped()
      modifies this`world, this`calls
      ensures Unreaped() && Evolves(old(world), world)
      ensures calls == old(calls) + [Listed(failed, listed)]
      ensures !failed && |listed| < MAX_GROUP_MEMBERS ==> forall m | m in world.members :: m in listed
      ensures forall i, j | 0 <= i < j < |listed| :: listed[i] != listed[j]
      ensures old(world.leader).Zombie? ==> world.leader == old(world.leader)
      ensures Quiet(old(world)) ==> Quiet(world)
    {
      Interleave();
      failed := *;
      listed := [];
      var todo := world.members;
      var extra: set<nat> := *;
      todo := todo + extra;
      ghost var all := todo;
      while todo != {} && |listed| < MAX_GROUP_MEMBERS
        invariant todo <= all && (forall m | m in all :: m in todo || m in listed)
        invariant forall i | 0 <= i < |listed| :: listed[i] !in todo
        invariant forall i, j | 0 <= i < j < |listed| :: listed[i] != listed[j]
        decreases |todo|
      {
        var m: nat :| m in todo;
        listed := listed + [m];
        todo := todo - {m};
      }
      calls := calls + [Listed(failed, listed)];
    }

    method GetPgid() returns (group: Pgid)
      requires Unreaped()
      modifies this`world, this`calls
      ensures Unreaped() && Evolves(old(world), world)
      ensures calls == old(calls) + [Asked(group)]
      ensures world.leader.Alive? && world.anchored ==> group == Group(LEADER)
      ensures old(world.leader).Zombie? ==> world.leader == old(world.leader)
      ensures Quiet(old(world)) ==> Quiet(world)
    {
      Interleave();
      group := *;
      if world.leader.Alive? && world.anchored { group := Group(LEADER); }
      calls := calls + [Asked(group)];
    }

    /** The number of the group is the leader's only while the leader is unreaped. */
    method KillGroup(signal: Signal) returns (result: Killed)
      requires Unreaped() && Custody()
      modifies this`world, this`kills, this`calls
      ensures Unreaped() && Custody() && Evolves(old(world), world)
      ensures kills == old(kills) + [Kill(signal, old(world), sleeps)]
      ensures calls == old(calls) + [Killing(signal, result)]
      ensures old(world.leader).Zombie? ==> world.leader == old(world.leader)
      ensures Quiet(old(world)) ==> Quiet(world)
    {
      kills := kills + [Kill(signal, world, sleeps)];
      Interleave();
      result := *;
      calls := calls + [Killing(signal, result)];
    }

    method Sleep() returns (failed: bool)
      requires Unreaped()
      modifies this`world, this`sleeps, this`calls
      ensures Unreaped() && Evolves(old(world), world) && sleeps == old(sleeps) + 1
      ensures calls == old(calls) + [Slept(failed)]
      ensures old(world.leader).Zombie? ==> world.leader == old(world.leader)
      ensures Quiet(old(world)) ==> Quiet(world)
    {
      sleeps := sleeps + 1;
      Interleave();
      failed := *;
      calls := calls + [Slept(failed)];
    }

    method WaitPid() returns (reaped: bool, how: Ending)
      requires Unreaped()
      modifies this`world, this`calls
      ensures LEADER !in world.members
      ensures calls == old(calls) + [Waited(reaped)]
      ensures reaped ==> world.leader == Reaped(how)
      ensures !reaped ==> Unreaped()
      ensures Quiet(old(world)) ==> Quiet(world)
    {
      Interleave();
      reaped, how := false, *;
      if world.leader.Zombie? {
        reaped := *;
        if reaped {
          how := world.leader.how;
          world := world.(leader := Reaped(how));
        }
      }
      calls := calls + [Waited(reaped)];
    }

    /** The pipe that tells whether the leader was executed. */
    method ReadExecResult() returns (execResult: int)
      requires Unreaped()
      modifies this`world, this`calls
      ensures Unreaped() && calls == old(calls) + [Launched(execResult)]
    {
      Interleave();
      execResult := *;
      calls := calls + [Launched(execResult)];
    }

    /** Whether a stop was requested or the parent is gone, as happens sooner or later. */
    method Poll() returns (stop: bool)
      requires Unreaped()
      modifies this`world, this`calls, this`patience
      ensures Unreaped() && calls == old(calls) + [Polled(stop)]
      ensures !stop ==> patience < old(patience)
    {
      Interleave();
      stop := *;
      if patience == 0 { stop := true; } else { patience := patience - 1; }
      calls := calls + [Polled(stop)];
    }
  }

  // ---- the guardian ----

  datatype Result = Done | Failed | TimedOut

  /** An empty scan means an empty group: a full buffer of distinct processes has one that
      is not the leader. */
  method GroupHasOther(kernel: Kernel) returns (failed: bool, other: bool)
    requires kernel.Unreaped()
    modifies kernel`world, kernel`calls
    ensures kernel.Unreaped() && Evolves(old(kernel.world), kernel.world)
    ensures |kernel.calls| == |old(kernel.calls)| + 1 && old(kernel.calls) <= kernel.calls
    ensures var scan := kernel.calls[|kernel.calls| - 1];
      scan.Listed? && (failed <==> Broken(scan)) && (!failed ==> (other <==> Others(scan.listed)))
    ensures !failed && !other ==> kernel.world.members == {}
    ensures old(kernel.world.leader).Zombie? ==> kernel.world.leader == old(kernel.world.leader)
    ensures Quiet(old(kernel.world)) ==> Quiet(kernel.world)
  {
    var listed;
    failed, listed := kernel.ListGroup();
    other := false;
    if failed || |listed| > MAX_GROUP_MEMBERS { return true, false; }
    var index := 0;
    while index < |listed| && !other
      invariant index <= |listed|
      invariant other ==> Others(listed)
      invariant !other ==> index <= 1 && (index > 0 ==> listed[0] == LEADER)
    {
      if listed[index] != LEADER { other := true; }
      index := index + 1;
    }
  }

  ghost predicate SignalledOnce(before: seq<Kill>, after: seq<Kill>, signal: Signal, slept: nat) {
    && before < after && |after| == |before| + 1
    && after[|before|].signal == signal && after[|before|].slept == slept
  }

  ghost predicate Saw(calls: seq<Call>, from: nat, c: Call) {
    exists k | from <= k < |calls| :: calls[k] == c
  }

  /** The leader was found in its group; or, having exited, in none, with another member listed. */
  ghost predicate MayKill(calls: seq<Call>, from: nat, leaderExited: bool) {
    && |calls| > from + 1
    && (calls[from] == Asked(Group(LEADER))
        || (calls[from] == Asked(NoSuchProcess) && leaderExited && FullScan(calls[from + 1])))
  }

  /** Unless it fails, the group has been sent the signal, or its leader has exited and a scan found
      nobody else. It fails exactly when a call failed, the leader was found in another group, or
      it had no group although it has not exited. */
  method SignalPrivateGroup(kernel: Kernel, signal: Signal, leaderExited: bool) returns (failed: bool)
    requires kernel.Unreaped() && kernel.Custody()
    modifies kernel`world, kernel`kills, kernel`calls
    ensures kernel.Unreaped() && kernel.Custody() && old(kernel.calls) <= kernel.calls
    ensures kernel.kills == old(kernel.kills)
      || SignalledOnce(old(kernel.kills), kernel.kills, signal, kernel.sleeps)
    ensures !Saw(kernel.calls, |old(kernel.calls)|, Observed(false, true))
    ensures failed <==>
      (Troubled(kernel.calls, |old(kernel.calls)|)
       || (!leaderExited && Saw(kernel.calls, |old(kernel.calls)|, Asked(NoSuchProcess))))
    ensures !failed && kernel.kills == old(kernel.kills) ==>
      && leaderExited && kernel.world.members == {}
      && |kernel.calls| > |old(kernel.calls)| && EmptyScan(kernel.calls[|kernel.calls| - 1])
    ensures kernel.kills != old(kernel.kills) ==> MayKill(kernel.calls, |old(kernel.calls)|, leaderExited)
    ensures kernel.kills != old(kernel.kills) && old(kernel.world.leader).Zombie? ==>
      kernel.kills[|old(kernel.kills)|].world.leader.Zombie?
    ensures old(kernel.world.leader).Zombie? ==> kernel.world.leader == old(kernel.world.leader)
    ensures Quiet(old(kernel.world)) ==> Quiet(kernel.world)
  {
    hide Evolves;
    ghost var start := |kernel.calls|;
    var group := kernel.GetPgid();
    assert kernel.calls[start] == Asked(group);
    match group
    case PgidFailed => return true;
    case NoSuchProcess =>
      if !leaderExited { return true; }
      var scanFailed, other := GroupHasOther(kernel);
      if scanFailed { return true; }
      if !other { return false; }
      var result := kernel.KillGroup(signal);
      assert kernel.calls[start] == Asked(group) && kernel.calls[start + 2] == Killing(signal, result);
      assert FullScan(kernel.calls[start + 1]);
      return result == KillFailed;
    case Group(id) =>
      if id != LEADER { return true; }
      var result := kernel.KillGroup(signal);
      assert kernel.calls[start + 1] == Killing(signal, result);
      return result == KillFailed;
  }

  lemma TroubleGrows(a: seq<Call>, b: seq<Call>, from: nat)
    requires a <= b && from <= |a|
    ensures Troubled(b, from) <==> Troubled(a, from) || Troubled(b, |a|)
    ensures forall c :: Saw(b, from, c) <==> Saw(a, from, c) || Saw(b, |a|, c)
  {
    if k :| from <= k < |a| && Broken(a[k]) { assert Broken(b[k]); }
    if k :| from <= k < |b| && Broken(b[k]) { assert k < |a| ==> Broken(a[k]); }
    forall c | Saw(a, from, c) ensures Saw(b, from, c) {
      var k :| from <= k < |a| && a[k] == c;
      assert b[k] == c;
    }
    forall c | Saw(b, from, c) ensures Saw(a, from, c) || Saw(b, |a|, c) {
      var k :| from <= k < |b| && b[k] == c;
      assert k < |a| ==> a[k] == c;
    }
  }

  lemma OneMore(calls: seq<Call>, c: Call, from: nat)
    requires from <= |calls|
    ensures Troubled(calls + [c], from) <==> Troubled(calls, from) || Broken(c)
    ensures forall d :: Saw(calls + [c], from, d) <==> Saw(calls, from, d) || d == c
  {
    TroubleGrows(calls, calls + [c], from);
    assert (calls + [c])[|calls|] == c;
  }

  /** Done means that the leader has exited; without a signal, that it had exited at the start. Timed
      out means that the signal was sent and 24 sleeps went by. It fails exactly when a call failed
      or the group was not there. */
  method WaitForLeaderExit(kernel: Kernel, signal: Signal) returns (result: Result)
    requires kernel.Unreaped() && kernel.Custody()
    modifies kernel`world, kernel`kills, kernel`sleeps, kernel`calls
    ensures kernel.Unreaped() && kernel.Custody() && old(kernel.calls) <= kernel.calls
    ensures kernel.kills == old(kernel.kills)
      || SignalledOnce(old(kernel.kills), kernel.kills, signal, old(kernel.sleeps))
    ensures result == Done ==> kernel.world.leader.Zombie?
    ensures result == Done <==> Saw(kernel.calls, |old(kernel.calls)|, Observed(false, true))
    ensures result == Done && kernel.kills == old(kernel.kills) ==>
      kernel.calls == old(kernel.calls) + [Observed(false, true)]
    ensures result == TimedOut ==> kernel.kills != old(kernel.kills) && kernel.sleeps == old(kernel.sleeps) + 24
    ensures result == Failed <==>
      (Troubled(kernel.calls, |old(kernel.calls)|)
       || Saw(kernel.calls, |old(kernel.calls)|, Asked(NoSuchProcess)))
    ensures old(kernel.sleeps) <= kernel.sleeps <= old(kernel.sleeps) + 24
  {
    hide Evolves, Troubled, Saw;
    ghost var start, before := |kernel.calls|, kernel.calls;
    Untroubled(before, start);
    var failed, exited, how := kernel.WaitId();
    OneMore(before, Observed(failed, exited), start);
    if failed { return Failed; }
    if exited { return Done; }
    ghost var asked := kernel.calls;
    failed := SignalPrivateGroup(kernel, signal, false);
    TroubleGrows(asked, kernel.calls, start);
    if failed { return Failed; }
    var attempt := 0;
    while attempt < SCAN_ATTEMPTS
      invariant attempt <= SCAN_ATTEMPTS
      invariant kernel.Unreaped() && kernel.Custody() && before <= kernel.calls
      invariant SignalledOnce(old(kernel.kills), kernel.kills, signal, old(kernel.sleeps))
      invariant kernel.sleeps == old(kernel.sleeps) + attempt
      invariant !Troubled(kernel.calls, start) && !Saw(kernel.calls, start, Asked(NoSuchProcess))
      invariant !Saw(kernel.calls, start, Observed(false, true))
    {
      ghost var now := kernel.calls;
      failed, exited, how := kernel.WaitId();
      OneMore(now, Observed(failed, exited), start);
      if failed { return Failed; }
      if exited { return Done; }
      now := kernel.calls;
      failed := kernel.Sleep();
      OneMore(now, Slept(failed), start);
      if failed { return Failed; }
      attempt := attempt + 1;
    }
    result := TimedOut;
  }

  lemma Untroubled(calls: seq<Call>, from: nat)
    requires from >= |calls|
    ensures !Troubled(calls, from) && forall c :: !Saw(calls, from, c)
  {
  }

  /** SIGTERM comes first if anything does, and SIGKILL to a leader that is alive only after another
      signal and 24 sleeps. */
  ghost predicate Escalates(before: seq<Kill>, after: seq<Kill>, slept: nat) {
    && before <= after
    && (forall k | |before| < k < |after| :: after[k].signal == SIGKILL)
    && (forall k | |before| <= k < |after| && after[k].signal == SIGKILL && after[k].world.leader.Alive? ::
          k > |before| && after[k].slept >= slept + 24)
  }

  lemma LostAt(calls: seq<Call>, mid: nat, from: nat)
    requires from <= mid && Saw(calls, mid, Asked(NoSuchProcess)) && !Saw(calls, from, Observed(false, true))
    ensures LostLeader(calls, from)
  {
    var k :| mid <= k < |calls| && calls[k] == Asked(NoSuchProcess);
    assert forall j | from <= j < k :: calls[j] != Observed(false, true);
  }

  lemma NotLost(calls: seq<Call>, from: nat)
    requires !Saw(calls, from, Asked(NoSuchProcess))
    ensures !LostLeader(calls, from)
  {
  }

  lemma LostNoMore(a: seq<Call>, b: seq<Call>, from: nat)
    requires a <= b && from <= |a| && Saw(a, from, Observed(false, true))
    ensures Saw(b, from, Observed(false, true)) && (LostLeader(b, from) <==> LostLeader(a, from))
  {
    var s :| from <= s < |a| && a[s] == Observed(false, true);
    assert b[s] == Observed(false, true);
    if LostLeader(b, from) {
      var k :| from <= k < |b| && b[k] == Asked(NoSuchProcess)
        && forall j | from <= j < k :: b[j] != Observed(false, true);
      assert k <= s;
      assert a[k] == b[k] && forall j | from <= j < k :: a[j] == b[j];
    }
    if LostLeader(a, from) {
      var k :| from <= k < |a| && a[k] == Asked(NoSuchProcess)
        && forall j | from <= j < k :: a[j] != Observed(false, true);
      assert b[k] == a[k] && forall j | from <= j < k :: a[j] == b[j];
    }
  }

  lemma {:induction false} FullScansGrow(a: seq<Call>, b: seq<Call>, from: nat)
    requires a <= b && from <= |a|
    ensures FullScans(b, from) >= FullScans(a, from)
    ensures forall k | |a| <= k < |b| && FullScan(b[k]) :: FullScans(b, from) > FullScans(a, from)
    decreases |b|
  {
    hide FullScan;
    if |a| < |b| {
      FullScansGrow(a, b[..|b| - 1], from);
      assert forall k | |a| <= k < |b| - 1 :: b[..|b| - 1][k] == b[k];
    } else {
      assert a == b;
    }
  }

  /** What a round of the final loop leaves true of the calls so far. */
  ghost predicate Progress(calls: seq<Call>, from: nat, round: nat) {
    && from <= |calls| && !Troubled(calls, from) && !LostLeader(calls, from)
    && Saw(calls, from, Observed(false, true)) && FullScans(calls, from) >= round
  }

  lemma Progresses(a: seq<Call>, b: seq<Call>, from: nat, round: nat)
    requires Progress(a, from, round) && a <= b
    ensures Progress(b, from, round) <==> !Troubled(b, |a|)
    ensures Troubled(b, |a|) ==> Troubled(b, from)
    ensures forall k | |a| <= k < |b| && FullScan(b[k]) :: Progress(b, from, round + 1) <==> !Troubled(b, |a|)
  {
    hide FullScans, FullScan, Troubled, LostLeader, Saw;
    TroubleGrows(a, b, from);
    LostNoMore(a, b, from);
    FullScansGrow(a, b, from);
  }

  ghost predicate TwoEmptyScans(calls: seq<Call>) {
    var n := |calls|;
    && n >= 4 && EmptyScan(calls[n - 4]) && calls[n - 3] == Slept(false)
    && EmptyScan(calls[n - 2]) && calls[n - 1] == Observed(false, true)
  }

  /** SIGTERM and SIGKILL were sent and the leader was still not seen to exit. */
  ghost predicate Outlived(before: seq<Kill>, after: seq<Kill>, calls: seq<Call>, from: nat) {
    && |after| == |before| + 2 && before <= after
    && after[|before|].signal == SIGTERM && after[|before| + 1].signal == SIGKILL
    && !Saw(calls, from, Observed(false, true))
  }

  /** Done means that the leader has exited and that its group is empty, for good, after two empty scans.
      It fails only if a call failed, the group was not there, the leader outlived both signals, or
      other members were found in 24 rounds. */
  method TerminatePrivateGroup(kernel: Kernel) returns (result: Result)
    requires kernel.Unreaped() && kernel.Custody()
    modifies kernel`world, kernel`kills, kernel`sleeps, kernel`calls
    ensures kernel.Unreaped() && kernel.Custody() && old(kernel.calls) <= kernel.calls
    ensures Escalates(old(kernel.kills), kernel.kills, old(kernel.sleeps))
    ensures result == Done ==> Quiet(kernel.world) && TwoEmptyScans(kernel.calls)
    ensures result == Done ==>
      !Troubled(kernel.calls, |old(kernel.calls)|) && !LostLeader(kernel.calls, |old(kernel.calls)|)
    ensures result != Done ==>
      || Troubled(kernel.calls, |old(kernel.calls)|) || LostLeader(kernel.calls, |old(kernel.calls)|)
      || (Outlived(old(kernel.kills), kernel.kills, kernel.calls, |old(kernel.calls)|)
          && kernel.sleeps == old(kernel.sleeps) + 48)
      || (FullScans(kernel.calls, |old(kernel.calls)|) >= 24 && kernel.sleeps >= old(kernel.sleeps) + 24)
    ensures result != TimedOut && kernel.sleeps <= old(kernel.sleeps) + 96
  {
    hide Evolves, Troubled, Saw, LostLeader, FullScans, Progress;
    ghost var start, before := |kernel.calls|, kernel.calls;
    var leaderExit := EndLeader(kernel);
    if leaderExit != Done { return Failed; }
    var round := 0;
    while round < SCAN_ATTEMPTS
      invariant round <= SCAN_ATTEMPTS
      invariant kernel.Unreaped() && kernel.Custody() && before <= kernel.calls
      invariant Escalates(old(kernel.kills), kernel.kills, old(kernel.sleeps))
      invariant kernel.world.leader.Zombie?
      invariant old(kernel.sleeps) + round <= kernel.sleeps <= old(kernel.sleeps) + 48 + 2 * round
      invariant Progress(kernel.calls, start, round)
    {
      var failed, finished := TerminateRound(kernel, start, round);
      ProgressMeans(kernel.calls, start, round);
      if failed { return Failed; }
      if finished { return Done; }
      round := round + 1;
    }
    ProgressMeans(kernel.calls, start, round);
    result := Failed;
  }

  lemma ProgressMeans(calls: seq<Call>, from: nat, round: nat)
    ensures Progress(calls, from, round) ==>
      !Troubled(calls, from) && !LostLeader(calls, from) && FullScans(calls, from) >= round
  {
  }

  /** Signals sent to the survivors of a leader that has exited. */
  ghost predicate Sweeps(before: seq<Kill>, after: seq<Kill>) {
    && before <= after
    && forall k | |before| <= k < |after| :: after[k].signal == SIGKILL && after[k].world.leader.Zombie?
  }

  /** One round of scans; it ends either with two empty scans or with another member found. */
  method TerminateRound(kernel: Kernel, ghost start: nat, ghost round: nat) returns (failed: bool, finished: bool)
    requires kernel.Unreaped() && kernel.Custody() && kernel.world.leader.Zombie?
    requires Progress(kernel.calls, start, round)
    modifies kernel`world, kernel`kills, kernel`sleeps, kernel`calls
    ensures kernel.Unreaped() && kernel.Custody() && kernel.world.leader.Zombie?
    ensures old(kernel.calls) <= kernel.calls && Sweeps(old(kernel.kills), kernel.kills)
    ensures failed ==> Troubled(kernel.calls, start)
    ensures !failed && finished ==>
      Quiet(kernel.world) && TwoEmptyScans(kernel.calls) && Progress(kernel.calls, start, round)
    ensures !failed && !finished ==>
      Progress(kernel.calls, start, round + 1) && kernel.sleeps >= old(kernel.sleeps) + 1
    ensures kernel.sleeps <= old(kernel.sleeps) + 2
  {
    hide Evolves, Troubled, Saw, LostLeader, FullScans, Progress;
    ghost var before, n := kernel.calls, |kernel.calls|;
    Untroubled(before, n);
    finished := false;
    var exited, how, other;
    failed, exited, how := kernel.WaitId();
    OneMore(before, Observed(failed, exited), n);
    Progresses(before, kernel.calls, start, round);
    if failed || !exited { return true, false; }
    ghost var now := kernel.calls;
    failed, other := GroupHasOther(kernel);
    Logged(now, kernel.calls, n);
    Progresses(before, kernel.calls, start, round);
    if failed { return true, false; }
    if !other {
      now := kernel.calls;
      failed := kernel.Sleep();
      OneMore(now, Slept(failed), n);
      Progresses(before, kernel.calls, start, round);
      if failed { return true, false; }
      now := kernel.calls;
      failed, other := GroupHasOther(kernel);
      Logged(now, kernel.calls, n);
      Progresses(before, kernel.calls, start, round);
      if failed { return true, false; }
      if !other {
        now := kernel.calls;
        failed, exited, how := kernel.WaitId();
        OneMore(now, Observed(failed, exited), n);
        Progresses(before, kernel.calls, start, round);
        if failed || !exited { return true, false; }
        return false, true;
      }
    }
    ghost var full := |kernel.calls| - 1;
    assert FullScan(kernel.calls[full]) && full >= n;
    now := kernel.calls;
    failed := SignalPrivateGroup(kernel, SIGKILL, true);
    TroubleGrows(now, kernel.calls, n);
    Progresses(before, kernel.calls, start, round);
    if failed { return true, false; }
    now := kernel.calls;
    failed := kernel.Sleep();
    OneMore(now, Slept(failed), n);
    assert FullScan(kernel.calls[full]);
    Progresses(before, kernel.calls, start, round);
  }

  lemma Logged(a: seq<Call>, b: seq<Call>, from: nat)
    requires a <= b && |b| == |a| + 1 && from <= |a|
    ensures Troubled(b, from) <==> Troubled(a, from) || Broken(b[|a|])
  {
    hide Troubled;
    OneMore(a, b[|a|], from);
    assert b == a + [b[|a|]];
  }

  /** SIGTERM, and SIGKILL once it has had no effect in time. */
  method EndLeader(kernel: Kernel) returns (result: Result)
    requires kernel.Unreaped() && kernel.Custody()
    modifies kernel`world, kernel`kills, kernel`sleeps, kernel`calls
    ensures kernel.Unreaped() && kernel.Custody() && old(kernel.calls) <= kernel.calls
    ensures Escalates(old(kernel.kills), kernel.kills, old(kernel.sleeps))
    ensures result == Done ==> kernel.world.leader.Zombie? && Progress(kernel.calls, |old(kernel.calls)|, 0)
    ensures result != Done ==>
      || Troubled(kernel.calls, |old(kernel.calls)|) || LostLeader(kernel.calls, |old(kernel.calls)|)
      || (Outlived(old(kernel.kills), kernel.kills, kernel.calls, |old(kernel.calls)|)
          && kernel.sleeps == old(kernel.sleeps) + 48)
    ensures old(kernel.sleeps) <= kernel.sleeps <= old(kernel.sleeps) + 48
  {
    hide Evolves, Troubled, Saw, LostLeader, FullScans;
    ghost var start, before := |kernel.calls|, kernel.calls;
    var first := WaitForLeaderExit(kernel, SIGTERM);
    Untroubled(before, start);
    LeaderWaited(before, kernel.calls, start);
    if first != TimedOut { return first; }
    ghost var mid := kernel.calls;
    result := WaitForLeaderExit(kernel, SIGKILL);
    TroubleGrows(mid, kernel.calls, start);
    LeaderWaited(mid, kernel.calls, start);
  }

  /** What the calls of a wait for the leader come to. */
  lemma LeaderWaited(a: seq<Call>, b: seq<Call>, from: nat)
    requires a <= b && from <= |a| && !Saw(a, from, Observed(false, true)) && !Saw(a, from, Asked(NoSuchProcess))
    ensures Saw(b, from, Observed(false, true)) <==> Saw(b, |a|, Observed(false, true))
    ensures Saw(b, |a|, Asked(NoSuchProcess)) && !Saw(b, |a|, Observed(false, true)) ==> LostLeader(b, from)
    ensures !Saw(b, |a|, Asked(NoSuchProcess)) ==> !LostLeader(b, from)
  {
    hide LostLeader, Saw;
    TroubleGrows(a, b, from);
    if !Saw(b, |a|, Asked(NoSuchProcess)) {
      NotLost(b, from);
    } else if !Saw(b, |a|, Observed(false, true)) {
      LostAt(b, |a|, from);
    }
  }

  method ReapLeader(kernel: Kernel) returns (failed: bool, how: Ending)
    requires kernel.Unreaped()
    modifies kernel`world, kernel`calls
    ensures kernel.calls == old(kernel.calls) + [Waited(!failed)]
    ensures !failed ==> kernel.world.leader == Reaped(how)
    ensures failed ==> kernel.Unreaped()
    ensures Quiet(old(kernel.world)) ==> Quiet(kernel.world)
  {
    var reaped;
    reaped, how := kernel.WaitPid();
    failed := !reaped;
  }

  function ExitStatus(how: Ending): nat {
    match how
    case Exited(code) => code
    case Signaled(number) => 128 + number
  }

  /** What keeps a group from being terminated and its leader from being reaped. */
  ghost predicate Hindered(kills: seq<Kill>, calls: seq<Call>, from: nat) {
    || Troubled(calls, from) || LostLeader(calls, from) || Outlived([], kills, calls, from)
    || FullScans(calls, from) >= 24
  }

  /** After these results the leader is watched no longer. */
  predicate StopsWatch(c: Call) {
    Broken(c) || c == Observed(false, true) || c == Polled(true)
  }

  /** The watch over an executed leader, up to where its end began, lasts until just such a result. */
  ghost predicate Heeded(calls: seq<Call>, began: nat) {
    && 1 <= began <= |calls|
    && forall k | 0 <= k < began :: StopsWatch(calls[k]) <==> k == began - 1
  }

  /** Terminates the group and reaps the leader. */
  method Finish(kernel: Kernel) returns (failed: bool, how: Ending)
    requires kernel.Unreaped() && kernel.Custody() && kernel.kills == []
    modifies kernel`world, kernel`kills, kernel`sleeps, kernel`calls
    ensures kernel.Custody() && Escalates([], kernel.kills, 0) && old(kernel.calls) <= kernel.calls
    ensures failed ==> kernel.Unreaped() && Hindered(kernel.kills, kernel.calls, |old(kernel.calls)|)
    ensures !failed ==> kernel.world.leader == Reaped(how) && Quiet(kernel.world)
  {
    hide Evolves, Troubled, Saw, LostLeader, FullScans;
    ghost var start := |kernel.calls|;
    var terminated := TerminatePrivateGroup(kernel);
    if terminated != Done { return true, Exited(0); }
    ghost var now := kernel.calls;
    failed, how := ReapLeader(kernel);
    OneMore(now, Waited(!failed), start);
  }

  /** The worker after a successful fork: the leader is watched until it ends, a stop is requested, the
      parent is gone or a call fails, and then its group is terminated and it is reaped, unless
      that is hindered. The result is the leader's own status if it was executed and reaped, and
      says that its group is empty for good; otherwise it is 70. */
  method RunWorker() returns (kernel: Kernel, result: nat, ghost began: nat)
    ensures fresh(kernel) && kernel.Custody() && Escalates([], kernel.kills, 0)
    ensures Heeded(kernel.calls, began) && kernel.calls[0].Launched?
    ensures kernel.world.leader.Reaped? || Hindered(kernel.kills, kernel.calls, began)
    ensures !kernel.world.leader.Reaped? || kernel.calls[0] != Launched(0) ==> result == 70
    ensures kernel.world.leader.Reaped? && kernel.calls[0] == Launched(0) ==>
      match kernel.world.leader.how
      case Exited(code) => result == code
      case Signaled(number) => result == 128 + number
    ensures kernel.world.leader.Reaped? ==> forall events :: After(kernel.world, events).members == {}
  {
    hide Evolves, Hindered, Escalates, Troubled;
    kernel := new Kernel(World(Alive, false, {}));
    var execResult := kernel.ReadExecResult();
    ghost var first := kernel.calls;
    began := 1;
    if execResult != 0 {
      var failed, how := Finish(kernel);
      assert kernel.calls[0] == first[0];
      if !failed { EmptyForever(kernel.world); }
      return kernel, FAILURE, began;
    }
    while true
      invariant fresh(kernel) && kernel.Unreaped() && kernel.Custody() && kernel.kills == []
      invariant |kernel.calls| >= 1 && kernel.calls[0] == Launched(0)
      invariant forall k | 0 <= k < |kernel.calls| :: !StopsWatch(kernel.calls[k])
      decreases kernel.patience
    {
      var failed, ended, _ := kernel.WaitId();
      if failed || ended { break; }
      var stop := kernel.Poll();
      if stop { break; }
      failed := kernel.Sleep();
      if failed { break; }
    }
    began := |kernel.calls|;
    ghost var watched := kernel.calls;
    var failed, how := Finish(kernel);
    assert forall k | 0 <= k < began :: kernel.calls[k] == watched[k];
    if failed { return kernel, FAILURE, began; }
    EmptyForever(kernel.world);
    result := ExitStatus(how);
  }
}
