/** One billed image operation: its phases, the worker that sends it, the driver that retries it
    once, and the guard that cancels it. */
module ImageOperation {
  import opened Json

  const MAX_BODY: nat := 256 * 1024

  datatype Phase = Pending | Dispatched | CancelledBeforeDispatch | CancelledAfterDispatch | Finished

  /** What happens to an operation: it is dispatched, the endpoint answers with status 401, another
      error status or 200, and the phase is reset, finished or cancelled. */
  datatype Event =
    | Dispatch
    | Unauthorized
    | Rejected
    | Accepted
    | Reset
    | Finish
    | Cancel(told: bool)

  // ---- histories of an operation ----

  function After(p: Phase, e: Event): Phase {
    match e
    case Dispatch => Dispatched
    case Reset => Pending
    case Finish => Finished
    case Cancel(told) => if told then CancelledAfterDispatch else CancelledBeforeDispatch
    case _ => p
  }

  function PhaseOf(h: seq<Event>): Phase {
    if h == [] then Pending else After(PhaseOf(h[..|h| - 1]), h[|h| - 1])
  }

  function Count(h: seq<Event>, e: Event): (n: nat)
    ensures n <= |h|
  {
    if h == [] then 0 else Count(h[..|h| - 1], e) + if h[|h| - 1] == e then 1 else 0
  }

  predicate MayHaveReached(p: Phase) {
    p.Dispatched? || p.CancelledAfterDispatch? || p.Finished?
  }

  predicate IsCancelled(p: Phase) {
    p.CancelledBeforeDispatch? || p.CancelledAfterDispatch?
  }

  function Refusals(h: seq<Event>): nat {
    Count(h, Unauthorized) + Count(h, Rejected)
  }

  /** What the lock, the network and the worker let happen next: a dispatch while pending, an answer
      to a dispatch, a reset of a dispatch after a 401, and a cancellation told how far it got. */
  ghost predicate Allowed(h: seq<Event>, e: Event) {
    match e
    case Dispatch => PhaseOf(h) == Pending
    case Reset => PhaseOf(h) == Dispatched && Count(h, Reset) < Count(h, Unauthorized)
    case Finish => PhaseOf(h) == Dispatched
    case Cancel(told) => told == MayHaveReached(PhaseOf(h))
    case _ => Refusals(h) + Count(h, Accepted) < Count(h, Dispatch)
  }

  ghost predicate Lawful(h: seq<Event>) {
    h == [] || (Lawful(h[..|h| - 1]) && Allowed(h[..|h| - 1], h[|h| - 1]))
  }

  ghost predicate EverCancelled(h: seq<Event>) {
    exists i | 0 <= i < |h| :: h[i].Cancel?
  }

  lemma Extend(h: seq<Event>, e: Event)
    ensures PhaseOf(h + [e]) == After(PhaseOf(h), e)
    ensures Lawful(h + [e]) <==> Lawful(h) && Allowed(h, e)
    ensures forall x :: Count(h + [e], x) == Count(h, x) + if x == e then 1 else 0
    ensures EverCancelled(h + [e]) <==> EverCancelled(h) || e.Cancel?
  {
    var g := h + [e];
    assert g[..|g| - 1] == h && g[|h|] == e;
    assert forall i | 0 <= i < |h| :: g[i] == h[i];
  }

  /** The phase tells whether a dispatch stands that no reset has taken back, and whether the
      operation was cancelled. */
  lemma {:induction false} PhaseMeans(h: seq<Event>)
    requires Lawful(h)
    ensures Count(h, Dispatch) == Count(h, Reset) + if MayHaveReached(PhaseOf(h)) then 1 else 0
    ensures IsCancelled(PhaseOf(h)) <==> EverCancelled(h)
    ensures Count(h, Reset) <= Count(h, Unauthorized)
    ensures Refusals(h) + Count(h, Accepted) <= Count(h, Dispatch)
    decreases |h|
  {
    if h != [] {
      var init, e := h[..|h| - 1], h[|h| - 1];
      PhaseMeans(init);
      assert h == init + [e];
      Extend(init, e);
    }
  }

  lemma {:induction false} LawfulAt(h: seq<Event>, i: nat)
    requires Lawful(h) && i <= |h|
    ensures Lawful(h[..i]) && (i < |h| ==> Allowed(h[..i], h[i]))
    decreases |h|
  {
    if i == |h| {
      assert h[..i] == h;
    } else {
      assert h[..|h| - 1][..i] == h[..i];
      LawfulAt(h[..|h| - 1], i);
    }
  }

  /** A dispatch only ever follows one that was answered 401 and reset, and no cancellation. */
  lemma DispatchFollowsReset(h: seq<Event>, i: nat)
    requires Lawful(h) && i < |h| && h[i] == Dispatch
    ensures Count(h[..i], Dispatch) == Count(h[..i], Reset) <= Count(h[..i], Unauthorized)
    ensures forall k | 0 <= k < i :: !h[k].Cancel?
  {
    LawfulAt(h, i);
    PhaseMeans(h[..i]);
    assert !EverCancelled(h[..i]);
    assert forall k | 0 <= k < i :: h[..i][k] == h[k];
  }

  /** Cancelling says no exactly when every dispatch so far was reset by a 401. */
  lemma CancelTells(h: seq<Event>, i: nat)
    requires Lawful(h) && i < |h| && h[i].Cancel?
    ensures !h[i].told <==> Count(h[..i], Dispatch) == Count(h[..i], Reset)
  {
    LawfulAt(h, i);
    PhaseMeans(h[..i]);
  }

  // ---- the operation as an object ----

  ghost predicate Added(h: seq<Event>, g: seq<Event>, e: Event) {
    && g == h + [e]
    && (forall x :: Count(g, x) == Count(h, x) + if x == e then 1 else 0)
    && (EverCancelled(g) <==> EverCancelled(h) || e.Cancel?)
  }

  function AnswerEvent(status: nat): Event {
    if status == 401 then Unauthorized else if status == 200 then Accepted else Rejected
  }

  datatype Begin = Began | RefusedCancelled | RefusedTwice

  datatype Kind =
    | Authentication
    | Cancelled
    | Disconnected
    | OutcomeUnknown
    | Process
    | Protocol
    | ResourceLimit
    | Rpc
    | Timeout
    | Other

  datatype Answer = NoAnswer | Status(code: nat)

  class ImageOperationState {
    var phase: Phase
    ghost var history: seq<Event>

    constructor ()
      ensures Valid() && history == []
    {
      phase, history := Pending, [];
    }

    ghost predicate Valid()
      reads this
    {
      Lawful(history) && phase == PhaseOf(history)
    }

    ghost method Record(e: Event)
      requires Lawful(history) && Allowed(history, e)
      modifies this`history
      ensures Lawful(history) && Added(old(history), history, e)
      ensures PhaseOf(history) == After(PhaseOf(old(history)), e)
    {
      Extend(history, e);
      history := history + [e];
    }

    method BeginDispatch() returns (begin: Begin)
      requires Valid()
      modifies this
      ensures Valid()
      ensures if begin.Began? then Added(old(history), history, Dispatch) else history == old(history)
      ensures begin.Began? <==> old(phase).Pending?
      ensures begin.Began? ==> phase == Dispatched
      ensures begin.RefusedCancelled? <==> EverCancelled(old(history))
    {
      PhaseMeans(history);
      match phase
      case Pending =>
        phase := Dispatched;
        begin := Began;
        Record(Dispatch);
      case CancelledBeforeDispatch => begin := RefusedCancelled;
      case CancelledAfterDispatch => begin := RefusedCancelled;
      case Dispatched => begin := RefusedTwice;
      case Finished => begin := RefusedTwice;
    }

    /** Called by the worker after a 401 that no reset has followed. */
    method ResetAfterUnauthorized() returns (reset: bool)
      requires Valid() && Count(history, Reset) < Count(history, Unauthorized)
      modifies this
      ensures Valid()
      ensures if reset then Added(old(history), history, Reset) else history == old(history)
      ensures reset <==> old(phase).Dispatched?
      ensures reset ==> phase == Pending
    {
      reset := phase.Dispatched?;
      if reset {
        phase := Pending;
        Record(Reset);
      }
    }

    method FinishDispatch()
      requires Valid()
      modifies this
      ensures Valid()
      ensures if old(phase).Dispatched? then Added(old(history), history, Finish) else history == old(history)
    {
      if phase.Dispatched? {
        phase := Finished;
        Record(Finish);
      }
    }

    method Cancel() returns (told: bool)
      requires Valid()
      modifies this
      ensures Valid() && Added(old(history), history, Event.Cancel(told))
      ensures told <==> Count(old(history), Dispatch) > Count(old(history), Reset)
    {
      PhaseMeans(history);
      ghost var before := phase;
      match phase {
        case Pending =>
          phase := CancelledBeforeDispatch;
          told := false;
        case Dispatched =>
          phase := CancelledAfterDispatch;
          told := true;
        case Finished =>
          phase := CancelledAfterDispatch;
          told := true;
        case CancelledBeforeDispatch => told := false;
        case CancelledAfterDispatch => told := true;
      }
      Record(Event.Cancel(told));
    }

    method CancellationError() returns (kind: Kind)
      requires Valid()
      ensures kind == if Count(history, Dispatch) > Count(history, Reset) then OutcomeUnknown else Kind.Cancelled
    {
      PhaseMeans(history);
      kind := if MayHaveReached(phase) then OutcomeUnknown else Kind.Cancelled;
    }

    method Cancelled() returns (cancelled: bool)
      requires Valid()
      ensures cancelled <==> EverCancelled(history)
    {
      PhaseMeans(history);
      cancelled := IsCancelled(phase);
    }

    method IsDispatched() returns (dispatched: bool)
      requires Valid()
      ensures dispatched <==> Count(history, Dispatch) > Count(history, Reset)
    {
      PhaseMeans(history);
      dispatched := MayHaveReached(phase);
    }

    /** Others may cancel the operation any number of times. */
    method Interleave(cancels: nat)
      requires Valid()
      modifies this
      ensures Valid() && OnlyCancelled(old(history), history)
      ensures if cancels == 0 then history == old(history) else EverCancelled(history)
    {
      for i := 0 to cancels
        invariant Valid() && OnlyCancelled(old(history), history)
        invariant if i == 0 then history == old(history) else EverCancelled(history)
      {
        var _ := Cancel();
      }
    }

    /** The endpoint's answer to the dispatch that stands, if one comes. */
    method Receive(answer: Answer)
      requires Valid() && Refusals(history) + Count(history, Accepted) < Count(history, Dispatch)
      modifies this`history
      ensures Valid()
      ensures match answer
        case NoAnswer => history == old(history)
        case Status(code) => Added(old(history), history, AnswerEvent(code))
    {
      match answer
      case NoAnswer =>
      case Status(code) => Record(AnswerEvent(code));
    }
  }

  /** Nothing but cancellations has been added. */
  ghost predicate OnlyCancelled(h: seq<Event>, g: seq<Event>) {
    h <= g && (forall e: Event | !e.Cancel? :: Count(g, e) == Count(h, e)) && (EverCancelled(h) ==> EverCancelled(g))
  }

  // ---- the worker ----

  datatype Crash = NoCrash | BeforeDispatch | BeforeAnswer | AfterAnswer

  /** Everything that one attempt does not decide itself: how its preparation fails, what the
      endpoint answers, whether a response can be read and parsed, where the worker crashes, and how
      often others cancel at each of the places where they can. */
  datatype Attempt = Attempt(
    failure: Option<Kind>, late: bool, body: Option<nat>,
    answer: Answer, readable: bool, parsed: bool, crash: Crash, cancels: seq<nat>)
  {
    function Cancels(place: nat): nat {
      if place < |cancels| then cancels[place] else 0
    }

    /** A response with status 200 is read and parsed, and nobody cancels before the last look. */
    predicate Readable() {
      readable && parsed && Cancels(5) == 0 && Cancels(6) == 0
    }

    /** The body is sent. */
    predicate Dispatches() {
      !crash.BeforeDispatch? && body.Some? && body.value <= 256 * 1024 && Cancels(2) == 0
    }

    /** The body is sent and the answer is settled without a cancellation before. */
    predicate Settles() {
      Dispatches() && crash.NoCrash? && Cancels(3) == 0 && Cancels(4) == 0
    }

    /** The worker crashes after a dispatch that no error status has answered. */
    predicate Loses() {
      crash.BeforeAnswer? || (crash.AfterAnswer? && (answer.NoAnswer? || answer.code == 200))
    }
  }

  datatype Sent = Response | Refused401 | Failed(kind: Kind) | Crashed

  /** Every dispatch was answered, and none with success. */
  ghost predicate Refused(h: seq<Event>) {
    Count(h, Dispatch) == Refusals(h) && Count(h, Accepted) == 0
  }

  /** What one sending adds: at most one dispatch and its answer, and whatever others cancel. */
  ghost predicate OneMore(h: seq<Event>, g: seq<Event>) {
    && h <= g
    && Count(h, Dispatch) <= Count(g, Dispatch) <= Count(h, Dispatch) + 1
    && (EverCancelled(h) ==> Count(g, Dispatch) == Count(h, Dispatch))
  }

  ghost predicate Cancellations(h: seq<Event>, g: seq<Event>) {
    && h <= g && (forall e | e in {Dispatch, Unauthorized, Rejected, Accepted} :: Count(g, e) == Count(h, e))
    && (EverCancelled(h) ==> EverCancelled(g))
  }

  lemma CancelledThen(a: seq<Event>, b: seq<Event>, c: seq<Event>)
    requires (a == b || Cancellations(a, b)) && OnlyCancelled(b, c)
    ensures Cancellations(a, c)
    ensures EverCancelled(b) ==> EverCancelled(c)
  {
    hide Count;
  }

  /** Reading a response with status 200: a response, or an outcome that stays unknown. */
  method ReadResponse(operation: ImageOperationState, a: Attempt) returns (sent: Sent)
    requires operation.Valid() && Count(operation.history, Accepted) > 0
    modifies operation
    ensures operation.Valid() && old(operation.history) <= operation.history
    ensures forall e | e in {Dispatch, Unauthorized, Rejected, Accepted} ::
      Count(operation.history, e) == Count(old(operation.history), e)
    ensures sent == if a.Readable() && !EverCancelled(old(operation.history)) then Response else Failed(OutcomeUnknown)
    ensures a.cancels == [] && old(operation.phase).Dispatched? ==>
      operation.history == old(operation.history) + if sent.Response? then [Finish] else []
  {
    hide Lawful, PhaseOf, Count, EverCancelled, OnlyCancelled;
    ghost var start := operation.history;
    operation.Interleave(a.Cancels(5));
    ghost var read := operation.history;
    CancelledThen(start, start, read);
    if !a.readable { return Failed(OutcomeUnknown); }
    var cancelled := operation.Cancelled();
    operation.Interleave(a.Cancels(6));
    ghost var parsed := operation.history;
    CancelledThen(start, read, parsed);
    if !cancelled && a.parsed {
      cancelled := operation.Cancelled();
      operation.Interleave(a.Cancels(7));
      CancelledThen(start, parsed, operation.history);
    } else if !cancelled {
      return Failed(OutcomeUnknown);
    }
    if cancelled {
      PhaseMeans(operation.history);
      var kind := operation.CancellationError();
      return Failed(kind);
    }
    operation.FinishDispatch();
    sent := Response;
  }

  /** A dispatch stands that has not been answered, all others having been refused. */
  ghost predicate Standing(h: seq<Event>) {
    Count(h, Dispatch) == Refusals(h) + 1 && Count(h, Accepted) == 0
  }

  /** What the result of an attempt says about its dispatches: nothing stays open after a 401 or a
      known error, and a crash leaves one open exactly when no error status was recorded. */
  ghost predicate Tells(sent: Sent, h: seq<Event>, a: Attempt) {
    match sent
    case Response => Count(h, Accepted) == 1
    case Refused401 => Refused(h)
    case Failed(kind) => kind != OutcomeUnknown ==> Refused(h)
    case Crashed => Refused(h) <==> !a.Loses()
  }

  /** What the worker makes of an answer, by whether the operation was cancelled before. */
  ghost predicate Settled(sent: Sent, a: Attempt, cancelled: bool) {
    && (sent.Refused401? <==> a.answer == Status(401))
    && (sent.Response? <==> a.answer == Status(200) && a.Readable() && !cancelled)
    && (sent == Failed(Rpc) <==> a.answer.Status? && a.answer.code != 401 && a.answer.code != 200)
    && (sent == Failed(OutcomeUnknown) <==>
        a.answer.NoAnswer? || (a.answer == Status(200) && !(a.Readable() && !cancelled)))
  }

  /** What an answer adds to the history of a dispatch that nobody cancels. */
  ghost predicate Answered(a: Attempt, h: seq<Event>, g: seq<Event>) {
    if a.crash.BeforeAnswer? || a.answer.NoAnswer? then g == h
    else if a.answer == Status(401) then g == h + if a.crash.NoCrash? then [Unauthorized, Reset] else [Unauthorized]
    else if a.answer == Status(200) then
      g == h + if a.crash.NoCrash? && a.readable && a.parsed then [Accepted, Finish] else [Accepted]
    else g == h + if a.crash.NoCrash? then [Rejected, Finish] else [Rejected]
  }

  /** The answer to the dispatch that stands. */
  method Resolve(operation: ImageOperationState, a: Attempt) returns (sent: Sent)
    requires operation.Valid() && Standing(operation.history) && !a.crash.BeforeDispatch?
    modifies operation
    ensures operation.Valid() && old(operation.history) <= operation.history
    ensures Count(operation.history, Dispatch) == Count(old(operation.history), Dispatch)
    ensures Tells(sent, operation.history, a) && (sent.Crashed? <==> !a.crash.NoCrash?)
    ensures sent.Refused401? ==> Count(operation.history, Unauthorized) > Count(old(operation.history), Unauthorized)
    ensures a.crash.BeforeAnswer? ==> operation.history == old(operation.history)
    ensures a.crash.NoCrash? ==>
      Settled(sent, a, EverCancelled(old(operation.history)) || a.Cancels(4) > 0)
    ensures a.cancels == [] && old(operation.phase).Dispatched? ==>
      Answered(a, old(operation.history), operation.history)
    ensures EverCancelled(old(operation.history)) || (a.crash.NoCrash? && a.Cancels(4) > 0) ==>
      EverCancelled(operation.history)
    ensures a.crash.NoCrash? && a.answer == Status(401) && a.Cancels(4) == 0 && old(operation.phase).Dispatched? ==>
      operation.phase == Pending
  {
    hide Lawful, PhaseOf, Count;
    PhaseMeans(operation.history);
    if a.crash.BeforeAnswer? { return Crashed; }
    PhaseMeans(operation.history);
    operation.Receive(a.answer);
    operation.Interleave(a.Cancels(4));
    if a.crash.AfterAnswer? { return Crashed; }
    sent := Settle(operation, a);
  }

  /** The history once the answer of an attempt is in. */
  ghost predicate AnswerIn(h: seq<Event>, answer: Answer) {
    match answer
    case NoAnswer => Standing(h)
    case Status(code) => if code == 200 then Count(h, Accepted) == 1 else Refused(h)
  }

  /** What the worker makes of the answer. */
  method Settle(operation: ImageOperationState, a: Attempt) returns (sent: Sent)
    requires operation.Valid() && AnswerIn(operation.history, a.answer)
    requires a.answer == Status(401) ==> Count(operation.history, Reset) < Count(operation.history, Unauthorized)
    modifies operation
    ensures operation.Valid() && old(operation.history) <= operation.history
    ensures forall e | e in {Dispatch, Unauthorized} ::
      Count(operation.history, e) == Count(old(operation.history), e)
    ensures Tells(sent, operation.history, a) && !sent.Crashed?
    ensures Settled(sent, a, EverCancelled(old(operation.history)))
    ensures EverCancelled(old(operation.history)) ==> EverCancelled(operation.history)
    ensures a.answer == Status(401) && old(operation.phase).Dispatched? ==> operation.phase == Pending
    ensures a.cancels == [] && old(operation.phase).Dispatched? ==>
      operation.history == old(operation.history) +
        match a.answer
        case NoAnswer => []
        case Status(code) =>
          if code == 401 then [Reset] else if code != 200 || (a.readable && a.parsed) then [Finish] else []
  {
    hide Lawful, PhaseOf, Count;
    PhaseMeans(operation.history);
    match a.answer
    case NoAnswer =>
      var dispatched := operation.IsDispatched();
      sent := Failed(if dispatched then OutcomeUnknown else Disconnected);
    case Status(code) =>
      if code == 401 {
        var _ := operation.ResetAfterUnauthorized();
        sent := Refused401;
      } else if code != 200 {
        operation.FinishDispatch();
        sent := Failed(Rpc);
      } else {
        sent := ReadResponse(operation, a);
      }
  }

  /** What sending does when nobody cancels. */
  ghost predicate Sends(a: Attempt, h: seq<Event>, g: seq<Event>, sent: Sent) {
    if a.crash.BeforeDispatch? then sent == Crashed && g == h
    else if a.body.None? then sent == Failed(Protocol) && g == h
    else if a.body.value > 256 * 1024 then sent == Failed(ResourceLimit) && g == h
    else
      && Answered(a, h + [Dispatch], g)
      && (if a.crash.NoCrash? then Settled(sent, a, false) else sent == Crashed)
  }

  /** Dispatch a body and await the answer. */
  method SendImageRequest(operation: ImageOperationState, a: Attempt) returns (sent: Sent)
    requires operation.Valid() && Refused(operation.history)
    modifies operation
    ensures operation.Valid() && OneMore(old(operation.history), operation.history)
    ensures Count(operation.history, Dispatch) == Count(old(operation.history), Dispatch) ==> Refused(operation.history)
    ensures Count(operation.history, Dispatch) > Count(old(operation.history), Dispatch) ==>
      Tells(sent, operation.history, a) && (sent.Crashed? <==> !a.crash.NoCrash?)
    ensures sent.Response? || sent.Refused401? ==>
      Count(operation.history, Dispatch) > Count(old(operation.history), Dispatch)
    ensures sent.Refused401? ==> Count(operation.history, Unauthorized) > Count(old(operation.history), Unauthorized)
    ensures a.body.None? || a.body.value > MAX_BODY ==> operation.history == old(operation.history)
    ensures sent.Response? <==>
      old(operation.phase).Pending? && a.Settles() && a.answer == Status(200) && a.Readable()
    ensures sent.Refused401? <==>
      old(operation.phase).Pending? && a.Dispatches() && a.crash.NoCrash? && a.answer == Status(401)
    ensures EverCancelled(old(operation.history)) || a.Cancels(2) > 0 ==>
      !a.crash.BeforeDispatch? && a.body.Some? && a.body.value <= 256 * 1024 ==> sent == Failed(Kind.Cancelled)
    ensures sent.Refused401? ==>
      if a.Settles() then operation.phase == Pending else EverCancelled(operation.history)
    ensures a.cancels == [] && old(operation.phase).Pending? ==>
      Sends(a, old(operation.history), operation.history, sent)
  {
    hide Lawful, PhaseOf, Count, Tells;
    PhaseMeans(operation.history);
    if a.crash.BeforeDispatch? { return Crashed; }
    if a.body.None? { return Failed(Protocol); }
    if a.body.value > MAX_BODY { return Failed(ResourceLimit); }
    operation.Interleave(a.Cancels(2));
    var begin := operation.BeginDispatch();
    match begin {
      case RefusedCancelled => return Failed(Kind.Cancelled);
      case RefusedTwice => return Failed(Protocol);
      case Began =>
    }
    operation.Interleave(a.Cancels(3));
    sent := Resolve(operation, a);
  }

  /** An attempt that is prepared in time, with a body of admissible size, and not cancelled. */
  predicate Straight(a: Attempt) {
    a.failure.None? && !a.late && a.body.Some? && a.body.value <= MAX_BODY && a.cancels == []
  }

  // ---- the driver ----

  datatype Generated = Image | Error(kind: Kind)

  /** Before each attempt: authentication, itself awaited, between two looks at the phase. */
  method Prepare(operation: ImageOperationState, a: Attempt) returns (error: Option<Kind>)
    requires operation.Valid()
    modifies operation
    ensures operation.Valid() && OnlyCancelled(old(operation.history), operation.history)
    ensures error.None? <==>
      !EverCancelled(old(operation.history)) && a.failure.None? && a.Cancels(0) == 0 && !a.late
    ensures error.None? ==>
      if a.Cancels(1) == 0 then operation.history == old(operation.history) else EverCancelled(operation.history)
    ensures a.cancels == [] && !EverCancelled(old(operation.history)) ==>
      && operation.history == old(operation.history)
      && error == if a.failure.Some? then a.failure else if a.late then Some(Timeout) else None
    ensures EverCancelled(old(operation.history)) ==>
      error == Some(if Count(old(operation.history), Dispatch) > Count(old(operation.history), Reset)
                    then OutcomeUnknown else Kind.Cancelled)
  {
    hide Lawful, PhaseOf, Count;
    var cancelled := operation.Cancelled();
    if !cancelled {
      operation.Interleave(a.Cancels(0));
      if a.failure.Some? { return a.failure; }
      cancelled := operation.Cancelled();
    }
    if cancelled {
      var kind := operation.CancellationError();
      return Some(kind);
    }
    operation.Interleave(a.Cancels(1));
    error := if a.late then Some(Timeout) else None;
  }

  function Report(sent: Sent): Generated {
    match sent
    case Response => Image
    case Refused401 => Error(Authentication)
    case Failed(kind) => Error(kind)
    case Crashed => Error(Process)
  }

  lemma NoHistory()
    ensures Lawful([]) && Refused([]) && !EverCancelled([]) && PhaseOf([]) == Pending && forall e :: Count([], e) == 0
  {
  }

  /** Which of the two attempts lost its dispatch, if one did. */
  ghost predicate Lost(h: seq<Event>, first: Attempt, second: Attempt) {
    (Count(h, Dispatch) == 1 && first.Loses()) || (Count(h, Dispatch) == 2 && second.Loses())
  }

  /** An attempt is prepared in time and not cancelled until its body is to be sent. */
  predicate Prepares(a: Attempt) {
    a.failure.None? && !a.late && a.Cancels(0) == 0 && a.Cancels(1) == 0
  }

  /** The endpoint answers a dispatch with a response that is read before anybody cancels. */
  predicate Delivers(a: Attempt) {
    Prepares(a) && a.Settles() && a.answer == Status(200) && a.Readable()
  }

  /** The first attempt delivers, or it is refused with status 401 and the second delivers. */
  predicate Due(first: Attempt, second: Attempt) {
    Delivers(first) || (Prepares(first) && first.Settles() && first.answer == Status(401) && Delivers(second))
  }

  /** A dispatched attempt that nobody cancels and whose worker does not crash. */
  predicate Plain(a: Attempt) { Straight(a) && a.crash.NoCrash? }

  predicate Good(a: Attempt) { a.answer == Status(200) && a.readable && a.parsed }

  /** What becomes of a plain attempt, by the answer alone, and its history. */
  function Verdict(a: Attempt): Generated {
    match a.answer
    case NoAnswer => Error(OutcomeUnknown)
    case Status(code) =>
      if code == 401 then Error(Authentication)
      else if code != 200 then Error(Rpc)
      else if Good(a) then Image else Error(OutcomeUnknown)
  }

  function Trace(a: Attempt): seq<Event> {
    match a.answer
    case NoAnswer => [Dispatch]
    case Status(code) =>
      if code == 401 then [Dispatch, Unauthorized, Reset]
      else if code != 200 then [Dispatch, Rejected, Finish]
      else if Good(a) then [Dispatch, Accepted, Finish] else [Dispatch, Accepted]
  }

  /** The result and the history of a run that nobody cancels. */
  ghost predicate Uncancelled(first: Attempt, second: Attempt, result: Generated, h: seq<Event>) {
    && (Plain(first) && first.answer != Status(401) ==> result == Verdict(first) && h == Trace(first))
    && (Plain(first) && first.answer == Status(401) && Plain(second) ==>
        result == Verdict(second) && h == Trace(first) + Trace(second))
    && (Straight(first) && first.crash.BeforeAnswer? ==> result == Error(Process) && h == [Dispatch])
    && (first.cancels == [] && !first.crash.BeforeDispatch? && !Straight(first) ==>
        && h == []
        && result == Error(
             if first.failure.Some? then first.failure.value
             else if first.late then Timeout
             else if first.body.None? then Protocol else ResourceLimit))
  }

  /** One attempt, prepared and sent. */
  method TryOnce(operation: ImageOperationState, a: Attempt) returns (sent: Sent)
    requires operation.Valid() && Refused(operation.history)
    modifies operation
    ensures operation.Valid() && OneMore(old(operation.history), operation.history)
    ensures Count(operation.history, Dispatch) == Count(old(operation.history), Dispatch) ==> Refused(operation.history)
    ensures Count(operation.history, Dispatch) > Count(old(operation.history), Dispatch) ==>
      Tells(sent, operation.history, a) && (sent.Crashed? <==> !a.crash.NoCrash?)
    ensures sent.Response? || sent.Refused401? ==>
      Count(operation.history, Dispatch) > Count(old(operation.history), Dispatch)
    ensures sent.Response? <==> old(operation.phase).Pending? && Delivers(a)
    ensures sent.Refused401? <==>
      old(operation.phase).Pending? && Prepares(a) && a.Dispatches() && a.crash.NoCrash? && a.answer == Status(401)
    ensures sent.Refused401? ==>
      if a.Settles() then operation.phase == Pending else EverCancelled(operation.history)
    ensures a.cancels == [] && old(operation.phase).Pending? ==>
      Tries(a, old(operation.history), operation.history, sent)
  {
    hide Lawful, PhaseOf, Count, Tells, Sends, Refused, Attempt.Dispatches, Attempt.Settles, Attempt.Readable;
    PhaseMeans(operation.history);
    ghost var before := operation.history;
    var failure := Prepare(operation, a);
    Unsent(before, operation.history);
    if failure.Some? { return Failed(failure.value); }
    PhaseMeans(operation.history);
    sent := SendImageRequest(operation, a);
  }

  ghost predicate Tries(a: Attempt, h: seq<Event>, g: seq<Event>, sent: Sent) {
    if a.failure.Some? then g == h && sent == Failed(a.failure.value)
    else if a.late then g == h && sent == Failed(Timeout)
    else Sends(a, h, g, sent)
  }

  lemma Unsent(h: seq<Event>, g: seq<Event>)
    requires OnlyCancelled(h, g)
    ensures OneMore(h, g) && Count(g, Dispatch) == Count(h, Dispatch)
    ensures Refused(g) <==> Refused(h)
  {
    hide Count;
  }

  lemma FirstSettles(a: Attempt)
    ensures a.cancels == [] && a.Dispatches() && a.crash.NoCrash? ==> a.Settles()
  {
  }

  lemma TriedPlainly(a: Attempt, h: seq<Event>, g: seq<Event>, sent: Sent)
    requires a.cancels == [] && Tries(a, h, g, sent)
    ensures Plain(a) ==> g == h + Trace(a) && Report(sent) == Verdict(a)
    ensures Straight(a) && a.crash.BeforeAnswer? ==> g == h + [Dispatch] && sent == Crashed
    ensures Straight(a) ==> (sent.Refused401? <==> a.answer == Status(401) && a.crash.NoCrash?)
    ensures !Straight(a) ==> !sent.Refused401?
    ensures !a.crash.BeforeDispatch? && !Straight(a) ==>
      && g == h
      && Report(sent) == Error(
           if a.failure.Some? then a.failure.value
           else if a.late then Timeout
           else if a.body.None? then Protocol else ResourceLimit)
  {
    assert a.Readable() <==> a.readable && a.parsed;
  }

  lemma RunUncancelled(
    first: Attempt, second: Attempt, h: seq<Event>, refused: Sent, g: seq<Event>, sent: Sent)
    requires first.cancels == [] ==> Tries(first, [], h, refused)
    requires !refused.Refused401? ==> g == h && sent == refused
    requires refused.Refused401? && first.cancels == [] && second.cancels == [] ==> Tries(second, h, g, sent)
    ensures Uncancelled(first, second, Report(sent), g)
  {
    hide Tries, Trace, Verdict;
    if first.cancels == [] {
      TriedPlainly(first, [], h, refused);
      assert [] + Trace(first) == Trace(first) && [] + [Dispatch] == [Dispatch];
    }
    if refused.Refused401? && first.cancels == [] && second.cancels == [] { TriedPlainly(second, h, g, sent); }
  }

  /** At most two dispatches, however others cancel meanwhile. A known error leaves open what became
      of a dispatch exactly when the worker crashed before an error status was recorded. A driver
      that is dropped where it waits leaves a history that begins one of these. */
  method GenerateImageWithRetry(operation: ImageOperationState, first: Attempt, second: Attempt)
    returns (result: Generated)
    requires operation.Valid() && operation.history == []
    modifies operation
    ensures operation.Valid() && Count(operation.history, Dispatch) <= 2
    ensures result.Image? ==> Count(operation.history, Accepted) == 1
    ensures result.Error? && result.kind != OutcomeUnknown ==>
      (Refused(operation.history) <==> !Lost(operation.history, first, second))
    ensures result.Image? <==> Due(first, second)
    ensures Uncancelled(first, second, result, operation.history)
  {
    hide Lawful, PhaseOf, Count, Sends, Prepares, Attempt.Dispatches, Attempt.Readable, Uncancelled, Tries;
    NoHistory();
    var sent := TryOnce(operation, first);
    ghost var h, refused := operation.history, sent;
    if sent.Refused401? {
      PhaseMeans(operation.history);
      FirstSettles(first);
      sent := TryOnce(operation, second);
    }
    result := Report(sent);
    RunUncancelled(first, second, h, refused, operation.history, sent);
  }

  // ---- the guard ----

  class ImageOperationGuard {
    const operation: ImageOperationState
    var armed: bool

    constructor (operation: ImageOperationState)
      ensures this.operation == operation && armed
    {
      this.operation, armed := operation, true;
    }

    method Disarm()
      modifies this
      ensures !armed
    {
      armed := false;
    }

    /** Says whether the client has to disconnect, because a dispatch may have reached the endpoint. */
    method Drop() returns (disconnect: bool)
      requires operation.Valid()
      modifies operation
      ensures operation.Valid()
      ensures armed ==> Added(old(operation.history), operation.history, Event.Cancel(disconnect))
      ensures !armed ==> !disconnect && operation.history == old(operation.history)
      ensures armed ==> (disconnect <==> Count(old(operation.history), Dispatch) > Count(old(operation.history), Reset))
    {
      disconnect := false;
      if armed { disconnect := operation.Cancel(); }
    }
  }

  /** After an unknown outcome the operation is cancelled, and the client disconnects exactly when a
      dispatch was not reset. After any other result the guard is disarmed, also when a crash lost a
      dispatch. */
  method GenerateImage(first: Attempt, second: Attempt)
    returns (result: Generated, disconnect: bool, operation: ImageOperationState)
    ensures operation.Valid() && Count(operation.history, Dispatch) <= 2
    ensures result.Image? ==> Count(operation.history, Accepted) == 1
    ensures result == Error(OutcomeUnknown) ==> EverCancelled(operation.history)
    ensures result == Error(OutcomeUnknown) ==>
      (disconnect <==> Count(operation.history, Dispatch) > Count(operation.history, Reset))
    ensures result != Error(OutcomeUnknown) ==> !disconnect
    ensures result.Error? && result.kind != OutcomeUnknown ==>
      (Refused(operation.history) <==> !Lost(operation.history, first, second))
    ensures result.Image? <==> Due(first, second)
    ensures exists h ::
      && Uncancelled(first, second, result, h)
      && (if result == Error(OutcomeUnknown) then operation.history == h + [Event.Cancel(disconnect)]
          else operation.history == h)
  {
    hide Lawful, PhaseOf, Count;
    operation := new ImageOperationState();
    var guard := new ImageOperationGuard(operation);
    result := GenerateImageWithRetry(operation, first, second);
    if result != Error(OutcomeUnknown) { guard.Disarm(); }
    disconnect := guard.Drop();
  }

  /** Such a run leaves its one dispatch standing: neither refused nor reset nor cancelled. */
  lemma CrashLeavesDispatch(a: Attempt)
    ensures a.crash.BeforeAnswer? ==> a.Loses()
    ensures Lawful([Dispatch]) && PhaseOf([Dispatch]) == Dispatched && !EverCancelled([Dispatch])
    ensures !Refused([Dispatch]) && Lost([Dispatch], a, a) == a.Loses()
  {
    hide Lawful, PhaseOf, Count, EverCancelled;
    NoHistory();
    Extend([], Dispatch);
    assert [] + [Dispatch] == [Dispatch];
  }
}
