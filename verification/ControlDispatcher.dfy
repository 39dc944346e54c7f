/** The one-slot request dispatcher between the maintenance shell and the application owner.
    Every critical section is one atomic step; Inspect runs between two of them, unlocked. */
module ControlDispatcher {
  import opened Arithmetic

  newtype uint64 = x: int | 0 <= x < 0x1_0000_0000_0000_0000

  const ID_LIMIT: nat := 0x1_0000_0000_0000_0000
  const GENERATION_LIMIT: nat := 0x1_0000_0000
  const OWNER_REQUEST_TIMEOUT_MS: nat := 30000
  const LAST_OPERATION: nat := 26    // kDisplayModelReset
  const FIRST_MUTATION: nat := 16    // kTimeSync

  datatype ControlStatus =
    | Ok
    | Pending
    | InvalidArgument
    | Denied
    | QueueFull
    | Timeout
    | CancelledBeforeStart
    | Busy
    | Unavailable
    | UnknownOutcome

  /** `texts` stands for the two secret text fields. */
  datatype ControlRequest = ControlRequest(operation: nat, usbLocal: bool, confirmed: bool, texts: seq<char>, values: seq<int>)
  datatype ControlResult = ControlResult(image: seq<int>)
  datatype ControlTicket = ControlTicket(id: nat, generation: nat)
  datatype Phase = Idle | Queued | Executing | Complete

  const EMPTY_RESULT: ControlResult := ControlResult([])
  const EMPTY_REQUEST: ControlRequest := ControlRequest(0, true, false, [], [])

  predicate IsMutation(operation: nat) { operation >= FIRST_MUTATION }

  function ClearSecrets(r: ControlRequest): ControlRequest { r.(texts := []) }

  /** Milliseconds since `start` on the wrapping 64-bit clock. */
  function Elapsed(now: uint64, start: uint64): nat { (now as int - start as int) % ID_LIMIT }

  /** The fields guarded by the mutex. */
  datatype Slot = Slot(
    phase: Phase,
    request: ControlRequest,
    ticket: ControlTicket,
    result: ControlResult,
    status: ControlStatus,
    submittedMs: uint64,
    abandoned: bool,
    closing: bool)

  const INITIAL: Slot := Slot(Idle, EMPTY_REQUEST, ControlTicket(0, 0), EMPTY_RESULT, Unavailable, 0, false, false)

  function NextId(id: nat): nat {
    var next := (id + 1) % ID_LIMIT;
    if next == 0 then 1 else next
  }

  function NextTicket(t: ControlTicket): ControlTicket {
    ControlTicket(NextId(t.id), (t.generation + 1) % GENERATION_LIMIT)
  }

  predicate Matches(s: Slot, ticket: ControlTicket) {
    ticket.id != 0 && ticket == s.ticket && s.phase != Idle
  }

  predicate TimedOut(s: Slot, now: uint64) {
    Elapsed(now, s.submittedMs) >= OWNER_REQUEST_TIMEOUT_MS
  }

  function Release(s: Slot): Slot {
    s.(phase := Idle, request := ClearSecrets(s.request))
  }

  function SubmitStep(s: Slot, request: ControlRequest, now: uint64): (Slot, ControlStatus) {
    if request.operation > LAST_OPERATION then (s, InvalidArgument)
    else if IsMutation(request.operation) && (!request.confirmed || !request.usbLocal) then (s, Denied)
    else if s.closing then (s, Unavailable)
    else if s.phase != Idle then (s, QueueFull)
    else (s.(ticket := NextTicket(s.ticket), request := request, submittedMs := now, phase := Queued, abandoned := false), Ok)
  }

  function TakeStep(s: Slot, ticket: ControlTicket, now: uint64): (Slot, ControlStatus) {
    if !Matches(s, ticket) || s.abandoned then (s, Unavailable)
    else if s.phase == Complete then (Release(s), s.status)
    else if s.closing || !TimedOut(s, now) then (s, Pending)
    else if s.phase == Executing then
      (s.(abandoned := true), if IsMutation(s.request.operation) then UnknownOutcome else Timeout)
    else (Release(s), Timeout)
  }

  function CancelStep(s: Slot, ticket: ControlTicket): (Slot, ControlStatus) {
    if !Matches(s, ticket) then (s, Unavailable)
    else
      var unknown := IsMutation(s.request.operation) && (s.phase == Executing || (s.phase == Complete && s.status == Ok));
      (if s.phase == Executing then s.(abandoned := true) else Release(s),
       if unknown then UnknownOutcome else CancelledBeforeStart)
  }

  /** The first critical section of a dispatch; the second component says whether Inspect runs now. */
  function BeginStep(s: Slot, now: uint64): (Slot, bool) {
    if s.closing || s.phase != Queued then (s, false)
    else if TimedOut(s, now) then (s.(status := Timeout, phase := Complete), false)
    else (s.(phase := Executing, result := EMPTY_RESULT), true)
  }

  /** The second critical section, with what Inspect returned and wrote. */
  function EndStep(s: Slot, status: ControlStatus, result: ControlResult): Slot {
    s.(result := result,
       status := if !s.closing then status
                 else if IsMutation(s.request.operation) then UnknownOutcome else Unavailable,
       phase := if s.abandoned then Idle else Complete,
       request := ClearSecrets(s.request))
  }

  /** Shutdown up to its wait for a running Inspect. */
  function CloseStep(s: Slot): Slot {
    if s.phase == Queued || s.phase == Complete then
      s.(closing := true,
         status := if s.phase == Complete && IsMutation(s.request.operation) then UnknownOutcome else Unavailable,
         phase := Complete)
    else s.(closing := true)
  }

  class PlatformControlDispatcher {
    var phase: Phase
    var request: ControlRequest
    var ticket: ControlTicket
    var result: ControlResult
    var status: ControlStatus
    var submittedMs: uint64
    var abandoned: bool
    var closing: bool

    ghost function State(): Slot reads this {
      Slot(phase, request, ticket, result, status, submittedMs, abandoned, closing)
    }

    constructor ()
      ensures State() == INITIAL
    {
      phase, request, ticket, result := Idle, EMPTY_REQUEST, ControlTicket(0, 0), EMPTY_RESULT;
      status, submittedMs, abandoned, closing := Unavailable, 0, false, false;
    }

    predicate Holds(t: ControlTicket) reads this {
      t.id != 0 && t.id == ticket.id && t.generation == ticket.generation && phase != Idle
    }

    method Submit(r: ControlRequest, now: uint64) returns (answer: ControlStatus, issued: ControlTicket)
      modifies this
      ensures (State(), answer) == SubmitStep(old(State()), r, now)
      ensures answer == Ok ==> issued == ticket
    {
      issued := ticket;
      if r.operation > LAST_OPERATION {
        return InvalidArgument, issued;
      }
      if IsMutation(r.operation) && (!r.confirmed || !r.usbLocal) {
        return Denied, issued;
      }
      if closing {
        return Unavailable, issued;
      }
      if phase != Idle {
        return QueueFull, issued;
      }
      var id := (ticket.id + 1) % ID_LIMIT;
      if id == 0 {
        id := id + 1;
      }
      ticket := ControlTicket(id, (ticket.generation + 1) % GENERATION_LIMIT);
      request := r;
      submittedMs := now;
      phase := Queued;
      abandoned := false;
      return Ok, ticket;
    }

    method Take(t: ControlTicket, now: uint64) returns (answer: ControlStatus, taken: ControlResult)
      modifies this
      ensures (State(), answer) == TakeStep(old(State()), t, now)
      ensures answer == Ok ==> taken == old(result)
    {
      taken := EMPTY_RESULT;
      if !Holds(t) || abandoned {
        return Unavailable, taken;
      }
      if phase != Complete && !closing && Elapsed(now, submittedMs) >= OWNER_REQUEST_TIMEOUT_MS {
        var unknown := phase == Executing && IsMutation(request.operation);
        if phase == Executing {
          abandoned := true;
        } else {
          phase := Idle;
          request := ClearSecrets(request);
        }
        return if unknown then UnknownOutcome else Timeout, taken;
      }
      if phase != Complete {
        return Pending, taken;
      }
      if status == Ok {
        taken := result;
      }
      phase := Idle;
      request := ClearSecrets(request);
      return status, taken;
    }

    method Cancel(t: ControlTicket) returns (answer: ControlStatus)
      modifies this
      ensures (State(), answer) == CancelStep(old(State()), t)
    {
      if !Holds(t) {
        return Unavailable;
      }
      var unknown := IsMutation(request.operation) && (phase == Executing || (phase == Complete && status == Ok));
      if phase == Executing {
        abandoned := true;
      } else {
        phase := Idle;
        request := ClearSecrets(request);
      }
      return if unknown then UnknownOutcome else CancelledBeforeStart;
    }

    method DispatchBegin(now: uint64) returns (inspect: bool, copy: ControlRequest)
      modifies this
      ensures (State(), inspect) == BeginStep(old(State()), now)
      ensures inspect ==> copy == old(request)
    {
      copy := EMPTY_REQUEST;
      if closing || phase != Queued {
        return false, copy;
      }
      if Elapsed(now, submittedMs) >= OWNER_REQUEST_TIMEOUT_MS {
        status := Timeout;
        phase := Complete;
        return false, copy;
      }
      phase := Executing;
      copy := request;
      result := EMPTY_RESULT;
      return true, copy;
    }

    method DispatchEnd(copy: ControlRequest, inspected: ControlStatus, written: ControlResult)
      requires copy.operation == request.operation
      modifies this
      ensures State() == EndStep(old(State()), inspected, written)
    {
      var unknown := IsMutation(copy.operation);
      hide IsMutation, ClearSecrets;
      result := written;
      status := if closing then (if unknown then UnknownOutcome else Unavailable) else inspected;
      phase := if abandoned then Idle else Complete;
      request := ClearSecrets(request);
    }

    method ShutdownBegin()
      modifies this
      ensures State() == CloseStep(old(State()))
    {
      closing := true;
      if phase == Queued || phase == Complete {
        status := if phase == Complete && IsMutation(request.operation) then UnknownOutcome else Unavailable;
        phase := Complete;
      }
    }

    // Runs when the wait ends, that is when nothing is executing.
    method ShutdownReturn()
      requires phase != Executing
      modifies this
      ensures State() == old(State()).(request := ClearSecrets(old(request)))
    {
      request := ClearSecrets(request);
    }
  }

  // --- runs -------------------------------------------------------------------

  /** One atomic step of either task. Tickets are arbitrary values, issued or not. */
  datatype Event =
    | Submit(request: ControlRequest, now: uint64)
    | Take(ticket: ControlTicket, now: uint64)
    | Cancel(ticket: ControlTicket)
    | DispatchBegin(now: uint64)
    | DispatchEnd(status: ControlStatus, result: ControlResult)
    | ShutdownBegin
    | ShutdownReturn

  /** The slot together with what has happened; accepted requests are numbered 1, 2, ... */
  datatype World = World(
    slot: Slot,
    requests: seq<ControlRequest>,                        // request n is requests[n - 1]
    inspections: seq<(nat, ControlRequest)>,              // what Inspect was called with, and for which request
    begun: set<nat>,                                      // the requests Inspect was called for
    running: bool,                                        // Inspect is between its two critical sections
    outcomes: map<nat, (ControlStatus, ControlResult)>,   // what Inspect returned
    answers: map<nat, ControlStatus>,                     // the first final answer a ticket holder got
    early: set<nat>,                                      // requests answered before Shutdown began
    taken: seq<(nat, ControlTicket, ControlResult)>,      // results handed over by Take, and the request then in the slot
    shutdownReturned: bool)

  const START: World := World(INITIAL, [], [], {}, false, map[], map[], {}, [], false)

  function TicketOf(n: nat): ControlTicket {
    if n == 0 then ControlTicket(0, 0) else NextTicket(TicketOf(n - 1))
  }

  /** A step is possible when its task is at that point. Inspect never answers Pending. */
  predicate Enabled(w: World, e: Event) {
    match e
    case DispatchBegin(_) => !w.running
    case DispatchEnd(status, _) => w.running && status != Pending
    case ShutdownReturn => w.slot.closing && w.slot.phase != Executing
    case _ => true
  }

  /** Records a final answer given to the holder of a ticket. */
  function Answered(w: World, ticket: ControlTicket, status: ControlStatus): World {
    var newly := set n | 1 <= n <= |w.requests| && n !in w.answers && TicketOf(n) == ticket;
    w.(answers := w.answers + map n | n in newly :: status,
       early := if w.slot.closing then w.early else w.early + newly)
  }

  function Step(w: World, e: Event): World {
    match e
    case Submit(request, now) =>
      var (slot, status) := SubmitStep(w.slot, request, now);
      w.(slot := slot, requests := if status == Ok then w.requests + [request] else w.requests)
    case Take(ticket, now) =>
      var (slot, status) := TakeStep(w.slot, ticket, now);
      var after := if status == Pending then w else Answered(w, ticket, status);
      after.(slot := slot, taken := if status == Ok then w.taken + [(|w.requests|, ticket, w.slot.result)] else w.taken)
    case Cancel(ticket) =>
      var (slot, status) := CancelStep(w.slot, ticket);
      Answered(w, ticket, status).(slot := slot)
    case DispatchBegin(now) =>
      var (slot, inspect) := BeginStep(w.slot, now);
      w.(slot := slot, running := inspect, begun := if inspect then w.begun + {|w.requests|} else w.begun,
         inspections := if inspect then w.inspections + [(|w.requests|, w.slot.request)] else w.inspections)
    case DispatchEnd(status, result) =>
      w.(slot := EndStep(w.slot, status, result), running := false,
         outcomes := w.outcomes[|w.requests| := (status, result)])
    case ShutdownBegin => w.(slot := CloseStep(w.slot))
    case ShutdownReturn => w.(slot := w.slot.(request := ClearSecrets(w.slot.request)), shutdownReturned := true)
  }

  /** The world after a sequence of steps; a step whose task is elsewhere is skipped. */
  function Run(events: seq<Event>): World {
    if events == [] then START
    else
      var w := Run(events[..|events| - 1]);
      var e := events[|events| - 1];
      if Enabled(w, e) then Step(w, e) else w
  }

  // --- the invariant ------------------------------------------------------------

  ghost predicate InspectionsOk(w: World) {
    && (forall i | 0 <= i < |w.inspections| ::
          w.inspections[i].0 in w.begun && 1 <= w.inspections[i].0 <= |w.requests| &&
          w.inspections[i].1 == w.requests[w.inspections[i].0 - 1])
    && (forall i, j | 0 <= i < j < |w.inspections| :: w.inspections[i].0 < w.inspections[j].0)
    && (w.slot.phase == Queued ==> |w.requests| !in w.begun)
  }

  ghost predicate SlotOk(w: World) {
    && w.slot.ticket == TicketOf(|w.requests|)
    && (w.slot.phase != Idle ==> |w.requests| > 0 && w.slot.ticket.id != 0 && w.slot.request.operation == w.requests[|w.requests| - 1].operation)
    && (w.slot.phase == Queued ==> w.slot.request == w.requests[|w.requests| - 1] && !w.slot.closing)
    && (w.running <==> w.slot.phase == Executing)
    && (w.slot.phase == Executing ==> |w.requests| in w.begun && |w.requests| !in w.outcomes)
    && (forall n | n in w.begun :: n in w.outcomes || (w.running && n == |w.requests|))
    && (w.slot.abandoned ==> w.slot.phase == Idle || w.slot.phase == Executing)
    && (w.shutdownReturned ==> w.slot.closing && w.slot.phase != Executing)
  }

  ghost predicate CompleteOk(w: World) {
    var n := |w.requests|;
    w.slot.phase == Complete ==>
      if w.slot.closing then w.slot.status in {UnknownOutcome, Unavailable}
      else if n in w.outcomes then w.outcomes[n] == (w.slot.status, w.slot.result)
      else w.slot.status == Timeout
  }

  ghost predicate AnswersOk(w: World) {
    && (forall n | n in w.answers :: 1 <= n <= |w.requests|)
    && (forall n | n in w.outcomes :: n in w.begun && w.outcomes[n].0 != Pending)
    && (forall n | 1 <= n <= |w.requests| :: n in w.answers <==> n < |w.requests| || w.slot.phase == Idle || w.slot.abandoned)
  }

  ghost predicate EarlyOk(w: World) {
    && (forall n | n in w.early :: n in w.answers && 1 <= n <= |w.requests|)
    && (forall n | n in w.early && n in w.begun && IsMutation(w.requests[n - 1].operation) ::
          if n !in w.outcomes then w.answers[n] == UnknownOutcome
          else w.outcomes[n].0 == Ok ==> w.answers[n] in {Ok, UnknownOutcome})
  }

  ghost predicate TakenOk(w: World) {
    forall i | 0 <= i < |w.taken| ::
      var (n, ticket, result) := w.taken[i];
      TicketOf(n) == ticket && n in w.outcomes && w.outcomes[n] == (Ok, result)
  }

  ghost predicate Inv(w: World) {
    (forall n | n in w.begun :: 1 <= n <= |w.requests|) && InspectionsOk(w) && SlotOk(w) && CompleteOk(w) && AnswersOk(w) && EarlyOk(w) && TakenOk(w)
  }

  lemma StartHolds()
    ensures Inv(START)
  {
  }

  // --- the invariant is kept by every step ---------------------------------------

  lemma SubmitKeeps(w: World, request: ControlRequest, now: uint64)
    requires Inv(w)
    ensures Inv(Step(w, Submit(request, now)))
  {
    assert TicketOf(|w.requests| + 1) == NextTicket(TicketOf(|w.requests|));
    hide TicketOf, NextTicket, IsMutation;
  }

  lemma AnsweredNow(w: World, ticket: ControlTicket, status: ControlStatus)
    requires Inv(w)
    ensures var u := Answered(w, ticket, status);
      var n := |w.requests|;
      u == if n > 0 && n !in w.answers && ticket == w.slot.ticket
           then w.(answers := w.answers[n := status], early := if w.slot.closing then w.early else w.early + {n})
           else w
  {
    hide TicketOf, Elapsed, IsMutation, InspectionsOk, CompleteOk, TakenOk;
    var u := Answered(w, ticket, status);
    var n := |w.requests|;
    var newly := set k | 1 <= k <= n && k !in w.answers && TicketOf(k) == ticket;
    assert newly == if n > 0 && n !in w.answers && ticket == w.slot.ticket then {n} else {};
  }

  lemma SameInspections(w: World, u: World)
    requires InspectionsOk(w)
    requires u.requests == w.requests && u.inspections == w.inspections && u.begun == w.begun
    requires u.slot.phase == Queued ==> w.slot.phase == Queued
    ensures InspectionsOk(u)
  {
  }

  lemma TakeKeeps(w: World, ticket: ControlTicket, now: uint64)
    requires Inv(w)
    ensures Inv(Step(w, Take(ticket, now)))
  {
    TakeSlot(w, ticket, now);
    TakeIsEarly(w, ticket, now);
    TakenIsOwn(w, ticket, now);
    TakeAnswers(w, ticket, now);
    hide TicketOf, SlotOk, CompleteOk, EarlyOk, InspectionsOk, TakenOk, AnswersOk, Step;
  }

  lemma TakeSlot(w: World, ticket: ControlTicket, now: uint64)
    requires Inv(w)
    ensures var u := Step(w, Take(ticket, now));
            SlotOk(u) && CompleteOk(u) && InspectionsOk(u) && u.begun == w.begun && u.requests == w.requests
  {
    var (slot, status) := TakeStep(w.slot, ticket, now);
    AnsweredNow(w, ticket, status);
    SameInspections(w, Step(w, Take(ticket, now)));
    hide TicketOf, Elapsed, IsMutation, Answered, TimedOut, EarlyOk, InspectionsOk, TakenOk, AnswersOk;
  }

  /** Answering the latest request keeps the answers in step with the slot. */
  lemma LatestAnswered(w: World, u: World)
    requires AnswersOk(w) && u.requests == w.requests && u.begun == w.begun && u.outcomes == w.outcomes
    requires forall k | k != |w.requests| :: k in u.answers <==> k in w.answers
    requires |w.requests| in u.answers <==>
             |w.requests| > 0 && (u.slot.phase == Idle || u.slot.abandoned)
    ensures AnswersOk(u)
  {
  }

  lemma TakeAnswers(w: World, ticket: ControlTicket, now: uint64)
    requires Inv(w)
    ensures AnswersOk(Step(w, Take(ticket, now)))
  {
    var (slot, status) := TakeStep(w.slot, ticket, now);
    AnsweredNow(w, ticket, status);
    var n := |w.requests|;
    assert n in w.answers <==> n > 0 && (w.slot.phase == Idle || w.slot.abandoned);
    hide TicketOf, Elapsed, IsMutation, Answered, TimedOut, InspectionsOk, EarlyOk, TakenOk, CompleteOk, AnswersOk;
    LatestAnswered(w, Step(w, Take(ticket, now)));
  }

  lemma TakenIsOwn(w: World, ticket: ControlTicket, now: uint64)
    requires Inv(w)
    ensures TakenOk(Step(w, Take(ticket, now)))
  {
    hide TicketOf, Elapsed, IsMutation, TimedOut, InspectionsOk, EarlyOk, AnswersOk;
    var u := Step(w, Take(ticket, now));
    var k := |w.taken|;
    if |u.taken| > k {
      var n := |w.requests|;
      assert u.taken == w.taken + [(n, ticket, w.slot.result)];
      assert w.slot.phase == Complete && w.slot.status == Ok && ticket == TicketOf(n);
      assert w.outcomes[n] == (Ok, w.slot.result);
    }
    assert u.outcomes == w.outcomes;
  }

  /** An early answer that tells a mutation no lie keeps the early answers sound. */
  lemma EarlyAnswer(w: World, u: World, n: nat, status: ControlStatus)
    requires EarlyOk(w) && 1 <= n <= |w.requests|
    requires u.requests == w.requests && u.begun == w.begun && u.outcomes == w.outcomes
    requires u.answers == w.answers[n := status] && (u.early == w.early || u.early == w.early + {n}) && n !in w.answers
    requires n in w.begun && IsMutation(w.requests[n - 1].operation) ==>
      if n !in w.outcomes then status == UnknownOutcome
      else w.outcomes[n].0 == Ok ==> status in {Ok, UnknownOutcome}
    ensures EarlyOk(u)
  {
    hide IsMutation;
  }

  /** After Shutdown began, a mutation that Inspect ran for waits under an unknown outcome. */
  ghost predicate ClosingOk(w: World) {
    var n := |w.requests|;
    n > 0 && w.slot.closing && w.slot.phase == Complete && n in w.begun && IsMutation(w.requests[n - 1].operation) ==>
      w.slot.status == UnknownOutcome
  }

  lemma NotClosing(w: World)
    requires !w.slot.closing
    ensures ClosingOk(w)
  {
  }

  /** What Take tells the holder of an inspected mutation is its outcome, or that it is unknown. */
  lemma TakeTells(w: World, ticket: ControlTicket, now: uint64)
    requires Inv(w) && ClosingOk(w)
    requires |w.requests| > 0 && |w.requests| !in w.answers && ticket == w.slot.ticket
    requires TakeStep(w.slot, ticket, now).1 != Pending
    ensures var n, status := |w.requests|, TakeStep(w.slot, ticket, now).1;
            n in w.begun && IsMutation(w.requests[n - 1].operation) ==>
              status == if n !in w.outcomes || w.slot.closing then UnknownOutcome else w.outcomes[n].0
  {
    hide TicketOf, Elapsed, IsMutation, TimedOut, TakenOk, EarlyOk;
  }

  /** What Cancel tells the holder of an inspected mutation. */
  lemma CancelTells(w: World, ticket: ControlTicket)
    requires Inv(w) && ClosingOk(w)
    requires |w.requests| > 0 && |w.requests| !in w.answers && ticket == w.slot.ticket
    ensures var n, status := |w.requests|, CancelStep(w.slot, ticket).1;
            n in w.begun && IsMutation(w.requests[n - 1].operation) ==>
              status == if n !in w.outcomes || (!w.slot.closing && w.outcomes[n].0 == Ok) then UnknownOutcome
                        else CancelledBeforeStart
  {
    hide TicketOf, IsMutation, TakenOk, EarlyOk;
  }

  lemma TakeIsEarly(w: World, ticket: ControlTicket, now: uint64)
    requires Inv(w)
    ensures EarlyOk(Step(w, Take(ticket, now)))
  {
    hide TicketOf, IsMutation, Answered, InspectionsOk, TakenOk, EarlyOk, TakeStep, SlotOk, CompleteOk, AnswersOk;
    var (slot, status) := TakeStep(w.slot, ticket, now);
    AnsweredNow(w, ticket, status);
    var n, u := |w.requests|, Step(w, Take(ticket, now));
    if u.answers == w.answers && u.early == w.early {
      SameEarly(w, u);
    } else if w.slot.closing {
      LateAnswer(w, u, n, status);
    } else {
      NotClosing(w);
      TakeTells(w, ticket, now);
      EarlyAnswer(w, u, n, status);
    }
  }

  lemma LateAnswer(w: World, u: World, n: nat, status: ControlStatus)
    requires EarlyOk(w) && n !in w.answers
    requires u.requests == w.requests && u.begun == w.begun && u.outcomes == w.outcomes
    requires u.answers == w.answers[n := status] && u.early == w.early
    ensures EarlyOk(u)
  {
    hide IsMutation;
  }

  lemma SameEarly(w: World, u: World)
    requires EarlyOk(w) && u.requests == w.requests && u.begun == w.begun && u.outcomes == w.outcomes
    requires u.answers == w.answers && u.early == w.early
    ensures EarlyOk(u)
  {
  }

  lemma CancelKeeps(w: World, ticket: ControlTicket)
    requires Inv(w)
    ensures Inv(Step(w, Cancel(ticket)))
  {
    var (slot, status) := CancelStep(w.slot, ticket);
    AnsweredNow(w, ticket, status);
    hide TicketOf, Elapsed, IsMutation, Answered;
    CancelIsEarly(w, ticket);
    SameInspections(w, Step(w, Cancel(ticket)));
    CancelAnswers(w, ticket);
    hide EarlyOk, InspectionsOk, AnswersOk;
  }

  lemma CancelAnswers(w: World, ticket: ControlTicket)
    requires Inv(w)
    ensures AnswersOk(Step(w, Cancel(ticket)))
  {
    var (slot, status) := CancelStep(w.slot, ticket);
    AnsweredNow(w, ticket, status);
    var n := |w.requests|;
    assert n in w.answers <==> n > 0 && (w.slot.phase == Idle || w.slot.abandoned);
    hide TicketOf, Elapsed, IsMutation, Answered, InspectionsOk, EarlyOk, TakenOk, CompleteOk, AnswersOk;
    LatestAnswered(w, Step(w, Cancel(ticket)));
  }

  lemma CancelIsEarly(w: World, ticket: ControlTicket)
    requires Inv(w)
    ensures EarlyOk(Step(w, Cancel(ticket)))
  {
    hide TicketOf, IsMutation, Answered, InspectionsOk, TakenOk, EarlyOk, CancelStep, SlotOk, CompleteOk, AnswersOk;
    var (slot, status) := CancelStep(w.slot, ticket);
    AnsweredNow(w, ticket, status);
    var n, u := |w.requests|, Step(w, Cancel(ticket));
    if u.answers == w.answers && u.early == w.early {
      SameEarly(w, u);
    } else if w.slot.closing {
      LateAnswer(w, u, n, status);
    } else {
      NotClosing(w);
      CancelTells(w, ticket);
      EarlyAnswer(w, u, n, status);
    }
  }

  lemma DispatchBeginKeeps(w: World, now: uint64)
    requires Inv(w) && !w.running
    ensures Inv(Step(w, DispatchBegin(now)))
  {
    hide TicketOf, Elapsed, IsMutation;
    var u := Step(w, DispatchBegin(now));
    InspectionBegins(w, now);
    hide InspectionsOk;
  }

  lemma InspectionBegins(w: World, now: uint64)
    requires Inv(w) && !w.running
    ensures InspectionsOk(Step(w, DispatchBegin(now)))
  {
    hide TicketOf, Elapsed, IsMutation, AnswersOk, CompleteOk, TakenOk;
  }

  lemma DispatchEndKeeps(w: World, status: ControlStatus, result: ControlResult)
    requires Inv(w) && w.running && status != Pending
    ensures Inv(Step(w, DispatchEnd(status, result)))
  {
    hide TicketOf, Elapsed, IsMutation;
  }

  lemma ShutdownKeeps(w: World, e: Event)
    requires Inv(w) && (e.ShutdownBegin? || e.ShutdownReturn?) && Enabled(w, e)
    ensures Inv(Step(w, e))
  {
    hide TicketOf, Elapsed, IsMutation;
  }

  lemma StepKeeps(w: World, e: Event)
    requires Inv(w) && Enabled(w, e)
    ensures Inv(Step(w, e))
  {
    match e
    case Submit(request, now) => SubmitKeeps(w, request, now);
    case Take(ticket, now) => TakeKeeps(w, ticket, now);
    case Cancel(ticket) => CancelKeeps(w, ticket);
    case DispatchBegin(now) => DispatchBeginKeeps(w, now);
    case DispatchEnd(status, result) => DispatchEndKeeps(w, status, result);
    case _ => ShutdownKeeps(w, e);
  }

  lemma {:induction false} RunHolds(events: seq<Event>)
    ensures Inv(Run(events))
  {
    hide Inv, Step, Enabled;
    if events == [] {
      StartHolds();
    } else {
      RunHolds(events[..|events| - 1]);
      var w := Run(events[..|events| - 1]);
      if Enabled(w, events[|events| - 1]) {
        StepKeeps(w, events[|events| - 1]);
      }
    }
  }

  // --- what every interleaving guarantees -------------------------------------------

  /** Inspect is called at most once for a request, with exactly what was submitted, oldest first. */
  lemma InspectedAtMostOnce(events: seq<Event>)
    ensures var w := Run(events);
      && (forall i | 0 <= i < |w.inspections| ::
            1 <= w.inspections[i].0 <= |w.requests| && w.inspections[i].1 == w.requests[w.inspections[i].0 - 1])
      && (forall i, j | 0 <= i < j < |w.inspections| :: w.inspections[i].0 < w.inspections[j].0)
  {
    hide Run, SlotOk, CompleteOk, AnswersOk, EarlyOk, TakenOk;
    RunHolds(events);
  }

  /** Mutations come from the local console, and confirmed. */
  predicate MayRun(r: ControlRequest) {
    IsMutation(r.operation) ==> r.confirmed && r.usbLocal
  }

  /** A submission is accepted exactly when it may run and the slot is free and open; each refusal has its own reason. */
  lemma AcceptedExactly(s: Slot, r: ControlRequest, now: uint64)
    ensures var (t, status) := SubmitStep(s, r, now);
      && (status == Ok <==> r.operation <= LAST_OPERATION && MayRun(r) && !s.closing && s.phase == Idle)
      && (status == Denied <==> r.operation <= LAST_OPERATION && !MayRun(r))
      && (status == InvalidArgument <==> r.operation > LAST_OPERATION)
      && (status == Unavailable ==> s.closing) && (status == QueueFull ==> s.phase != Idle)
      && (status != Ok ==> t == s)
      && (status == Ok ==>
            t.phase == Queued && t.request == r && t.ticket == NextTicket(s.ticket) && t.submittedMs == now &&
            !t.abandoned && !t.closing)
  {
    hide NextTicket;
  }

  ghost predicate AllMayRun(w: World) {
    forall n | 0 <= n < |w.requests| :: w.requests[n].operation <= LAST_OPERATION && MayRun(w.requests[n])
  }

  lemma {:induction false} AcceptedMayRun(events: seq<Event>)
    ensures AllMayRun(Run(events))
  {
    hide MayRun, Elapsed, TicketOf, NextTicket, TakeStep, CancelStep, BeginStep, EndStep, CloseStep, SubmitStep;
    if events != [] {
      var w, e := Run(events[..|events| - 1]), events[|events| - 1];
      AcceptedMayRun(events[..|events| - 1]);
      if e.Submit? {
        AcceptedExactly(w.slot, e.request, e.now);
      }
    }
  }

  /** Over every interleaving, no mutation reaches Inspect that was not confirmed, or not submitted locally. */
  lemma OnlyConfirmedLocalMutationsRun(events: seq<Event>, i: nat)
    requires i < |Run(events).inspections|
    ensures var r := Run(events).inspections[i].1;
      r.operation <= LAST_OPERATION && (IsMutation(r.operation) ==> r.confirmed && r.usbLocal)
  {
    hide Run;
    AcceptedMayRun(events);
    InspectedAtMostOnce(events);
    var w := Run(events);
    assert w.inspections[i].1 == w.requests[w.inspections[i].0 - 1];
  }

  ghost predicate Erased(w: World) {
    && (w.slot.phase == Idle || w.shutdownReturned ==> w.slot.request.texts == [])
    && (w.slot.phase == Complete && |w.requests| in w.outcomes ==> w.slot.request.texts == [])
  }

  /** Over every interleaving, no secret text stays in the slot once its request is inspected or let go,
      or once Shutdown has returned. */
  lemma {:induction false} SecretsAreErased(events: seq<Event>)
    ensures Erased(Run(events))
  {
    hide Inv, Elapsed, TicketOf, NextTicket, IsMutation;
    if events != [] {
      var w, e := Run(events[..|events| - 1]), events[|events| - 1];
      SecretsAreErased(events[..|events| - 1]);
      RunHolds(events[..|events| - 1]);
      KnownToErase(w);
    }
  }

  lemma KnownToErase(w: World)
    requires Inv(w)
    ensures w.slot.phase == Queued ==> |w.requests| !in w.outcomes
    ensures w.running <==> w.slot.phase == Executing
    ensures w.shutdownReturned ==> w.slot.closing && w.slot.phase != Executing
    ensures forall n | n in w.outcomes :: n <= |w.requests|
  {
  }

  /** What the holder of a ticket is told, and when the owner still begins, `d` milliseconds after a request was
      accepted on the wrapping clock: all waits end after thirty seconds, and none ends by time once closing. */
  lemma WaitsThirtySeconds(events: seq<Event>, r: ControlRequest, t: uint64, begin: uint64, d: nat)
    requires d < ID_LIMIT && SubmitStep(Run(events).slot, r, t).1 == Ok
    requires BeginStep(SubmitStep(Run(events).slot, r, t).0, begin).1
    ensures var later := ((t as int + d) % ID_LIMIT) as uint64;
      var waiting := SubmitStep(Run(events).slot, r, t).0;
      var executing := BeginStep(waiting, begin).0;
      && (BeginStep(waiting, later).1 <==> d < 30000)
      && TakeStep(waiting, waiting.ticket, later).1 == (if d < 30000 then Pending else Timeout)
      && TakeStep(executing, waiting.ticket, later).1 ==
           (if d < 30000 then Pending else if r.operation >= 16 then UnknownOutcome else Timeout)
      && TakeStep(CloseStep(executing), waiting.ticket, later).1 == Pending
  {
    hide Run;
    RunHolds(events);
    var later := ((t as int + d) % ID_LIMIT) as uint64;
    ElapsedIs(t, d);
    var w := Run(events);
    assert w.slot.ticket == TicketOf(|w.requests|);
    assert NextTicket(w.slot.ticket).id != 0;
  }

  lemma ElapsedIs(t: uint64, d: nat)
    requires d < ID_LIMIT
    ensures Elapsed(((t as int + d) % ID_LIMIT) as uint64, t) == d
  {
    var later := t as int + d;
    assert later % ID_LIMIT == if later < ID_LIMIT then later else later - ID_LIMIT;
  }

  /** A result that Take hands over with Ok is what Inspect wrote for a request with that very ticket. */
  lemma TakeReturnsOwnResult(events: seq<Event>, i: nat)
    requires i < |Run(events).taken|
    ensures var w := Run(events);
      var (n, ticket, result) := w.taken[i];
      1 <= n <= |w.requests| && TicketOf(n) == ticket && n in w.outcomes && w.outcomes[n] == (Ok, result)
  {
    RunHolds(events);
  }

  /** Until Shutdown begins, the holder of an executed mutation is first told its result or that it is unknown. */
  lemma ExecutedMutationNeverDenied(events: seq<Event>, n: nat)
    requires var w := Run(events);
      && n in w.early && n in w.answers && n in w.outcomes && w.outcomes[n].0 == Ok
      && 1 <= n <= |w.requests| && IsMutation(w.requests[n - 1].operation)
    ensures Run(events).answers[n] in {Ok, UnknownOutcome}
  {
    RunHolds(events);
  }

  // A mutation that has run, at the moment Shutdown begins.
  const MUTATION: ControlRequest := ControlRequest(FIRST_MUTATION, true, true, [], [])
  const EXECUTED: seq<Event> := [Submit(MUTATION, 0), DispatchBegin(0), DispatchEnd(Ok, EMPTY_RESULT), ShutdownBegin]

  lemma ExecutedThenClosing()
    ensures var w := Run(EXECUTED);
      && w.requests == [MUTATION] && w.outcomes == map[1 := (Ok, EMPTY_RESULT)] && w.answers == map[]
      && w.slot.phase == Complete && w.slot.status == UnknownOutcome && w.slot.closing
      && w.slot.ticket == ControlTicket(1, 1)
  {
    var w1 := Step(START, Submit(MUTATION, 0));
    assert NextTicket(ControlTicket(0, 0)) == ControlTicket(1, 1);
    var queued := INITIAL.(ticket := ControlTicket(1, 1), request := MUTATION, phase := Queued);
    assert w1 == START.(slot := queued, requests := [MUTATION]);
    NoTimePasses(0);
    hide Elapsed, NextTicket, Answered;
    FourSteps(Submit(MUTATION, 0), DispatchBegin(0), DispatchEnd(Ok, EMPTY_RESULT), ShutdownBegin);
  }

  /** The guard is needed: a mutation that ran can be reported as cancelled before its start once Shutdown began. */
  lemma CancelAfterShutdownMisreports()
    ensures var w := Run(EXECUTED + [Cancel(ControlTicket(1, 1))]);
      && |w.requests| == 1 && IsMutation(w.requests[0].operation)
      && 1 in w.outcomes && w.outcomes[1].0 == Ok
      && 1 in w.answers && w.answers[1] == CancelledBeforeStart
  {
    ExecutedThenClosing();
    RunHolds(EXECUTED);
    RunExtends(EXECUTED, Cancel(ControlTicket(1, 1)));
    AnsweredNow(Run(EXECUTED), ControlTicket(1, 1), CancelledBeforeStart);
    hide Answered, Run, Inv;
  }

  /** Cancelling a mutation that ran with success hides that it ran exactly when Shutdown has begun. */
  lemma CancelMisreportsExactlyWhenClosing(events: seq<Event>)
    requires var w := Run(events);
      var n := |w.requests|;
      && n > 0 && w.slot.phase == Complete && IsMutation(w.requests[n - 1].operation)
      && n in w.outcomes && w.outcomes[n].0 == Ok
    ensures var w := Run(events);
      CancelStep(w.slot, TicketOf(|w.requests|)).1 == (if w.slot.closing then CancelledBeforeStart else UnknownOutcome)
  {
    RunHolds(events);
    hide Run, TicketOf, InspectionsOk, AnswersOk, EarlyOk, TakenOk;
  }

  // --- the first answer to a mutation that ran ------------------------------------------

  lemma ClosingKeeps(w: World, e: Event)
    requires Inv(w) && ClosingOk(w) && Enabled(w, e)
    ensures ClosingOk(Step(w, e))
  {
    hide TicketOf, NextTicket, Elapsed, IsMutation, Matches, EarlyOk, TakenOk, CompleteOk, AnswersOk;
  }

  lemma {:induction false} RunCloses(events: seq<Event>)
    ensures ClosingOk(Run(events))
  {
    hide Inv, Step, Enabled, IsMutation;
    if events != [] {
      var front := events[..|events| - 1];
      RunCloses(front);
      RunHolds(front);
      if Enabled(Run(front), events[|events| - 1]) {
        ClosingKeeps(Run(front), events[|events| - 1]);
      }
    }
  }

  /** Step `i` gives the holder of request `n` the first final answer. */
  ghost predicate FirstAnswerAt(events: seq<Event>, i: nat, n: nat) {
    i < |events| && n !in Run(events[..i]).answers && n in Run(events[..i + 1]).answers
  }

  lemma PrefixStep(events: seq<Event>, i: nat)
    requires i < |events|
    ensures var w := Run(events[..i]);
            Run(events[..i + 1]) == if Enabled(w, events[i]) then Step(w, events[i]) else w
  {
    assert events[..i + 1] == events[..i] + [events[i]];
    RunExtends(events[..i], events[i]);
  }

  lemma {:induction false} HasFirstAnswer(events: seq<Event>, k: nat, n: nat) returns (i: nat)
    requires k <= |events| && n in Run(events[..k]).answers
    ensures FirstAnswerAt(events, i, n)
  {
    assert events[..0] == [];
    if n in Run(events[..k - 1]).answers {
      i := HasFirstAnswer(events, k - 1, n);
    } else {
      i := k - 1;
    }
  }

  /** An answer stays, an outcome stays, and a request answered before Inspect began is never inspected. */
  predicate Stays(w: World, u: World, n: nat) {
    n in w.answers && n in u.answers && u.answers[n] == w.answers[n] &&
    (n in w.outcomes ==> n in u.outcomes && u.outcomes[n] == w.outcomes[n]) &&
    (n !in w.begun ==> n !in u.begun) && 1 <= n <= |w.requests| <= |u.requests| && u.requests[n - 1] == w.requests[n - 1]
  }

  lemma AnswerStays(w: World, e: Event, n: nat)
    requires Inv(w) && Enabled(w, e) && n in w.answers
    ensures Stays(w, Step(w, e), n)
  {
    hide TicketOf, NextTicket, Elapsed, IsMutation, Matches, EarlyOk, TakenOk, CompleteOk, InspectionsOk;
  }

  lemma {:induction false} AnswerStaysFrom(events: seq<Event>, i: nat, k: nat, n: nat)
    requires i <= k <= |events| && n in Run(events[..i]).answers
    ensures Stays(Run(events[..i]), Run(events[..k]), n)
    decreases k
  {
    hide Inv, Step, Enabled, Run;
    RunHolds(events[..i]);
    AnsweredIsAccepted(Run(events[..i]), n);
    if i < k {
      AnswerStaysFrom(events, i, k - 1, n);
      RunHolds(events[..k - 1]);
      PrefixStep(events, k - 1);
      if Enabled(Run(events[..k - 1]), events[k - 1]) {
        AnswerStays(Run(events[..k - 1]), events[k - 1], n);
      }
    }
  }

  lemma AnsweredIsAccepted(w: World, n: nat)
    requires Inv(w) && n in w.answers
    ensures Stays(w, w, n)
  {
  }

  /** What a first answer tells, by what the request has come to. */
  lemma FirstAnswerTells(w: World, e: Event, n: nat)
    requires Inv(w) && ClosingOk(w) && Enabled(w, e) && n !in w.answers && n in Step(w, e).answers
    requires 1 <= n <= |Step(w, e).requests| && IsMutation(Step(w, e).requests[n - 1].operation)
    ensures var u := Step(w, e);
            (e.Take? || e.Cancel?) && u.outcomes == w.outcomes && u.begun == w.begun && u.requests == w.requests &&
            if n !in w.begun then true
            else if n !in w.outcomes then u.answers[n] == UnknownOutcome
            else if e.Cancel? then
              u.answers[n] == if !w.slot.closing && w.outcomes[n].0 == Ok then UnknownOutcome else CancelledBeforeStart
            else u.answers[n] == if w.slot.closing then UnknownOutcome else w.outcomes[n].0
  {
    hide TicketOf, NextTicket, Elapsed, TimedOut, IsMutation, Answered, TakeStep, CancelStep, EarlyOk, TakenOk,
      InspectionsOk, SlotOk, CompleteOk, AnswersOk, ClosingOk;
    if e.Take? {
      AnsweredNow(w, e.ticket, TakeStep(w.slot, e.ticket, e.now).1);
      TakeTells(w, e.ticket, e.now);
    } else if e.Cancel? {
      AnsweredNow(w, e.ticket, CancelStep(w.slot, e.ticket).1);
      CancelTells(w, e.ticket);
    }
  }

  /**
   * The holder of a mutation that ran with success is denied it by the first answer exactly when that answer is a
   * Cancel given after Shutdown began and Inspect returned; a Take after Shutdown began says the outcome is unknown.
   */
  lemma DeniedExactlyByLateCancel(events: seq<Event>, i: nat, n: nat)
    requires FirstAnswerAt(events, i, n)
    requires var w := Run(events);
      && 1 <= n <= |w.requests| && IsMutation(w.requests[n - 1].operation)
      && n in w.outcomes && w.outcomes[n].0 == Ok
    ensures var w, before := Run(events), Run(events[..i]);
      && n in w.answers && w.answers[n] in {Ok, UnknownOutcome, CancelledBeforeStart}
      && (w.answers[n] == CancelledBeforeStart <==> events[i].Cancel? && before.slot.closing && n in before.outcomes)
      && (w.answers[n] == Ok <==> events[i].Take? && !before.slot.closing && n in before.outcomes)
  {
    hide Inv, ClosingOk, Step, Enabled, Run, IsMutation;
    RunHolds(events[..i]);
    RunCloses(events[..i]);
    PrefixStep(events, i);
    assert events[..|events|] == events;
    AnswerStaysFrom(events, i + 1, |events|, n);
    FirstAnswerTells(Run(events[..i]), events[i], n);
    RunHolds(events);
    InspectedBeforeOutcome(Run(events), n);
  }

  lemma InspectedBeforeOutcome(w: World, n: nat)
    requires Inv(w) && n in w.outcomes
    ensures n in w.begun
  {
  }

  lemma FourSteps(a: Event, b: Event, c: Event, d: Event)
    requires Enabled(START, a) && Enabled(Step(START, a), b) && Enabled(Step(Step(START, a), b), c)
    requires Enabled(Step(Step(Step(START, a), b), c), d)
    ensures Run([a, b, c, d]) == Step(Step(Step(Step(START, a), b), c), d)
  {
    hide Step, Enabled;
    RunExtends([], a); RunExtends([a], b); RunExtends([a, b], c); RunExtends([a, b, c], d);
    assert [] + [a] == [a] && [a] + [b] == [a, b] && [a, b] + [c] == [a, b, c] && [a, b, c] + [d] == [a, b, c, d];
  }

  lemma RunExtends(events: seq<Event>, e: Event)
    ensures Run(events + [e]) == if Enabled(Run(events), e) then Step(Run(events), e) else Run(events)
  {
    assert (events + [e])[..|events|] == events;
  }

  lemma NoTimePasses(now: uint64)
    ensures Elapsed(now, now) == 0
  {
  }

  /** Every accepted request but the latest has been answered, before Shutdown and after it. */
  lemma EveryEarlierRequestAnswered(events: seq<Event>, n: nat)
    requires 1 <= n < |Run(events).requests|
    ensures n in Run(events).answers
  {
    RunHolds(events);
  }

  lemma StepAfterShutdown(w: World, e: Event)
    requires Inv(w) && w.shutdownReturned && Enabled(w, e)
    ensures var u := Step(w, e); u.shutdownReturned && !u.running && u.inspections == w.inspections
  {
    hide TicketOf, NextTicket, Elapsed, IsMutation, Matches, InspectionsOk, AnswersOk, CompleteOk, TakenOk;
  }

  /** Once Shutdown has returned, no Inspect runs and none ever starts. */
  lemma {:induction false} NothingRunsAfterShutdown(events: seq<Event>, later: seq<Event>)
    requires Run(events).shutdownReturned
    ensures var w := Run(events + later);
      w.shutdownReturned && !w.running && w.inspections == Run(events).inspections
    decreases |later|
  {
    if later == [] {
      RunHolds(events);
      assert events + later == events;
    } else {
      var n := |later| - 1;
      NothingRunsAfterShutdown(events, later[..n]);
      RunHolds(events + later[..n]);
      assert (events + later)[..|events + later| - 1] == events + later[..n];
      var w := Run(events + later[..n]);
      hide Inv, Step, Enabled;
      if Enabled(w, later[n]) {
        StepAfterShutdown(w, later[n]);
      }
    }
  }

  // --- when two requests share a ticket ------------------------------------------------

  const TICKET_PERIOD: nat := (ID_LIMIT - 1) * GENERATION_LIMIT

  // Congruent numbers differ by a multiple.
  lemma CongruentThenMultiple(x: nat, y: nat, d: nat)
    requires d > 0 && x <= y && x % d == y % d
    ensures (y - x) % d == 0
  {
    var p, q, r := x / d, y / d, x % d;
    assert x == p * d + r && y == q * d + r && (q + 1) * d == q * d + d;
    if q < p {
      MultiplyMonotone(q + 1, p, d);
    }
    assert y - x == (q - p) * d + 0;
    DivModOf(q - p, 0, d);
  }

  lemma MultipleThenCongruent(x: nat, y: nat, d: nat)
    requires d > 0 && x <= y && (y - x) % d == 0
    ensures x % d == y % d
  {
    var p, k, r := x / d, (y - x) / d, x % d;
    assert x == p * d + r && y - x == k * d;
    assert y == (p + k) * d + r;
    DivModOf(p + k, r, d);
  }

  lemma ModDifference(x: nat, y: nat, d: nat)
    requires d > 0 && x <= y
    ensures x % d == y % d <==> (y - x) % d == 0
  {
    if x % d == y % d {
      CongruentThenMultiple(x, y, d);
    }
    if (y - x) % d == 0 {
      MultipleThenCongruent(x, y, d);
    }
  }

  lemma NextIdIs(id: nat)
    requires id < ID_LIMIT
    ensures NextId(id) == if id == ID_LIMIT - 1 then 1 else id + 1
  {
  }

  lemma {:induction false} TicketFields(n: nat)
    ensures TicketOf(n).generation == n % GENERATION_LIMIT
    ensures TicketOf(n).id == if n == 0 then 0 else (n - 1) % (ID_LIMIT - 1) + 1
  {
    if n > 0 {
      TicketFields(n - 1);
      NextIdIs(TicketOf(n - 1).id);
      hide NextId;
      ModStep(n - 1, GENERATION_LIMIT);
      NextGeneration((n - 1) % GENERATION_LIMIT);
      if n > 1 {
        ModStep(n - 2, ID_LIMIT - 1);
      }
    }
  }

  lemma NextGeneration(g: nat)
    requires g < GENERATION_LIMIT
    ensures (g + 1) % GENERATION_LIMIT == if g == GENERATION_LIMIT - 1 then 0 else g + 1
  {
  }

  lemma SharedFactor(k: int, m: int, d: int)
    requires k * (d * d - 1) == m * d
    ensures k == (k * d - m) * d
  {
    assert k * (d * d - 1) == k * d * d - k;
    assert (k * d - m) * d == k * d * d - m * d;
  }

  lemma NegativeFactor(j: int, d: nat)
    requires d > 0 && j < 0
    ensures j * d < 0
  {
  }

  lemma Regroup(j: int, d: int, a: int)
    ensures j * d * a == j * (a * d)
  {
  }

  lemma CommonMultiple(n: nat, k: nat, m: nat, d: nat, a: nat) returns (j: nat)
    requires d > 0 && a == d * d - 1 && n == k * a && n == m * d
    ensures n == j * (a * d)
  {
    SharedFactor(k, m, d);
    var q := k * d - m;
    if q < 0 {
      NegativeFactor(q, d);
      assert false;
    }
    j := q;
    Regroup(j, d, a);
  }

  lemma Quotient(n: nat, d: nat)
    requires d > 0 && n % d == 0
    ensures n == n / d * d
  {
  }

  lemma IsMultiple(n: nat, j: nat, c: nat)
    requires c > 0 && n == j * c
    ensures n % c == 0
  {
    DivModOf(j, 0, c);
  }

  // A multiple of d and of d * d - 1 is a multiple of their product.
  lemma CoprimeProduct(n: nat, d: nat, a: nat)
    requires d > 1 && a == d * d - 1 && a > 0 && a * d > 0 && n % d == 0 && n % a == 0
    ensures n % (a * d) == 0
  {
    Quotient(n, a);
    Quotient(n, d);
    var j := CommonMultiple(n, n / a, n / d, d, a);
    IsMultiple(n, j, a * d);
  }

  lemma FactorOfMultiple(n: nat, a: nat, b: nat)
    requires a > 0 && b > 0 && a * b > 0 && n % (a * b) == 0
    ensures n % a == 0 && n % b == 0
  {
    var k := n / (a * b);
    assert n == k * (a * b) == (k * b) * a == (k * a) * b;
    DivModOf(k * b, 0, a);
    DivModOf(k * a, 0, b);
  }

  lemma SameTicket(m: nat, n: nat)
    requires 1 <= m <= n
    ensures TicketOf(m) == TicketOf(n) <==> (n - m) % (ID_LIMIT - 1) == 0 && (n - m) % GENERATION_LIMIT == 0
  {
    TicketFields(m);
    TicketFields(n);
    hide TicketOf;
    ModDifference(m - 1, n - 1, ID_LIMIT - 1);
    ModDifference(m, n, GENERATION_LIMIT);
  }

  lemma PeriodIsCommon(d: nat)
    ensures d % (ID_LIMIT - 1) == 0 && d % GENERATION_LIMIT == 0 <==> d % TICKET_PERIOD == 0
  {
    if d % (ID_LIMIT - 1) == 0 && d % GENERATION_LIMIT == 0 {
      CoprimeProduct(d, GENERATION_LIMIT, ID_LIMIT - 1);
    }
    if d % TICKET_PERIOD == 0 {
      FactorOfMultiple(d, ID_LIMIT - 1, GENERATION_LIMIT);
    }
  }

  /** Two requests carry the same ticket exactly when their numbers differ by a multiple of the period. */
  lemma TicketsCollide(m: nat, n: nat)
    requires 1 <= m <= n
    ensures TicketOf(m) == TicketOf(n) <==> (n - m) % TICKET_PERIOD == 0
  {
    hide TicketOf;
    SameTicket(m, n);
    PeriodIsCommon(n - m);
  }
}
