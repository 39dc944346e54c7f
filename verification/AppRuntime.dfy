/** The foreground application: switching, fallback to the launcher, failsafe and stop,
    around callbacks that may run any code. */
module AppRuntime {
  import opened AppContract
  import opened Bytes

  datatype Descriptor = Descriptor(id: string, named: bool, hasFactory: bool)
  datatype LifecycleState = Absent | Creating | Entering | Active | Exiting | Failsafe | Stopped

  /** Callbacks in the order they were called, and commands as they are done; instances are numbered as they are
      created, and the `status` is what came of the call. */
  datatype Mark =
    | Created(id: string, status: Status)
    | Enter(instance: nat)
    | Entered(instance: nat, status: Status)
    | Exit(instance: nat)
    | Input(instance: nat, status: Status)
    | Idled(instance: nat, status: Status)
    | Obeyed(command: AppCommand, status: Status)
    | Render(instance: nat, asker: nat, request: RenderRequest, asked: seq<Ask>, status: Status)
    | FailsafeShown(status: Status)
    | ShutDown

  datatype Foreground = Nobody | Instance(n: nat)

  /** The instance between its Enter and its Exit. */
  function Inside(trace: seq<Mark>): Foreground {
    if trace == [] then Nobody
    else match trace[|trace| - 1]
      case Enter(n) => Instance(n)
      case Exit(_) => Nobody
      case _ => Inside(trace[..|trace| - 1])
  }

  /** The largest instance number entered. */
  function Newest(trace: seq<Mark>): nat {
    if trace == [] then 0
    else match trace[|trace| - 1]
      case Enter(n) => n
      case _ => Newest(trace[..|trace| - 1])
  }

  /** At most one instance is inside; each is entered once and exited once before the next one or the end;
      events reach the instance inside, and drawing the one that asked for it. */
  ghost predicate Disciplined(trace: seq<Mark>) {
    trace == [] ||
    (Disciplined(trace[..|trace| - 1]) && Allowed(trace[..|trace| - 1], trace[|trace| - 1]))
  }

  ghost predicate Allowed(earlier: seq<Mark>, next: Mark) {
    match next
    case Created(_, _) => true
    case Entered(n, _) => Inside(earlier) == Instance(n)
    case Enter(n) => Inside(earlier) == Nobody && n > Newest(earlier)
    case Exit(n) => Inside(earlier) == Instance(n)
    case Input(n, _) => Inside(earlier) == Instance(n)
    case Idled(n, _) => Inside(earlier) == Instance(n)
    case Obeyed(_, _) => true
    case Render(n, asker, request, asked, _) =>
      Inside(earlier) == Instance(n) && asker == n && Summarizes(request, asked)
    case FailsafeShown(_) => Inside(earlier) == Nobody
    case ShutDown => Inside(earlier) == Nobody
  }

  lemma Extend(trace: seq<Mark>, next: Mark)
    requires Disciplined(trace) && Allowed(trace, next)
    ensures Disciplined(trace + [next])
    ensures Inside(trace + [next]) == match next case Enter(n) => Instance(n) case Exit(_) => Nobody case _ => Inside(trace)
    ensures Newest(trace + [next]) == if next.Enter? then next.instance else Newest(trace)
  {
    assert (trace + [next])[..|trace|] == trace;
  }

  /** Not a callback of an instance other than `n`. */
  predicate Concerns(m: Mark, n: nat) {
    match m
    case Input(k, _) => k == n
    case Idled(k, _) => k == n
    case Created(_, _) => true
    case Entered(k, _) => k == n
    case Obeyed(_, _) => true
    case Render(k, _, _, _, _) => k == n
    case _ => false
  }

  lemma {:induction false} InsideWasEntered(trace: seq<Mark>)
    requires Disciplined(trace)
    ensures Inside(trace).Instance? ==> exists i | 0 <= i < |trace| ::
      trace[i] == Enter(Inside(trace).n) && forall j | i < j < |trace| :: Concerns(trace[j], Inside(trace).n)
    ensures forall i | 0 <= i < |trace| && trace[i].Enter? :: trace[i].instance <= Newest(trace)
  {
    if trace != [] {
      var n := |trace| - 1;
      InsideWasEntered(trace[..n]);
      if trace[n].Enter? {
        assert trace[n] == Enter(Inside(trace).n);
      } else if Inside(trace).Instance? {
        var i :| 0 <= i < n && trace[..n][i] == Enter(Inside(trace).n) &&
          forall j | i < j < n :: Concerns(trace[..n][j], Inside(trace).n);
        assert trace[i] == Enter(Inside(trace).n);
        assert forall j | i < j < n :: trace[j] == trace[..n][j];
      }
    }
  }

  lemma {:induction false} DisciplinedPrefix(trace: seq<Mark>, n: nat)
    requires Disciplined(trace) && n <= |trace|
    ensures Disciplined(trace[..n])
  {
    if n == |trace| {
      assert trace[..n] == trace;
    } else {
      DisciplinedPrefix(trace[..|trace| - 1], n);
      assert trace[..|trace| - 1][..n] == trace[..n];
    }
  }

  /** Between an Enter and the next Enter, or the end of the runtime, lies exactly one Exit, of the same instance. */
  lemma EnteredThenExitedOnce(trace: seq<Mark>, i: nat, k: nat)
    requires Disciplined(trace) && i < k < |trace|
    requires trace[i].Enter? && (trace[k].Enter? || trace[k].FailsafeShown? || trace[k].ShutDown?)
    requires forall j | i < j < k :: !trace[j].Enter?
    ensures exists j | i < j < k :: trace[j] == Exit(trace[i].instance)
    ensures forall j | i < j < k && trace[j].Exit? :: trace[j].instance == trace[i].instance
    ensures forall j, l | i < j < l < k && trace[j].Exit? :: !trace[l].Exit?
  {
    var n := trace[i].instance;
    WindowAfterEnter(trace, i, k);
    DisciplinedPrefix(trace, k + 1);
    assert trace[..k + 1][..k] == trace[..k];
    assert Inside(trace[..k]) == Nobody;
  }

  // While nobody else is entered, the instance is inside until its one Exit.
  lemma {:induction false} WindowAfterEnter(trace: seq<Mark>, i: nat, k: nat)
    requires Disciplined(trace) && i < k <= |trace| && trace[i].Enter?
    requires forall j | i < j < k :: !trace[j].Enter?
    ensures Inside(trace[..k]) == Nobody || Inside(trace[..k]) == Instance(trace[i].instance)
    ensures Inside(trace[..k]) == Nobody <==> exists j | i < j < k :: trace[j] == Exit(trace[i].instance)
    ensures forall j | i < j < k && trace[j].Exit? :: trace[j].instance == trace[i].instance
    ensures forall j, l | i < j < l < k && trace[j].Exit? :: !trace[l].Exit?
    decreases k
  {
    DisciplinedPrefix(trace, k);
    assert trace[..k][..k - 1] == trace[..k - 1];
    if k > i + 1 {
      WindowAfterEnter(trace, i, k - 1);
      if trace[k - 1].Exit? {
        assert trace[k - 1] == Exit(trace[i].instance);
      }
    }
  }

  /** Whatever is drawn covers every region that its application asked for, while the rectangle around them fits 16 bits. */
  lemma EachDrawingCovers(trace: seq<Mark>, i: nat, k: nat)
    requires Disciplined(trace) && i < |trace| && trace[i].Render? && k < |trace[i].asked|
    ensures trace[i].asker == trace[i].instance
    ensures Small(Around(trace[i].asked)) ==> Covers(trace[i].request.dirty, trace[i].asked[k].region)
    ensures trace[i].request.intent == Fast ==> trace[i].asked[k].intent == Fast
  {
    DisciplinedPrefix(trace, i + 1);
    assert trace[..i + 1][|trace[..i + 1]| - 1] == trace[i];
    hide Summarizes, Covers, Around;
    DrawnCoversAsked(trace[i].request, trace[i].asked, k);
  }

  // --- one turn ------------------------------------------------------------------------

  /** Applications being created, entered and left, and what stands in for them. */
  predicate Switching(m: Mark) {
    m.Created? || m.Enter? || m.Entered? || m.Exit? || m.FailsafeShown? || m.ShutDown?
  }

  /** Nothing but entering and leaving happened since `earlier`. */
  predicate OnlySwitched(earlier: seq<Mark>, trace: seq<Mark>) {
    earlier <= trace && forall j | |earlier| <= j < |trace| :: Switching(trace[j])
  }

  /** The command was done with this status, if there was one. */
  predicate Done(earlier: seq<Mark>, trace: seq<Mark>, command: AppCommand, status: Status) {
    if command.kind == NoCommand then trace == earlier && status == Ok
    else
      |trace| > |earlier| && trace[|trace| - 1] == Obeyed(command, status) &&
      OnlySwitched(earlier, trace[..|trace| - 1])
  }

  function StatusOf(m: Mark): Status {
    if Switching(m) then Ok else m.status
  }

  /** The status of the latest call since `from` that failed, or Ok. */
  function LatestFailure(trace: seq<Mark>, from: nat): Status {
    if |trace| <= from then Ok
    else
      var status := StatusOf(trace[|trace| - 1]);
      if status != Ok then status else LatestFailure(trace[..|trace| - 1], from)
  }

  /** Since `from`, an event came only first, and then a command, and drawing only last. */
  predicate InTurn(trace: seq<Mark>, from: nat) {
    from <= |trace| &&
    (forall j | from <= j < |trace| && (trace[j].Input? || trace[j].Idled?) :: j == from) &&
    (forall j, k | from <= j < k < |trace| && trace[j].Obeyed? :: trace[k].Render?) &&
    (forall j | from <= j < |trace| && trace[j].Render? :: j == |trace| - 1)
  }

  predicate Undrawn(trace: seq<Mark>, from: nat) {
    forall j | from <= j < |trace| :: !trace[j].Render?
  }

  lemma {:induction false} SwitchingNeverFails(earlier: seq<Mark>, trace: seq<Mark>, from: nat)
    requires OnlySwitched(earlier, trace) && from <= |earlier|
    ensures LatestFailure(trace, from) == LatestFailure(earlier, from)
  {
    if |trace| == |earlier| {
      assert trace == earlier;
    } else {
      SwitchingNeverFails(earlier, trace[..|trace| - 1], from);
    }
  }

  /** A command keeps the turn in order when nothing but an event came before it. */
  lemma DoneInTurn(earlier: seq<Mark>, trace: seq<Mark>, command: AppCommand, status: Status, from: nat)
    requires Done(earlier, trace, command, status) && from <= |earlier|
    requires forall j | from <= j < |earlier| :: j == from && (earlier[j].Input? || earlier[j].Idled?)
    ensures InTurn(trace, from) && Undrawn(trace, from) && earlier <= trace
    ensures LatestFailure(trace, from) == if status != Ok then status else LatestFailure(earlier, from)
    ensures LatestFailure(earlier, |earlier|) == Ok
  {
    if command.kind != NoCommand {
      SwitchingNeverFails(earlier, trace[..|trace| - 1], from);
    }
  }

  lemma DrawnInTurn(earlier: seq<Mark>, m: Mark, from: nat)
    requires InTurn(earlier, from) && Undrawn(earlier, from) && m.Render?
    ensures InTurn(earlier + [m], from)
    ensures LatestFailure(earlier + [m], from) == if m.status != Ok then m.status else LatestFailure(earlier, from)
  {
    assert (earlier + [m])[..|earlier|] == earlier;
  }

  // --- one switch ------------------------------------------------------------------------

  /** How an attempt to open an application ended: it was not created, or not entered, or it opened. */
  datatype Attempt = NotCreated(status: Status) | NotEntered(status: Status) | Opening

  predicate Failing(a: Attempt) {
    match a
    case NotCreated(s) => s != Ok
    case NotEntered(s) => s != Ok
    case Opening => true
  }

  function Outcome(a: Attempt): Status { if a.Opening? then Ok else a.status }

  /** Once the candidate is created, the application inside leaves, and the candidate is entered, and left if that fails. */
  function EnterMarks(leaving: Foreground, n: nat, a: Attempt): seq<Mark>
    requires !a.NotCreated?
  {
    LeaveMarks(leaving) + [Enter(n)] + [Entered(n, Outcome(a))] + if a.Opening? then [] else [Exit(n)]
  }

  function LeaveMarks(leaving: Foreground): seq<Mark> {
    if leaving == Nobody then [] else [Exit(leaving.n)]
  }

  function AttemptMarks(id: string, leaving: Foreground, n: nat, a: Attempt): seq<Mark> {
    if a.NotCreated? then [Created(id, a.status)] else [Created(id, Ok)] + EnterMarks(leaving, n, a)
  }

  /** The number of the next instance after an attempt that would have entered `n`. */
  function NextInstance(n: nat, a: Attempt): nat { if a.NotCreated? then n else n + 1 }

  /** The launcher is tried, and failsafe shown when that fails too. */
  function FallbackMarks(launcher: string, n: nat, a: Attempt): seq<Mark> {
    AttemptMarks(launcher, Nobody, n, a) + if a.Opening? then [] else [FailsafeShown(a.status)]
  }

  /** A failed attempt at another application is followed by one at the launcher, when nobody is left inside. */
  predicate FallsBack(id: string, launcher: string, allowed: bool, leaving: Foreground, a: Attempt) {
    allowed && if a.NotCreated? then leaving == Nobody else a.NotEntered? && id != launcher
  }

  /** Otherwise a failed attempt that leaves nobody inside leads to failsafe, unless it was at another application. */
  predicate GivesUp(id: string, launcher: string, leaving: Foreground, a: Attempt) {
    a.NotEntered? || (a.NotCreated? && leaving == Nobody && id == launcher)
  }

  /** All that happens in a switch: the attempt, and what a failure of it leads to. */
  function SwitchMarks(id: string, launcher: string, allowed: bool, leaving: Foreground, n: nat, a: Attempt, b: Attempt)
    : seq<Mark>
  {
    AttemptMarks(id, leaving, n, a) + AfterAttempt(id, launcher, allowed, leaving, n, a, b)
  }

  function AfterAttempt(id: string, launcher: string, allowed: bool, leaving: Foreground, n: nat, a: Attempt, b: Attempt)
    : seq<Mark>
  {
    if FallsBack(id, launcher, allowed, leaving, a) then FallbackMarks(launcher, NextInstance(n, a), b)
    else if GivesUp(id, launcher, leaving, a) then [FailsafeShown(Outcome(a))]
    else []
  }

  /** What an attempt is, mark by mark. */
  lemma AttemptSpelledOut(id: string, leaving: Foreground, n: nat, s: Status)
    ensures var began := [Created(id, Ok)] + (if leaving == Nobody then [] else [Exit(leaving.n)]) + [Enter(n)];
      && AttemptMarks(id, leaving, n, Opening) == began + [Entered(n, Ok)]
      && AttemptMarks(id, leaving, n, NotEntered(s)) == began + [Entered(n, s), Exit(n)]
      && AttemptMarks(id, leaving, n, NotCreated(s)) == [Created(id, s)]
  {
  }

  /** Every way a switch without a fallback can go, spelled out: what is created, exited and entered in turn, and when
      failsafe is shown. */
  lemma SwitchSpelledOut(id: string, launcher: string, allowed: bool, leaving: Foreground, n: nat, s: Status, b: Attempt)
    ensures var began := [Created(id, Ok)] + (if leaving == Nobody then [] else [Exit(leaving.n)]) + [Enter(n)];
      && SwitchMarks(id, launcher, allowed, leaving, n, Opening, b) == began + [Entered(n, Ok)]
      && (!allowed || id == launcher ==>
            SwitchMarks(id, launcher, allowed, leaving, n, NotEntered(s), b) ==
            began + [Entered(n, s), Exit(n), FailsafeShown(s)])
      && (leaving != Nobody ==> SwitchMarks(id, launcher, allowed, leaving, n, NotCreated(s), b) == [Created(id, s)])
      && (leaving == Nobody && !allowed ==>
            SwitchMarks(id, launcher, allowed, leaving, n, NotCreated(s), b) ==
            if id == launcher then [Created(id, s), FailsafeShown(s)] else [Created(id, s)])
  {
    AttemptSpelledOut(id, leaving, n, s);
    hide AttemptMarks;
  }

  lemma FallbackMarksAre(launcher: string, n: nat, t: Status)
    ensures FallbackMarks(launcher, n, Opening) == [Created(launcher, Ok), Enter(n), Entered(n, Ok)]
    ensures FallbackMarks(launcher, n, NotCreated(t)) == [Created(launcher, t), FailsafeShown(t)]
    ensures FallbackMarks(launcher, n, NotEntered(t)) ==
            [Created(launcher, Ok), Enter(n), Entered(n, t), Exit(n), FailsafeShown(t)]
  {
    AttemptSpelledOut(launcher, Nobody, n, t);
    hide AttemptMarks;
  }

  /** The same behind a failed Enter with leave to fall back: the launcher is created, and failsafe only follows when it
      cannot be created or entered either. */
  lemma FallbackSpelledOut(id: string, launcher: string, leaving: Foreground, n: nat, s: Status, t: Status)
    requires id != launcher
    ensures var failed := AttemptMarks(id, leaving, n, NotEntered(s));
      && SwitchMarks(id, launcher, true, leaving, n, NotEntered(s), Opening) ==
         failed + [Created(launcher, Ok), Enter(n + 1), Entered(n + 1, Ok)]
      && SwitchMarks(id, launcher, true, leaving, n, NotEntered(s), NotCreated(t)) ==
         failed + [Created(launcher, t), FailsafeShown(t)]
      && SwitchMarks(id, launcher, true, leaving, n, NotEntered(s), NotEntered(t)) ==
         failed + [Created(launcher, Ok), Enter(n + 1), Entered(n + 1, t), Exit(n + 1), FailsafeShown(t)]
  {
    FallbackMarksAre(launcher, n + 1, t);
    hide AttemptMarks, FallbackMarks;
  }

  /** A failed attempt at another application, with leave to fall back, is followed by one at the launcher. */
  lemma FailedEnterTriesLauncher(id: string, launcher: string, leaving: Foreground, n: nat, a: Attempt, b: Attempt)
    requires a.NotEntered? && id != launcher
    ensures var marks := SwitchMarks(id, launcher, true, leaving, n, a, b);
      && (exists i :: 0 <= i < |marks| && marks[i] == Created(launcher, if b.NotCreated? then b.status else Ok))
      && ((exists i :: 0 <= i < |marks| && marks[i].FailsafeShown?) <==> !b.Opening?)
  {
    var marks := SwitchMarks(id, launcher, true, leaving, n, a, b);
    var first := AttemptMarks(id, leaving, n, a);
    assert marks[|first|] == Created(launcher, if b.NotCreated? then b.status else Ok);
    if !b.Opening? {
      assert marks[|marks| - 1].FailsafeShown?;
    }
  }

  predicate AllSwitching(marks: seq<Mark>) {
    forall i :: 0 <= i < |marks| ==> Switching(marks[i])
  }

  lemma AttemptSwitches(id: string, leaving: Foreground, n: nat, a: Attempt)
    ensures AllSwitching(AttemptMarks(id, leaving, n, a)) && AllSwitching(LeaveMarks(leaving))
    ensures !a.NotCreated? ==> AllSwitching(EnterMarks(leaving, n, a))
  {
  }

  lemma AfterSwitches(id: string, launcher: string, allowed: bool, leaving: Foreground, n: nat, a: Attempt, b: Attempt)
    ensures AllSwitching(AfterAttempt(id, launcher, allowed, leaving, n, a, b))
  {
    AttemptSwitches(launcher, Nobody, NextInstance(n, a), b);
    hide AttemptMarks;
  }

  lemma SwitchesOnly(log: seq<Mark>, id: string, launcher: string, allowed: bool, leaving: Foreground, n: nat,
                     a: Attempt, b: Attempt)
    ensures OnlySwitched(log, log + SwitchMarks(id, launcher, allowed, leaving, n, a, b))
  {
    AttemptSwitches(id, leaving, n, a);
    AfterSwitches(id, launcher, allowed, leaving, n, a, b);
    hide AttemptMarks, AfterAttempt, Switching;
  }

  lemma StopSwitches(log: seq<Mark>, leaving: Foreground)
    ensures OnlySwitched(log, log + LeaveMarks(leaving) + [ShutDown])
  {
  }

  lemma SwitchesNothing(log: seq<Mark>)
    ensures OnlySwitched(log, log)
  {
  }

  /** A switch whose candidate was not created, or was, spelled out from the marks before it. */
  lemma SwitchFromCreation(log: seq<Mark>, id: string, launcher: string, allowed: bool, leaving: Foreground, n: nat,
                           a: Attempt, b: Attempt)
    ensures var after := AfterAttempt(id, launcher, allowed, leaving, n, a, b);
            log + SwitchMarks(id, launcher, allowed, leaving, n, a, b) ==
            if a.NotCreated? then log + [Created(id, a.status)] + after
            else log + [Created(id, Ok)] + EnterMarks(leaving, n, a) + after
  {
    hide AfterAttempt, EnterMarks;
    var after := AfterAttempt(id, launcher, allowed, leaving, n, a, b);
    if a.NotCreated? {
      assert log + ([Created(id, a.status)] + after) == log + [Created(id, a.status)] + after;
    } else {
      var marks := EnterMarks(leaving, n, a);
      assert log + ([Created(id, Ok)] + marks + after) == log + [Created(id, Ok)] + marks + after;
    }
  }

  class ApplicationRuntime {
    const descriptors: seq<Descriptor>
    const launcherId: string
    const commands: CommandArbiter
    const renders: RenderAccumulator
    var state: LifecycleState
    var hasForeground: bool
    var foregroundId: string
    var generation: uint32
    var lastError: Status
    var callbackActive: bool
    ghost var instance: nat      // number of the latest instance entered
    ghost var trace: seq<Mark>

    /** Holds at every moment, inside callbacks too. */
    ghost predicate Shape() reads this, commands, renders {
      && Disciplined(trace) && Newest(trace) == instance
      && renders.Faithful()
      && (renders.pending ==> renders.request.ownerGeneration == generation && renders.asker == instance)
      && (state == Active || state == Entering || state == Failsafe ==> Registered(launcherId))
      && (state == Active || state == Entering ==> hasForeground && Inside(trace) == Instance(instance))
    }

    /** Holds between public calls. */
    ghost predicate Quiet() reads this, commands, renders {
      && Shape() && !callbackActive
      && state in {Absent, Active, Failsafe, Stopped}
      && (state == Active <==> hasForeground)
      && Settled()
    }

    ghost predicate Settled() reads this {
      Inside(trace) == if hasForeground then Instance(instance) else Nobody
    }

    predicate Registered(id: string) {
      exists i | 0 <= i < |descriptors| :: descriptors[i].id == id && IsId(id)
    }

    function Validate(): Status {
      if |descriptors| == 0 || launcherId == "" then InvalidArgument else ValidateFrom(0)
    }

    function ValidateFrom(index: nat): Status
      requires index <= |descriptors|
      decreases |descriptors| - index
    {
      if index == |descriptors| then (if Registered(launcherId) then Ok else NotFound)
      else if !IsId(descriptors[index].id) || !descriptors[index].named || !descriptors[index].hasFactory then InvalidArgument
      else if exists other | 0 <= other < index :: descriptors[other].id == descriptors[index].id then InvalidState
      else ValidateFrom(index + 1)
    }

    /** The registry is sound exactly when it has the launcher, and every application a valid and distinct id, a name
        and a factory. */
    lemma ValidateExactly()
      ensures Validate() == Ok <==>
        && Registered(launcherId)
        && (forall i | 0 <= i < |descriptors| ::
              IsId(descriptors[i].id) && descriptors[i].named && descriptors[i].hasFactory)
        && (forall i, j | 0 <= i < j < |descriptors| :: descriptors[i].id != descriptors[j].id)
    {
      ValidateFromExactly(0);
    }

    lemma ValidateFromExactly(index: nat)
      requires index <= |descriptors|
      ensures ValidateFrom(index) == Ok <==>
        && Registered(launcherId)
        && (forall i | index <= i < |descriptors| ::
              IsId(descriptors[i].id) && descriptors[i].named && descriptors[i].hasFactory &&
              forall j | 0 <= j < i :: descriptors[j].id != descriptors[i].id)
      decreases |descriptors| - index
    {
      if index < |descriptors| {
        ValidateFromExactly(index + 1);
      }
    }

    lemma ValidateFromRegisters(index: nat)
      requires index <= |descriptors|
      ensures ValidateFrom(index) == Ok ==> Registered(launcherId)
      decreases |descriptors| - index
    {
      if index < |descriptors| {
        ValidateFromRegisters(index + 1);
      }
    }

    constructor (descriptors: seq<Descriptor>, launcherId: string)
      ensures Quiet() && state == Absent && trace == [] && fresh(commands) && fresh(renders)
    {
      this.descriptors, this.launcherId := descriptors, if IsId(launcherId) then launcherId else "";
      commands := new CommandArbiter();
      renders := new RenderAccumulator();
      state, hasForeground, foregroundId, generation, lastError, callbackActive := Absent, false, "", 0, Ok, false;
      instance, trace := 0, [];
    }

    // --- public calls -----------------------------------------------------------

    method Start() returns (status: Status, ghost only: Attempt)
      requires if callbackActive then Shape() else Quiet()
      modifies this, commands, renders
      ensures callbackActive == old(callbackActive)
      ensures old(callbackActive) ==> status == InvalidState && Untouched(old(Fields()), old(Pending()))
      ensures !old(callbackActive) ==> Quiet() && old(trace) <= trace
      ensures old(state) == Absent && status == Ok ==> Opened(launcherId, old(instance))
      ensures old(state) != Absent ==> Untouched(old(Fields()), old(Pending()))
      ensures !old(callbackActive) && old(state) != Absent ==> status == if state == Active then Ok else InvalidState
      ensures !old(callbackActive) && old(state) == Absent ==>
        if Validate() != Ok then status == Validate() == lastError && trace == old(trace) && state == Absent
        else Failing(only) && status == Outcome(only) &&
             trace == old(trace) + FallbackMarks(launcherId, old(instance) + 1, only)
      decreases if callbackActive then 0 else 10
    {
      only := Opening;
      if callbackActive {
        return InvalidState, only;
      }
      if state == Active {
        return Ok, only;
      }
      if state != Absent {
        return InvalidState, only;
      }
      var validation := Validate();
      if validation != Ok {
        lastError := validation;
        return validation, only;
      }
      ValidateFromRegisters(0);
      ghost var second;
      status, only, second := SwitchTo(launcherId, false);
    }

    method Step(withEvent: bool) returns (status: Status)
      requires if callbackActive then Shape() else Quiet()
      modifies this, commands, renders
      ensures callbackActive == old(callbackActive)
      ensures old(callbackActive) ==> status == InvalidState && Untouched(old(Fields()), old(Pending()))
      ensures !old(callbackActive) ==> Quiet() && old(trace) <= trace
      ensures old(state) != Active ==> status == InvalidState && Untouched(old(Fields()), old(Pending()))
      ensures !old(callbackActive) && old(state) == Active ==>
                status == LatestFailure(trace, |old(trace)|) && InTurn(trace, |old(trace)|) &&
                (withEvent ==> Began(|old(trace)|, old(instance)) && trace[|old(trace)|].Input?)
      decreases if callbackActive then 0 else 10
    {
      hide Disciplined, Inside, Newest, InTurn, LatestFailure;
      if callbackActive || state != Active || !hasForeground {
        return InvalidState;
      }
      if withEvent {
        ghost var asked;
        status, asked := DispatchInput();
      } else {
        ghost var command := commands.pending;
        ghost var first, second;
        status, first, second := ProcessCommand();
        DoneInTurn(old(trace), trace, command, status, |old(trace)|);
      }
      status := Draw(status, |old(trace)|);
    }

    // The end of a turn: what was asked for is drawn, and a failure of it is the status of the turn.
    method Draw(before: Status, ghost from: nat) returns (status: Status)
      requires Quiet() && InTurn(trace, from) && Undrawn(trace, from) && before == LatestFailure(trace, from)
      modifies this, commands, renders
      ensures Quiet() && old(trace) <= trace && status == LatestFailure(trace, from) && InTurn(trace, from)
      ensures old(state) == Active && old(renders.pending) ==> |trace| > |old(trace)|
      ensures (status == before && lastError == old(lastError)) || status == lastError != Ok
      decreases 8
    {
      hide Disciplined, Inside, Newest, InTurn, LatestFailure;
      status := before;
      if state == Active {
        var renderStatus := ProcessRender();
        if |trace| > |old(trace)| {
          DrawnInTurn(old(trace), trace[|trace| - 1], from);
        }
        if renderStatus != Ok {
          status := renderStatus;
        }
      }
    }

    method DispatchInput() returns (status: Status, ghost asked: CommandKind)
      requires if callbackActive then Shape() else Quiet()
      modifies this, commands, renders
      ensures callbackActive == old(callbackActive)
      ensures old(callbackActive) ==> status == InvalidState && Untouched(old(Fields()), old(Pending()))
      ensures !old(callbackActive) ==> Quiet() && old(trace) <= trace
      ensures old(state) != Active ==> status == InvalidState && Untouched(old(Fields()), old(Pending()))
      ensures !old(callbackActive) && old(state) == Active ==>
                status == LatestFailure(trace, |old(trace)|) && InTurn(trace, |old(trace)|) &&
                Began(|old(trace)|, old(instance)) && trace[|old(trace)|].Input? && Undrawn(trace, |old(trace)|)
      ensures !old(callbackActive) && old(state) == Active && asked == NoCommand ==>
                lastError == if status != Ok then status else old(lastError)
      decreases if callbackActive then 0 else 9
    {
      hide Disciplined, Inside, Newest, InTurn, LatestFailure;
      if callbackActive || state != Active || !hasForeground {
        return InvalidState, NoCommand;
      }
      status := InvokeCallback();
      Remember(status);
      Note(Input(instance, status));
      asked := commands.pending.kind;
      var commandStatus := Obey(|old(trace)|);
      if commandStatus != Ok {
        status := commandStatus;
      }
    }

    // The command that is pending after an event.
    method Obey(ghost from: nat) returns (status: Status)
      requires Quiet() && state == Active && |trace| == from + 1 && (trace[from].Input? || trace[from].Idled?)
      modifies this, commands, renders
      ensures Quiet() && old(trace) <= trace && InTurn(trace, from) && Undrawn(trace, from)
      ensures LatestFailure(trace, from) == if status != Ok then status else old(trace)[from].status
      ensures old(commands.pending).kind == NoCommand ==> status == Ok && lastError == old(lastError) && state == Active
      decreases 9, 0
    {
      hide Disciplined, Inside, Newest, InTurn;
      ghost var command := commands.pending;
      ghost var first, second;
      status, first, second := ProcessCommand();
      DoneInTurn(old(trace), trace, command, status, from);
    }

    method Idle() returns (status: Status, ghost asked: CommandKind)
      requires if callbackActive then Shape() else Quiet()
      modifies this, commands, renders
      ensures callbackActive == old(callbackActive)
      ensures old(callbackActive) ==> status == InvalidState && Untouched(old(Fields()), old(Pending()))
      ensures !old(callbackActive) ==> Quiet() && old(trace) <= trace
      ensures old(state) != Active ==> status == InvalidState && Untouched(old(Fields()), old(Pending()))
      ensures !old(callbackActive) && old(state) == Active ==>
                status == LatestFailure(trace, |old(trace)|) && InTurn(trace, |old(trace)|) &&
                Began(|old(trace)|, old(instance)) && trace[|old(trace)|].Idled?
      ensures !old(callbackActive) && old(state) == Active && asked == NoCommand ==>
                lastError == if status != Ok then status else old(lastError)
      decreases if callbackActive then 0 else 9
    {
      hide Disciplined, Inside, Newest, InTurn, LatestFailure;
      if callbackActive || state != Active || !hasForeground {
        return InvalidState, NoCommand;
      }
      status := InvokeCallback();
      Remember(status);
      Note(Idled(instance, status));
      asked := commands.pending.kind;
      var commandStatus := Obey(|old(trace)|);
      if commandStatus != Ok {
        status := commandStatus;
      }
      status := Draw(status, |old(trace)|);
    }

    method Recover(reason: Status) returns (status: Status, ghost only: Attempt)
      requires if callbackActive then Shape() else Quiet()
      modifies this, commands, renders
      ensures callbackActive == old(callbackActive)
      ensures old(callbackActive) ==> status == InvalidState && Untouched(old(Fields()), old(Pending()))
      ensures !old(callbackActive) ==> Quiet() && old(trace) <= trace
      ensures !old(callbackActive) && old(state) in {Active, Failsafe} ==>
        state == Failsafe || Opened(launcherId, old(instance))
      ensures !old(callbackActive) && old(state) == Active && old(foregroundId) == launcherId ==>
        state == Failsafe && status == reason && trace == old(trace) + [Exit(instance), FailsafeShown(reason)]
      ensures !old(callbackActive) && old(state) in {Active, Failsafe} &&
              !(old(state) == Active && old(foregroundId) == launcherId) ==>
        Failing(only) && status == Outcome(only) &&
        trace == old(trace) + (if old(hasForeground) then [Exit(old(instance))] else []) +
                 FallbackMarks(launcherId, old(instance) + 1, only)
      ensures !old(callbackActive) && old(state) !in {Active, Failsafe} ==>
        status == InvalidState && Untouched(old(Fields()), old(Pending()))
      decreases if callbackActive then 0 else 10
    {
      hide Disciplined, Inside, Newest, FallbackMarks;
      only := Opening;
      if callbackActive || (state != Active && state != Failsafe) {
        return InvalidState, only;
      }
      if state == Active && foregroundId == launcherId {
        EnterFailsafe(reason);
        return reason, only;
      }
      ghost var exited := ExitAndDestroyForeground();
      ClearRequests();
      lastError := reason;
      status, only := EnterLauncherFallback(reason);
    }

    method Stop() returns (status: Status, ghost exited: Status)
      requires if callbackActive then Shape() else Quiet()
      modifies this, commands, renders
      ensures callbackActive == old(callbackActive)
      ensures old(callbackActive) ==> status == InvalidState && Untouched(old(Fields()), old(Pending()))
      ensures !old(callbackActive) ==> Quiet() && state == Stopped && OnlySwitched(old(trace), trace)
      ensures !old(callbackActive) && old(state) != Stopped ==>
        trace == old(trace) + LeaveMarks(old(Leaving())) + [ShutDown] && !renders.pending && commands.pending == NOTHING &&
        lastError == if status != Ok then status else if exited != Ok then exited else old(lastError)
      ensures old(state) == Stopped ==> trace == old(trace)
      decreases if callbackActive then 0 else 6
    {
      hide Disciplined, Inside, Newest, OnlySwitched, LeaveMarks;
      if callbackActive {
        return InvalidState, Ok;
      }
      if state == Stopped {
        SwitchesNothing(trace);
        return Ok, Ok;
      }
      status, exited := Halt();
      StopSwitches(old(trace), old(Leaving()));
    }

    // The application inside leaves, and the platform is told to shut down.
    method Halt() returns (status: Status, ghost exited: Status)
      requires Quiet() && !callbackActive
      modifies this, commands, renders
      ensures Quiet() && state == Stopped && !renders.pending && commands.pending == NOTHING
      ensures trace == old(trace) + LeaveMarks(old(Leaving())) + [ShutDown]
      ensures lastError == if status != Ok then status else if exited != Ok then exited else old(lastError)
      decreases 5
    {
      hide Disciplined, Inside, Newest;
      exited := ExitAndDestroyForeground();
      ClearRequests();
      Extend(trace, ShutDown);
      trace := trace + [ShutDown];
      status := InvokeCallback();
      Remember(status);
      state := Stopped;
    }

    method Destroy()
      requires Quiet()
      modifies this, commands, renders
      ensures Shape() && !hasForeground && Inside(trace) == Nobody && old(trace) <= trace
      decreases 10
    {
      ghost var exited := ExitAndDestroyForeground();
    }

    // --- the switch ---------------------------------------------------------------

    /** Who would leave in a switch. */
    ghost function Leaving(): Foreground reads this {
      if hasForeground then Instance(instance) else Nobody
    }

    /** What a switch ends in, by the attempt that decided: its application is open, or failsafe is shown, or all is as
        before. */
    ghost predicate EndsIn(id: string, n: nat, a: Attempt, shown: bool, was: (bool, string, nat)) reads this {
      if a.Opening? then state == Active && hasForeground && foregroundId == id && instance == n
      else if shown then state == Failsafe
      else
        (hasForeground, foregroundId, instance) == was && state == if hasForeground then Active else Absent
    }

    ghost function Who(): (bool, string, nat) reads this { (hasForeground, foregroundId, instance) }

    /** Opens an application in place of the one inside; `first` and `second` are the attempts it took. */
    method SwitchTo(id: string, allowFallback: bool) returns (status: Status, ghost first: Attempt, ghost second: Attempt)
      requires Quiet() && Registered(launcherId)
      modifies this, commands, renders
      ensures Quiet() && OnlySwitched(old(trace), trace)
      ensures !Registered(id) ==> status == NotFound && Untouched(old(Fields()), old(Pending()))
      ensures Registered(id) ==>
        Switched(old(trace), id, allowFallback, old(Leaving()), old(instance) + 1, first, second, status, old(Who()))
      ensures status == Ok ==> Opened(id, old(instance)) || (allowFallback && Opened(launcherId, old(instance)))
      ensures status != Ok && state == Active ==>
        old(hasForeground) && foregroundId == old(foregroundId) && instance == old(instance)
      decreases if allowFallback then 5 else 3, 4
    {
      hide Disciplined, Inside, Newest, EnterMarks, FallbackMarks, SwitchMarks, OnlySwitched;
      first, second := Opening, Opening;
      SwitchesNothing(trace);
      if !Registered(id) {
        return NotFound, first, second;
      }
      ghost var log, leaving, n := trace, Leaving(), instance + 1;
      ghost var answered, made;
      var failure;
      failure, answered, made := Create(id);
      if failure != Ok {
        first := NotCreated(failure);
        if !hasForeground && allowFallback {
          status, second := EnterLauncherFallback(failure);
        } else {
          status := failure;
          if !hasForeground && id == launcherId {
            EnterFailsafe(failure);
          }
        }
      } else {
        status, first, second := EnterCandidate(id, allowFallback);
      }
      SwitchFromCreation(log, id, launcherId, allowFallback, leaving, n, first, second);
      assert trace == log + SwitchMarks(id, launcherId, allowFallback, leaving, n, first, second);
      SwitchesOnly(log, id, launcherId, allowFallback, leaving, n, first, second);
    }

    // Asks the factory for a candidate; without one, everything is as before, but for the error.
    method Create(id: string) returns (failure: Status, ghost answered: Status, ghost made: bool)
      requires Quiet() && Registered(launcherId)
      modifies this, commands, renders
      ensures Shape() && !callbackActive && Settled() && Who() == old(Who()) && generation == old(generation)
      ensures trace == old(trace) + [Created(id, failure)]
      ensures failure == if answered != Ok then answered else if made then Ok else NoMemory
      ensures if failure == Ok then state == Creating
              else Quiet() && lastError == failure && state == if hasForeground then Active else Absent
      decreases 2
    {
      hide Disciplined, Inside, Newest;
      state := Creating;
      var created := *;
      failure := InvokeCallback();
      answered, made := failure, created;
      if failure == Ok && !created {
        failure := NoMemory;
      }
      Note(Created(id, failure));
      if failure != Ok {
        var _ := InvokeCallback();
        lastError := failure;
        state := if hasForeground then Active else Absent;
      }
    }

    /** The marks, the status and the end of a switch, as its attempts decide them. */
    ghost predicate Switched(log: seq<Mark>, id: string, allowed: bool, leaving: Foreground, n: nat, a: Attempt, b: Attempt,
                             status: Status, was: (bool, string, nat))
      reads this
    {
      Failing(a) && Failing(b) &&
      trace == log + SwitchMarks(id, launcherId, allowed, leaving, n, a, b) &&
      if FallsBack(id, launcherId, allowed, leaving, a)
      then status == Outcome(b) && EndsIn(launcherId, NextInstance(n, a), b, true, was)
      else status == Outcome(a) && EndsIn(id, n, a, GivesUp(id, launcherId, leaving, a), was)
    }

    // The second half of a switch: the candidate exists, the old foreground leaves.
    method EnterCandidate(id: string, allowFallback: bool) returns (status: Status, ghost first: Attempt, ghost second: Attempt)
      requires Shape() && !callbackActive && Settled() && Registered(launcherId) && state == Creating
      modifies this, commands, renders
      ensures Quiet() && !first.NotCreated? && Failing(first) && Failing(second)
      ensures var leaving, n := old(Leaving()), old(instance) + 1;
        && trace == old(trace) + EnterMarks(leaving, n, first) +
                    AfterAttempt(id, launcherId, allowFallback, leaving, n, first, second)
        && if FallsBack(id, launcherId, allowFallback, leaving, first)
           then status == Outcome(second) && EndsIn(launcherId, n + 1, second, true, old(Who()))
           else status == Outcome(first) && EndsIn(id, n, first, true, old(Who()))
      decreases if allowFallback then 5 else 3, 3
    {
      hide Disciplined, Inside, Newest, FallbackMarks, AttemptMarks;
      first, second := Opening, Opening;
      ghost var leaving, n := Leaving(), instance + 1;
      Install(id);
      var enterStatus := InvokeCallback();
      Note(Entered(instance, enterStatus));
      if enterStatus == Ok {
        state := Active;
        assert trace == old(trace) + EnterMarks(leaving, n, first);
        return Ok, first, second;
      }
      first := NotEntered(enterStatus);
      status, second := AbandonCandidate(id, allowFallback, enterStatus);
    }

    // The candidate failed to enter: it leaves, and the launcher is tried or failsafe shown.
    method AbandonCandidate(id: string, allowFallback: bool, reason: Status) returns (status: Status, ghost second: Attempt)
      requires Shape() && !callbackActive && Settled() && Registered(launcherId) && hasForeground && state == Entering
      modifies this, commands, renders
      ensures Quiet() && Failing(second)
      ensures if allowFallback && id != launcherId
              then status == Outcome(second) && EndsIn(launcherId, old(instance) + 1, second, true, old(Who())) &&
                   trace == old(trace) + [Exit(old(instance))] + FallbackMarks(launcherId, old(instance) + 1, second)
              else status == reason && state == Failsafe && lastError == reason &&
                   trace == old(trace) + [Exit(old(instance))] + [FailsafeShown(reason)]
      decreases if allowFallback then 5 else 2, 2
    {
      hide Disciplined, Inside, Newest, FallbackMarks;
      second := Opening;
      lastError := reason;
      ghost var exited := ExitAndDestroyForeground();
      ClearRequests();
      if allowFallback && id != launcherId {
        status, second := EnterLauncherFallback(reason);
        return;
      }
      EnterFailsafe(reason);
      status := reason;
    }

    ghost method Note(m: Mark)
      requires Shape() && Allowed(trace, m) && !m.Enter? && !m.Exit?
      modifies this`trace
      ensures Shape() && trace == old(trace) + [m] && Inside(trace) == Inside(old(trace))
    {
      Extend(trace, m);
      trace := trace + [m];
    }

    // The old foreground leaves and the candidate takes its place.
    method Install(id: string)
      requires Shape() && !callbackActive && Settled() && Registered(launcherId) && state == Creating
      modifies this, commands, renders
      ensures Shape() && !callbackActive && Settled() && hasForeground && state == Entering
      ensures trace == old(trace) + LeaveMarks(old(Leaving())) + [Enter(instance)]
      ensures foregroundId == id && instance == old(instance) + 1 && !renders.pending && commands.pending == NOTHING
      decreases 2, 1
    {
      hide Disciplined, Inside, Newest;
      ghost var exited := ExitAndDestroyForeground();
      generation := if generation == 0xffff_ffff then 0 else generation + 1;
      ClearRequests();
      foregroundId := id;
      hasForeground := true;
      instance := instance + 1;
      Extend(trace, Enter(instance));
      trace := trace + [Enter(instance)];
      state := Entering;
    }

    method EnterLauncherFallback(reason: Status) returns (status: Status, ghost only: Attempt)
      requires Shape() && !callbackActive && Settled() && !hasForeground && Registered(launcherId)
      requires state in {Absent, Failsafe}
      modifies this, commands, renders
      ensures Quiet() && Failing(only) && status == Outcome(only)
      ensures trace == old(trace) + FallbackMarks(launcherId, old(instance) + 1, only)
      ensures if status == Ok then Opened(launcherId, old(instance)) && instance == old(instance) + 1 else state == Failsafe
      decreases 4
    {
      ghost var second;
      status, only, second := SwitchTo(launcherId, false);
      // A launcher that fails has shown failsafe already: the call for it that follows here is never reached.
      assert status == Ok || state == LifecycleState.Failsafe;
    }

    method EnterFailsafe(reason: Status)
      requires Shape() && !callbackActive && Settled() && Registered(launcherId)
      requires state != Exiting && state != Entering && state != Creating
      modifies this, commands, renders
      ensures Quiet() && state == Failsafe && instance == old(instance) && lastError == reason
      ensures trace == old(trace) + (if old(hasForeground) then [Exit(instance)] else []) + [FailsafeShown(reason)]
      ensures !renders.pending && commands.pending == NOTHING
      decreases 2, 1
    {
      hide Disciplined, Inside, Newest;
      ghost var exited := ExitAndDestroyForeground();
      ClearRequests();
      state := LifecycleState.Failsafe;
      lastError := reason;
      Extend(trace, FailsafeShown(reason));
      trace := trace + [FailsafeShown(reason)];
      var _ := InvokeCallback();
    }

    // Keeps the latest failure.
    method Remember(status: Status)
      modifies this`lastError
      ensures lastError == if status != Ok then status else old(lastError)
    {
      if status != Ok {
        lastError := status;
      }
    }

    method ClearRequests()
      modifies commands, renders
      ensures !renders.pending && renders.asked == [] && commands.pending == NOTHING
    {
      renders.Discard();
      commands.Clear();
    }

    // Runs application code under the reentry guard.
    method InvokeCallback() returns (status: Status)
      requires Shape() && !callbackActive
      modifies this, commands, renders
      ensures Shape() && !callbackActive && Fields() == old(Fields())
      ensures old(renders.asked) <= renders.asked && (old(renders.pending) ==> renders.pending)
      ensures state != Entering && state != Active ==> Pending() == old(Pending())
      decreases 1, 1
    {
      callbackActive := true;
      status := Callback();
      callbackActive := false;
    }

    method ExitAndDestroyForeground() returns (ghost exited: Status)
      requires Shape() && !callbackActive && Settled()
      modifies this, commands, renders
      ensures Shape() && !callbackActive && Settled() && !hasForeground
      ensures state == if old(hasForeground) then Absent else old(state)
      ensures trace == if old(hasForeground) then old(trace) + [Exit(instance)] else old(trace)
      ensures instance == old(instance) && generation == old(generation)
      ensures lastError == if exited != Ok then exited else old(lastError)
      ensures !old(hasForeground) ==> exited == Ok
      decreases 2, 0
    {
      hide Disciplined, Inside, Newest;
      exited := Ok;
      if !hasForeground {
        foregroundId := "";
        return;
      }
      BeginExit();
      callbackActive := true;
      var exitStatus := Callback();
      hasForeground := false;
      var _ := Callback();   // the destructor, still under the reentry guard
      callbackActive := false;
      exited := exitStatus;
      Remember(exitStatus);
      foregroundId := "";
      state := Absent;
    }

    method BeginExit()
      requires Shape() && Inside(trace) == Instance(instance)
      modifies this`state, this`trace
      ensures Shape() && state == Exiting && trace == old(trace) + [Exit(instance)] && Inside(trace) == Nobody
    {
      state := Exiting;
      Extend(trace, Exit(instance));
      trace := trace + [Exit(instance)];
    }

    method ProcessCommand() returns (status: Status, ghost first: Attempt, ghost second: Attempt)
      requires Quiet() && state == Active
      modifies this, commands, renders
      ensures Quiet() && Done(old(trace), trace, old(commands.pending), status)
      ensures var c := old(commands.pending);
              (c.kind == NoCommand ==> status == Ok && Untouched(old(Fields()), old(Pending()))) &&
              (c.kind == Shutdown ==> state == Stopped) &&
              (c.kind == Open && status == Ok ==> Opened(c.target, old(instance)) || Opened(launcherId, old(instance))) &&
              (c.kind in {Back, Home} && status == Ok ==> Opened(launcherId, old(instance)))
      ensures var c := old(commands.pending);
              var id := if c.kind == Open then c.target else launcherId;
              c.kind in {Open, Back, Home} ==>
                if Registered(id)
                then trace == old(trace) +
                              SwitchMarks(id, launcherId, c.kind == Open, Instance(old(instance)), old(instance) + 1,
                                          first, second) +
                              [Obeyed(c, status)]
                else status == NotFound && trace == old(trace) + [Obeyed(c, NotFound)]
      decreases 8
    {
      hide Disciplined, Inside, Newest, SwitchMarks, EndsIn, FallsBack, GivesUp, Outcome, Switching, Registered;
      first, second := Opening, Opening;
      var taken, command := commands.Take();
      if !taken {
        return Ok, first, second;
      }
      match command.kind {
        case Open => status, first, second := SwitchTo(command.target, true);
        case Back => status, first, second := SwitchTo(launcherId, false);
        case Home => status, first, second := SwitchTo(launcherId, false);
        case Shutdown =>
          ghost var exited;
          status, exited := Stop();
        case NoCommand => status := Ok;
      }
      ghost var log := trace;
      Note(Obeyed(command, status));
      assert trace[..|trace| - 1] == log;
    }

    method ProcessRender() returns (status: Status)
      requires Quiet() && state == Active
      modifies this, commands, renders
      ensures Quiet() && state == Active && old(trace) <= trace
      ensures old(renders.pending) ==>
        trace == old(trace) + [Render(instance, old(renders.asker), old(renders.request), old(renders.asked), status)]
      ensures !old(renders.pending) ==> trace == old(trace) && status == Ok
      ensures lastError == if status != Ok then status else old(lastError)
      ensures status != Ok ==>
        renders.pending && forall i :: 0 <= i < |old(renders.asked)| ==> old(renders.asked)[i] in renders.asked
      decreases 7
    {
      hide Disciplined, Inside, Newest;
      ghost var asker := renders.asker;
      var taken, request;
      ghost var asked;
      taken, request, asked := renders.TakeFor(generation);
      if !taken {
        return Ok;
      }
      status := InvokeCallback();
      Note(Render(instance, asker, request, asked, status));
      if status != Ok {
        lastError := status;
        // failed work is kept for a retry
        ghost var since := renders.asked;
        renders.Submit(request, instance, asked);
        assert renders.asked == since + asked;
      }
    }

    // --- what applications may do inside a callback -----------------------------------

    method SubmitCommand(command: AppCommand) returns (r: SubmitResult)
      requires Shape()
      modifies commands
      ensures !callbackActive || (state != Entering && state != Active) ==> r == Rejected && commands.pending == old(commands.pending)
      ensures callbackActive && (state == Entering || state == Active) ==> commands.pending == Arbitrate(old(commands.pending), command)
      ensures Shape()
    {
      if !callbackActive || (state != Entering && state != Active) {
        return Rejected;
      }
      r := commands.Submit(command);
    }

    method SubmitRender(dirty: DirtyRegion, intent: RenderIntent) returns (ok: bool)
      requires Shape()
      modifies renders
      ensures Shape()
      ensures ok <==> callbackActive && !IsEmpty(dirty) && (state == Entering || state == Active)
      ensures ok ==> renders.pending && renders.asker == instance && Inside(trace) == Instance(instance)
      ensures renders.asked == if ok then old(renders.asked) + [Ask(dirty, intent)] else old(renders.asked)
      ensures ok ==>
        var one := RenderRequest(generation, dirty, intent);
        renders.request == if old(renders.pending) then Merge(old(renders.request), one) else one
      ensures !ok ==> Pending() == old(Pending())
    {
      if !callbackActive || IsEmpty(dirty) || (state != Entering && state != Active) {
        return false;
      }
      var one := RenderRequest(generation, dirty, intent);
      OneSummarizes(one);
      renders.Submit(one, instance, [Ask(dirty, intent)]);
      return true;
    }

    /** A later instance than `before` is in the foreground, of the application `id`. */
    ghost predicate Opened(id: string, before: nat) reads this {
      state == Active && hasForeground && foregroundId == id && instance > before
    }

    /** The mark at `from` reached that instance. */
    ghost predicate Began(from: nat, n: nat) reads this {
      from < |trace| && (trace[from].Input? || trace[from].Idled?) && trace[from].instance == n
    }

    ghost function Fields(): (LifecycleState, bool, string, uint32, Status, nat, seq<Mark>) reads this {
      (state, hasForeground, foregroundId, generation, lastError, instance, trace)
    }

    ghost function Pending(): (AppCommand, bool, RenderRequest, nat, seq<Ask>) reads this, commands, renders {
      (commands.pending, renders.pending, renders.request, renders.asker, renders.asked)
    }

    ghost predicate Untouched(fields: (LifecycleState, bool, string, uint32, Status, nat, seq<Mark>),
                              pending: (AppCommand, bool, RenderRequest, nat, seq<Ask>))
      reads this, commands, renders
    {
      Fields() == fields && Pending() == pending
    }

    /** Application code run by a callback: any number of any calls on the runtime. */
    method Callback() returns (status: Status)
      requires Shape() && callbackActive
      modifies this, commands, renders
      ensures Shape() && callbackActive && Fields() == old(Fields())
      ensures old(renders.asked) <= renders.asked && (old(renders.pending) ==> renders.pending)
      ensures state != Entering && state != Active ==> Pending() == old(Pending())
      decreases 1, 0
    {
      var calls: int :| calls >= 0;
      for i := 0 to calls
        invariant Shape() && callbackActive && Fields() == old(Fields())
        invariant old(renders.asked) <= renders.asked && (old(renders.pending) ==> renders.pending)
        invariant state != Entering && state != Active ==> Pending() == old(Pending())
      {
        var which: int, reason: Status, command: AppCommand, dirty: DirtyRegion := *, *, *, *;
        if which == 0 {
          var _, _ := Start();
        } else if which == 1 {
          var _ := Step(true);
        } else if which == 2 {
          var _, _ := DispatchInput();
        } else if which == 3 {
          var _, _ := Idle();
        } else if which == 4 {
          var _, _ := Recover(reason);
        } else if which == 5 {
          var _, _ := Stop();
        } else if which == 6 {
          var _ := SubmitCommand(command);
        } else if which == 7 {
          var _ := SubmitRender(dirty, Quality);
        } else {
          var _ := SubmitRender(dirty, Fast);
        }
      }
      status := *;
    }
  }
}
