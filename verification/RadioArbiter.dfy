/** Paces new durable values while Wi-Fi needs the antenna; everything already under way goes through. */
module RadioArbiter {
  import opened Bytes
  import S = SyncSession
  import E = SyncEngine

  const SYNC_INTERVAL_MS: uint32 := 250
  const WIFI_QUIET_MS: uint32 := 500

  datatype RadioMode = Companion | WifiBurst | SharedIdle | WifiStopping

  /** `WifiBusy` stands for the states from loading credentials to transferring. */
  datatype WifiState = WifiStopped | WifiBusy | Stopping | StopFailed

  datatype BookState = BookOff | BookStarting | BookSharing | BookStopping | BookComplete | BookFailed

  datatype Books = Books(state: BookState, clientActive: bool, activityMs: uint32)

  predicate Pacing(mode: RadioMode) { mode == WifiBurst || mode == WifiStopping }

  function ModeFor(wifi: WifiState, books: Books, claimed: bool, now: uint32): RadioMode {
    if wifi == Stopping || wifi == StopFailed || books.state == BookStopping then WifiStopping
    else if wifi != WifiStopped || books.state == BookStarting then WifiBurst
    else if books.state == BookSharing then
      var elapsed := Minus(now, books.activityMs);
      if books.clientActive || elapsed >= 0x8000_0000 || elapsed < WIFI_QUIET_MS then WifiBurst else SharedIdle
    else if claimed then WifiBurst
    else Companion
  }

  datatype Arbiter = Arbiter(mode: RadioMode, lastSyncMs: uint32)

  function Updated(a: Arbiter, wifi: WifiState, books: Books, claimed: bool, now: uint32): Arbiter {
    var mode := ModeFor(wifi, books, claimed, now);
    Arbiter(mode, if Pacing(mode) && !Pacing(a.mode) then now else a.lastSyncMs)
  }

  function DelayMs(a: Arbiter, now: uint32): uint32 {
    var elapsed := Minus(now, a.lastSyncMs);
    if Pacing(a.mode) && elapsed < SYNC_INTERVAL_MS then SYNC_INTERVAL_MS - elapsed else 0
  }

  ghost function Polled(a: Arbiter, x: S.Session, s: E.Store, next: uint32, now: uint32, awaiting: bool, sent: bool)
    : (Arbiter, S.Polled)
    requires E.ValidStore(s)
  {
    var r := S.PolledWith(x, s, next, now, !awaiting && DelayMs(a, now) == 0, sent);
    (if r.admitted then a.(lastSyncMs := now) else a, r)
  }

  class RadioArbiter {
    var mode: RadioMode
    var lastSyncMs: uint32

    ghost function View(): Arbiter
      reads this
    {
      Arbiter(mode, lastSyncMs)
    }

    constructor ()
      ensures View() == Arbiter(Companion, 0)
    {
      mode, lastSyncMs := Companion, 0;
    }

    method Update(wifi: WifiState, books: Books, claimed: bool, now: uint32)
      modifies this
      ensures View() == Updated(old(View()), wifi, books, claimed, now)
    {
      var next := Companion;
      if wifi == Stopping || wifi == StopFailed || books.state == BookStopping {
        next := WifiStopping;
      } else if wifi != WifiStopped || books.state == BookStarting {
        next := WifiBurst;
      } else if books.state == BookSharing {
        var elapsed := Minus(now, books.activityMs);
        var recent := elapsed >= 0x8000_0000 || elapsed < WIFI_QUIET_MS;
        next := if books.clientActive || recent then WifiBurst else SharedIdle;
      } else if claimed {
        next := WifiBurst;
      }
      var wasPacing := Pacing(mode);
      mode := next;
      if Pacing(mode) && !wasPacing {
        lastSyncMs := now;
      }
    }

    method SyncDelayMs(now: uint32) returns (delay: uint32)
      ensures delay == DelayMs(View(), now)
    {
      var elapsed := Minus(now, lastSyncMs);
      delay := if Pacing(mode) && elapsed < SYNC_INTERVAL_MS then SYNC_INTERVAL_MS - elapsed else 0;
    }

    method PollSync(session: S.SyncSession, next: uint32, now: uint32, awaiting: bool, sent: bool)
      returns (following: uint32, handed: seq<byte>)
      requires session.Valid()
      modifies this, session, session.outbound
      ensures session.Valid()
      ensures var (a, r) := Polled(old(View()), old(session.View()), session.engine.View(), next, now, awaiting, sent);
              View() == a && session.View() == r.session && following == r.next && handed == r.handed
    {
      var delay := SyncDelayMs(now);
      hide S.PolledWith, S.SyncSession.View, S.SyncSession.Valid;
      var admitted;
      admitted, following, handed := session.Poll(next, now, !awaiting && delay == 0, sent);
      if admitted {
        lastSyncMs := now;
      }
    }

    method NextSyncWakeMs(session: S.SyncSession, now: uint32, awaiting: bool) returns (next: uint32)
      requires session.Valid()
      ensures next == NextWake(View(), session.View(), session.engine.View(), now, awaiting)
    {
      hide S.NextWakeMs, S.Converged;
      var delay := SyncDelayMs(now);
      next := session.NextWake(now, !awaiting && delay == 0);
      var converged := session.IsConverged();
      if !awaiting && delay != 0 && session.status == S.Active && !converged {
        next := if delay < next then delay else next;
      }
    }
  }

  function NextWake(a: Arbiter, x: S.Session, s: E.Store, now: uint32, awaiting: bool): uint32 {
    var delay := DelayMs(a, now);
    var next := S.NextWakeMs(x, s, now, !awaiting && delay == 0);
    if !awaiting && delay != 0 && x.status == S.Active && !S.Converged(x, s) && delay < next then delay else next
  }

  // --- replies and retries pass ---------------------------------------------------------

  /** A new value is admitted only when admission is allowed. */
  lemma AdmittedOnlyWhenAllowed(x: S.Session, s: E.Store, next: uint32, now: uint32, sent: bool)
    requires E.ValidStore(s)
    ensures !S.PolledWith(x, s, next, now, false, sent).admitted
  {
    hide S.Converged, E.ValidStore, S.Admit;
  }

  /** A waiting reply and a value in flight are handled alike, whatever the mode and the delay. */
  lemma PacingHoldsBackOnlyNewValues(a: Arbiter, b: Arbiter, x: S.Session, s: E.Store, next: uint32, now: uint32,
                                     awaiting: bool, sent: bool)
    requires E.ValidStore(s) && (x.reply != [] || x.outbound != [])
    ensures Polled(a, x, s, next, now, awaiting, sent).1 == Polled(b, x, s, next, now, false, sent).1
  {
    hide S.Converged, E.ValidStore, S.Resume;
  }

  // --- how often new values are admitted --------------------------------------------------

  /** Time as it really passes; the clock shows it modulo 2^32. */
  function Clock(time: nat): uint32 { (time % WORD) as uint32 }

  datatype Event =
    | Update(wifi: WifiState, books: Books, claimed: bool)
    | Poll(session: S.Session, store: E.Store, next: uint32, awaiting: bool, sent: bool)

  datatype Timed = Timed(time: nat, event: Event)

  datatype Progress = Progress(arbiter: Arbiter, admissions: nat)

  ghost function Happens(p: Progress, t: Timed): Progress {
    match t.event
    case Update(wifi, books, claimed) => p.(arbiter := Updated(p.arbiter, wifi, books, claimed, Clock(t.time)))
    case Poll(x, s, next, awaiting, sent) =>
      if E.ValidStore(s) then
        var (a, r) := Polled(p.arbiter, x, s, next, Clock(t.time), awaiting, sent);
        Progress(a, p.admissions + if r.admitted then 1 else 0)
      else p
  }

  ghost function After(p: Progress, events: seq<Timed>): Progress {
    if events == [] then p else Happens(After(p, events[..|events| - 1]), events[|events| - 1])
  }

  /** The events happen in order from `start` on, and pacing goes on behind each of them. */
  ghost predicate PacingStretch(p: Progress, start: nat, events: seq<Timed>) {
    (forall i :: 0 <= i < |events| ==> start <= events[i].time) &&
    (forall i, j :: 0 <= i < j < |events| ==> events[i].time <= events[j].time) &&
    forall i :: 0 <= i <= |events| ==> Pacing(After(p, events[..i]).arbiter.mode)
  }

  lemma ElapsedIsReal(last: nat, time: nat)
    requires last <= time
    ensures Minus(Clock(time), Clock(last)) as int <= time - last
  {
    assert (time - last) % WORD == (time % WORD - last % WORD) % WORD;
  }

  /** A delay that has ended by `time` was no longer than the real time since `start`. */
  lemma DelayIsReal(a: Arbiter, start: nat, time: nat)
    requires start <= time && Pacing(a.mode) && DelayMs(a, Clock(time)) == 0
    ensures DelayMs(a, Clock(start)) as int <= time - start
  {
    var delay := DelayMs(a, Clock(start));
    if time - start < delay as int {
      var later := (time - start) as uint32;
      ClockPlus(start, later);
      DelayEnds(a, Clock(start), later);
    }
  }

  lemma ClockPlus(time: nat, later: uint32)
    ensures Plus(Clock(time), later) == Clock(time + later as nat)
  {
    assert (time % WORD + later as int) % WORD == (time + later as int) % WORD;
  }

  /**
   * Of what was admitted since `start`, the first came behind the delay that was left then, and each other one a whole
   * interval behind the one before; `last` is the time of the latest.
   */
  ghost predicate Paced(p0: Progress, p: Progress, start: nat, last: nat, now: nat) {
    start <= now && p0.admissions <= p.admissions &&
    if p.admissions == p0.admissions then p.arbiter.lastSyncMs == p0.arbiter.lastSyncMs
    else
      start <= last <= now && p.arbiter.lastSyncMs == Clock(last) &&
      SYNC_INTERVAL_MS as int * (p.admissions - p0.admissions - 1) <=
        last - start - DelayMs(p0.arbiter, Clock(start)) as int
  }

  lemma OneEventIsPaced(p0: Progress, p: Progress, t: Timed, start: nat, last: nat, now: nat) returns (latest: nat)
    requires Paced(p0, p, start, last, now) && now <= t.time
    requires Pacing(p0.arbiter.mode) && Pacing(p.arbiter.mode) && Pacing(Happens(p, t).arbiter.mode)
    ensures Paced(p0, Happens(p, t), start, latest, t.time)
  {
    hide E.ValidStore, S.PolledWith, Minus;
    latest := last;
    if t.event.Poll? && Happens(p, t).admissions > p.admissions {
      AdmittedOnlyWhenAllowed(t.event.session, t.event.store, t.event.next, Clock(t.time), t.event.sent);
      if p.admissions == p0.admissions {
        DelayIsReal(p0.arbiter, start, t.time);
      } else {
        ElapsedIsReal(last, t.time);
      }
      latest := t.time;
    }
  }

  lemma {:induction false} StretchIsPaced(p: Progress, start: nat, events: seq<Timed>) returns (last: nat)
    requires PacingStretch(p, start, events)
    ensures Paced(p, After(p, events), start, last, if events == [] then start else events[|events| - 1].time)
  {
    hide Happens, DelayMs;
    assert events[..0] == [];
    assert Pacing(After(p, events[..0]).arbiter.mode);
    if events == [] {
      last := start;
    } else {
      var front := events[..|events| - 1];
      assert forall i :: 0 <= i <= |front| ==> front[..i] == events[..i];
      assert events[..|events|] == events && events[..|front|] == front;
      var earlier := StretchIsPaced(p, start, front);
      last := OneEventIsPaced(p, After(p, front), events[|front|], start, earlier,
                              if front == [] then start else front[|front| - 1].time);
    }
  }

  ghost predicate Within(events: seq<Timed>, start: nat, duration: nat) {
    forall i :: 0 <= i < |events| ==> events[i].time <= start + duration
  }

  /** Admissions of a stretch, counted from its start. */
  ghost function Admissions(p: Progress, events: seq<Timed>): int {
    After(p, events).admissions - p.admissions
  }

  /**
   * While pacing goes on for `duration` milliseconds from any moment, new values are admitted at most once per
   * interval behind the delay that was left at that moment.
   */
  lemma {:induction false} AnyWindowIsPaced(p: Progress, start: nat, events: seq<Timed>, duration: nat)
    requires PacingStretch(p, start, events) && Within(events, start, duration)
    ensures var left := DelayMs(p.arbiter, Clock(start)) as int;
            Admissions(p, events) <=
            if duration < left then 0 else (duration - left) / SYNC_INTERVAL_MS as int + 1
    ensures Admissions(p, events) <= duration / SYNC_INTERVAL_MS as int + 1
  {
    hide Happens, DelayMs;
    var last := StretchIsPaced(p, start, events);
    var n, left := Admissions(p, events), DelayMs(p.arbiter, Clock(start)) as int;
    if n > 0 {
      IntervalsFit(n - 1, duration - left);
      IntervalsFit(n - 1, duration);
    }
  }

  lemma IntervalsFit(n: int, time: int)
    requires SYNC_INTERVAL_MS as int * n <= time
    ensures n <= time / SYNC_INTERVAL_MS as int
  {
  }

  /** From the moment pacing begins, no more than one new value per interval is admitted. */
  lemma {:induction false} AdmissionsArePaced(a: Arbiter, wifi: WifiState, books: Books, claimed: bool,
                                              admissions: nat, start: nat, events: seq<Timed>, duration: nat)
    requires !Pacing(a.mode)
    requires var p := Progress(Updated(a, wifi, books, claimed, Clock(start)), admissions);
             PacingStretch(p, start, events)
    requires Within(events, start, duration)
    ensures var p := Progress(Updated(a, wifi, books, claimed, Clock(start)), admissions);
            Admissions(p, events) <= duration / SYNC_INTERVAL_MS as int
  {
    hide Happens, ModeFor, Admissions, PacingStretch;
    var p := Progress(Updated(a, wifi, books, claimed, Clock(start)), admissions);
    BeginsPacing(p, start, events);
    assert Minus(Clock(start), Clock(start)) == 0;
    AnyWindowIsPaced(p, start, events, duration);
  }

  lemma BeginsPacing(p: Progress, start: nat, events: seq<Timed>)
    requires PacingStretch(p, start, events)
    ensures Pacing(p.arbiter.mode)
  {
    assert events[..0] == [];
    assert Pacing(After(p, events[..0]).arbiter.mode);
  }

  /** A session that waits to admit, on a store that has something pending. */
  ghost function Waiting(s: E.Store, time: nat): Timed {
    Timed(time, Poll(S.NEW_SESSION.(status := S.Active, idle := true), s, 1, false, true))
  }

  lemma SomethingPending() returns (s: E.Store)
    ensures E.ValidStore(s) && E.PendingCount(s.outbox) > 0
  {
    E.EmptyStoreIsValid();
    var key: uint16 := 1;
    s := E.Put(E.EmptyStore(), key, 1, [], true).0;
    E.PutEffect(E.EmptyStore(), key, 1, [], true);
    if E.PendingCount(s.outbox) == 0 {
      E.NothingPending(s, key);
    }
  }

  /** The delay that is left is all a waiting value waits for. */
  lemma AdmitsBehindDelay(a: Arbiter, start: nat, s: E.Store)
    requires Pacing(a.mode) && E.ValidStore(s) && E.PendingCount(s.outbox) > 0
    ensures var p, events := Progress(a, 0), [Waiting(s, start + DelayMs(a, Clock(start)) as nat)];
            PacingStretch(p, start, events) && Within(events, start, DelayMs(a, Clock(start)) as nat) &&
            Admissions(p, events) == 1
  {
    hide Happens, DelayMs, E.ValidStore, E.PendingCount, S.PolledWith, Polled, Clock;
    var p, delay := Progress(a, 0), DelayMs(a, Clock(start));
    var t := Waiting(s, start + delay as nat);
    ClockPlus(start, delay);
    DelayEnds(a, Clock(start), delay);
    WaitingHappens(p, s, t.time);
    OneEvent(p, t);
  }

  lemma WaitingHappens(p: Progress, s: E.Store, time: nat)
    requires E.ValidStore(s) && E.PendingCount(s.outbox) > 0 && DelayMs(p.arbiter, Clock(time)) == 0
    ensures Happens(p, Waiting(s, time)) == Progress(p.arbiter.(lastSyncMs := Clock(time)), p.admissions + 1)
  {
    WaitingIsAdmitted(s, Clock(time));
    hide S.PolledWith, DelayMs, E.ValidStore;
  }

  lemma OneEvent(p: Progress, t: Timed)
    ensures After(p, []) == p && After(p, [t]) == Happens(p, t)
    ensures forall i :: 0 <= i <= 1 ==> [t][..i] == if i == 0 then [] else [t]
  {
    assert [t][..0] == [];
  }

  lemma WaitingIsAdmitted(s: E.Store, now: uint32)
    requires E.ValidStore(s) && E.PendingCount(s.outbox) > 0
    ensures S.PolledWith(S.NEW_SESSION.(status := S.Active, idle := true), s, 1, now, true, true).admitted
  {
    hide E.ValidStore, S.Admitted;
    assert Minus(Plus(now, S.PROGRESS_TIMEOUT_MS), now) == S.PROGRESS_TIMEOUT_MS;
  }

  /** Every stretch from here on admits at most one value per interval. */
  ghost predicate KeepsRate(a: Arbiter, start: nat) {
    forall events: seq<Timed>, duration: nat :: PacingStretch(Progress(a, 0), start, events) && Within(events, start, duration) ==>
      Admissions(Progress(a, 0), events) <= duration / SYNC_INTERVAL_MS as int
  }

  /**
   * Without the one value more, the rate holds from a moment within pacing exactly when the whole interval is left
   * then: at the beginning of pacing, or right behind an admission.
   */
  lemma RateHoldsExactlyWithWholeInterval(a: Arbiter, start: nat)
    requires Pacing(a.mode)
    ensures KeepsRate(a, start) <==> a.lastSyncMs == Clock(start)
  {
    hide Happens, Admissions, PacingStretch, After;
    var p, delay := Progress(a, 0), DelayMs(a, Clock(start));
    WholeDelay(a, Clock(start));
    if delay == SYNC_INTERVAL_MS {
      forall events: seq<Timed>, duration: nat | PacingStretch(p, start, events) && Within(events, start, duration)
        ensures Admissions(p, events) <= duration / SYNC_INTERVAL_MS as int
      {
        AnyWindowIsPaced(p, start, events, duration);
      }
    } else {
      var s := SomethingPending();
      AdmitsBehindDelay(a, start, s);
      assert Within([Waiting(s, start + delay as nat)], start, delay as nat);
    }
  }

  lemma WholeDelay(a: Arbiter, now: uint32)
    requires Pacing(a.mode)
    ensures DelayMs(a, now) == SYNC_INTERVAL_MS <==> a.lastSyncMs == now
    ensures DelayMs(a, now) <= SYNC_INTERVAL_MS
  {
    var d := now as int - a.lastSyncMs as int;
    assert d % WORD == if d < 0 then d + WORD else d;
  }

  /** A delay counts down to zero. */
  lemma DelayEnds(a: Arbiter, now: uint32, later: uint32)
    requires later <= DelayMs(a, now)
    ensures DelayMs(a, Plus(now, later)) == DelayMs(a, now) - later
  {
    LaterMinus(now, a.lastSyncMs, later);
  }

  lemma LaterMinus(now: uint32, last: uint32, later: uint32)
    requires Minus(now, last) as int + later as int < WORD
    ensures Minus(Plus(now, later), last) == Minus(now, last) + later
  {
    var d := now as int - last as int;
    assert d % WORD == if d < 0 then d + WORD else d;
    var n := now as int + later as int;
    assert n % WORD == if n < WORD then n else n - WORD;
  }

  // --- when pacing goes on ------------------------------------------------------------------

  /** The client is at work, or was within the last half second; activity may be told a little after `now` was read. */
  predicate BooksBusy(books: Books, now: uint32) {
    books.clientActive || Remaining(now, Plus(books.activityMs, WIFI_QUIET_MS)) != 0 || Minus(now, books.activityMs) >= 0x8000_0000
  }

  /** Each mode, from the activities alone. */
  lemma ModeExactly(wifi: WifiState, books: Books, claimed: bool, now: uint32)
    ensures var mode, sharing := ModeFor(wifi, books, claimed, now), wifi == WifiStopped && books.state == BookSharing;
      && (mode == WifiStopping <==> wifi in {Stopping, StopFailed} || books.state == BookStopping)
      && (mode == SharedIdle <==> sharing && !BooksBusy(books, now))
      && (mode == Companion <==> wifi == WifiStopped && books.state in {BookOff, BookComplete, BookFailed} && !claimed)
      && (Pacing(mode) <==>
            wifi != WifiStopped || books.state in {BookStarting, BookStopping} || (sharing && BooksBusy(books, now)) ||
            (books.state in {BookOff, BookComplete, BookFailed} && claimed))
  {
    var elapsed := Minus(now, books.activityMs);
    QuietEnds(now, books.activityMs);
  }

  lemma QuietEnds(now: uint32, last: uint32)
    ensures Minus(now, last) < 0x8000_0000 ==>
              (Remaining(now, Plus(last, WIFI_QUIET_MS)) != 0 <==> Minus(now, last) < WIFI_QUIET_MS)
  {
    var d := now as int - last as int;
    assert d % WORD == if d < 0 then d + WORD else d;
    var n := last as int + WIFI_QUIET_MS as int;
    assert n % WORD == if n < WORD then n else n - WORD;
    var e := n - now as int;
    assert (n % WORD - now as int) % WORD == e % WORD;
  }

  /** In real time: activity told within half the clock's range counts until half a second after it, to the millisecond. */
  lemma QuietInRealTime(books: Books, told: nat, time: nat)
    requires books.activityMs == Clock(told) && !books.clientActive
    requires told as int - 0x8000_0000 <= time < told + 0x8000_0000
    ensures BooksBusy(books, Clock(time)) <==> time < told + WIFI_QUIET_MS as nat
  {
    var now, last := Clock(time), Clock(told);
    assert (time - told) % WORD == (time % WORD - told % WORD) % WORD;
    QuietEnds(now, last);
  }

  // --- when the next poll is due ------------------------------------------------------------

  /** Nothing waits for the next poll, or all that waits is a new value that may not be admitted yet. */
  predicate HeldBack(a: Arbiter, x: S.Session, s: E.Store, now: uint32, awaiting: bool) {
    S.Steady(x, s, now) || (x.reply == [] && x.outbound == [] && (awaiting || DelayMs(a, now) != 0))
  }

  /** A poll before the announced wake-up hands nothing over, admits nothing and times nothing out. */
  lemma QuietUntilWake(a: Arbiter, x: S.Session, s: E.Store, next: uint32, now: uint32, later: uint32,
                       awaiting: bool, sent: bool)
    requires E.ValidStore(s) && x.status == S.Active && !S.Converged(x, s) && HeldBack(a, x, s, now, awaiting)
    requires later < NextWake(a, x, s, now, awaiting)
    ensures var at := Plus(now, later);
            var allow := !awaiting && DelayMs(a, at) == 0;
            Polled(a, x, s, next, at, awaiting, sent) ==
            (a, S.Polled(if allow || x.outbound != [] then S.Progressed(x, at) else x.(idle := true), next, false, []))
  {
    hide S.Converged, S.Resume, S.Progressed, E.ValidStore, E.PendingCount, Plus, DelayMs;
    var allow := !awaiting && DelayMs(a, Plus(now, later)) == 0;
    if x.outbound != [] || (!awaiting && DelayMs(a, now) == 0) {
      if allow || x.outbound != [] {
        S.QuietUntilWake(x, s, next, now, later, allow, sent);
      }
    } else if !awaiting {
      DelayEnds(a, now, later);
    }
  }

  /** A new value that only the delay holds back wakes the caller when the delay ends, and goes exactly then. */
  lemma HeldValueGoesAtWake(a: Arbiter, x: S.Session, s: E.Store, next: uint32, now: uint32, later: uint32, sent: bool)
    requires E.ValidStore(s) && x.status == S.Active && x.reply == [] && x.outbound == []
    requires E.PendingCount(s.outbox) != 0 && DelayMs(a, now) != 0 && next != 0 && next != S.NEVER
    requires later <= DelayMs(a, now) && S.Timely(x, Plus(now, later))
    ensures NextWake(a, x, s, now, false) == DelayMs(a, now)
    ensures var (b, r) := Polled(a, x, s, next, Plus(now, later), false, sent);
            (r.admitted <==> later == NextWake(a, x, s, now, false)) &&
            r.admitted == (r.handed != []) && b.lastSyncMs == if r.admitted then Plus(now, later) else a.lastSyncMs
  {
    hide S.Resume, E.ValidStore, Plus, Minus;
    DelayEnds(a, now, later);
    if later == DelayMs(a, now) {
      S.BusyIsPolledSoon(x, s, next, now, Plus(now, later), true, sent);
    }
  }
}
