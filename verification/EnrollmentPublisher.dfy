/** Keeps live enrollment material on the tag, and opens the pairing window only for what the tag holds. */
module EnrollmentPublisher {
  import opened Bytes
  import opened Wrappers
  import opened PairingBootstrap

  const NEVER: uint32 := 0xffff_ffff
  const RETRY_MS: uint32 := 1000

  datatype Publisher = Publisher(published: uint32, retryAt: uint32, retryPending: bool)

  const NEW_PUBLISHER: Publisher := Publisher(0, 0, false)

  /** What the publisher and the bootstrap are, and what was last written to the tag. */
  datatype Enrollment = Enrollment(publisher: Publisher, bootstrap: Bootstrap, tag: Option<Material>)

  predicate Published(p: Publisher, b: Bootstrap) { p.published != 0 && p.published == b.generation }

  predicate Waits(p: Publisher, now: uint32, field: bool) {
    field || (p.retryPending && Remaining(now, p.retryAt) != 0)
  }

  /** A write that fails may leave anything on the tag. */
  datatype Writing = Writing(written: bool, left: Option<Material>)

  function Refreshed(e: Enrollment, config: Config, now: uint32, field: bool, random: Option<seq<byte>>, w: Writing)
    : (r: (Enrollment, bool))
  {
    if Waits(e.publisher, now, field) then (e, false)
    else
      var (b, _, status) := if Published(e.publisher, e.bootstrap) then Offer(e.bootstrap, now)
                            else (e.bootstrap, None, InvalidState);
      if status == Ok then (e.(bootstrap := b), false) else Publish(e.(bootstrap := b), config, now, random, w)
  }

  function Publish(e: Enrollment, config: Config, now: uint32, random: Option<seq<byte>>, w: Writing): (Enrollment, bool) {
    var (b, prepared) := Prepare(e.bootstrap, config, now, random);
    var (c, material, offered) := if prepared == Ok then Offer(b, now) else (b, None, InvalidState);
    if material.Some? && w.written then
      (Enrollment(e.publisher.(published := material.value.generation, retryPending := false), c, material), true)
    else
      (Enrollment(Publisher(0, Plus(now, RETRY_MS), true), IDLE, if material.Some? then w.left else e.tag), false)
  }

  function WindowOpened(e: Enrollment, config: Config, now: uint32): (Enrollment, Status) {
    if !Published(e.publisher, e.bootstrap) then (e, InvalidState)
    else
      var (b, status) := OpenWindow(e.bootstrap, config, now);
      (e.(bootstrap := b), status)
  }

  function NextWakeMs(p: Publisher, b: Bootstrap, now: uint32, field: bool): uint32 {
    if field then NEVER
    else if p.retryPending then Remaining(now, p.retryAt)
    else if !Published(p, b) then 0
    else if b.state == Prepared then Remaining(now, b.tokenExpiresAt)
    else if b.state == WindowOpen then Least(Remaining(now, b.tokenExpiresAt), Remaining(now, b.windowExpiresAt))
    else 0
  }

  function Least(a: uint32, b: uint32): uint32 { if a < b then a else b }

  class EnrollmentPublisher {
    var published: uint32
    var retryAt: uint32
    var retryPending: bool
    /** What the tag holds. */
    ghost var tag: Option<Material>

    ghost function View(): Publisher
      reads this
    {
      Publisher(published, retryAt, retryPending)
    }

    ghost function All(bootstrap: PairingBootstrap): Enrollment
      reads this, bootstrap
    {
      Enrollment(View(), bootstrap.View(), tag)
    }

    constructor (ghost tag: Option<Material>)
      ensures View() == NEW_PUBLISHER && this.tag == tag
    {
      published, retryAt, retryPending := 0, 0, false;
      this.tag := tag;
    }

    method Refresh(bootstrap: PairingBootstrap, now: uint32, field: bool,
                   random: Option<seq<byte>>, w: Writing) returns (done: bool)
      requires bootstrap.Valid() && (random.Some? ==> |random.value| == TOKEN_SIZE)
      modifies this, bootstrap
      ensures bootstrap.Valid()
      ensures (All(bootstrap), done) == Refreshed(old(All(bootstrap)), bootstrap.config, now, field, random, w)
    {
      hide Publish, Remaining, Plus;
      if field || (retryPending && Remaining(now, retryAt) != 0) {
        return false;
      }
      if published != 0 && published == bootstrap.generation {
        var status, _ := bootstrap.CurrentMaterial(now);
        if status == Ok {
          return false;
        }
      }
      done := PublishAnew(bootstrap, now, random, w);
    }

    method PublishAnew(bootstrap: PairingBootstrap, now: uint32, random: Option<seq<byte>>, w: Writing)
      returns (done: bool)
      requires bootstrap.Valid() && (random.Some? ==> |random.value| == TOKEN_SIZE)
      modifies this, bootstrap
      ensures bootstrap.Valid()
      ensures (All(bootstrap), done) == Publish(old(All(bootstrap)), bootstrap.config, now, random, w)
    {
      hide Prepare, Remaining, Plus;
      var status;
      var material := None;
      published := 0;
      status := bootstrap.PrepareMaterial(now, random);
      if status == Ok {
        status, material := bootstrap.CurrentMaterial(now);
      }
      done := status == Ok && w.written;
      if status == Ok {
        tag := if w.written then material else w.left;
      }
      if done {
        published := material.value.generation;
        retryPending := false;
      } else {
        bootstrap.Cancel();
        retryPending := true;
        retryAt := Plus(now, RETRY_MS);
      }
    }

    method OpenPairingWindow(bootstrap: PairingBootstrap, now: uint32) returns (status: Status)
      requires bootstrap.Valid()
      modifies bootstrap
      ensures bootstrap.Valid()
      ensures (All(bootstrap), status) == WindowOpened(old(All(bootstrap)), bootstrap.config, now)
    {
      if published == 0 || published != bootstrap.generation {
        return InvalidState;
      }
      status := bootstrap.OpenPairingWindow(now);
    }

    method NextWake(bootstrap: PairingBootstrap, now: uint32, field: bool) returns (wake: uint32)
      ensures wake == NextWakeMs(View(), bootstrap.View(), now, field)
    {
      if field {
        return NEVER;
      }
      if retryPending {
        return Remaining(now, retryAt);
      }
      if published == 0 || published != bootstrap.generation {
        return 0;
      }
      match bootstrap.state {
        case Prepared => return Remaining(now, bootstrap.tokenExpiresAt);
        case WindowOpen =>
          return Least(Remaining(now, bootstrap.tokenExpiresAt), Remaining(now, bootstrap.windowExpiresAt));
        case _ => return 0;
      }
    }

    method Reset()
      modifies this
      ensures View() == NEW_PUBLISHER && tag == old(tag)
    {
      published := 0;
      retryAt := 0;
      retryPending := false;
    }
  }

  // --- when the next refresh is due ---------------------------------------------------

  /** A retry is only pending while nothing is published. */
  predicate Settled(p: Publisher) { p.retryPending ==> p.published == 0 }

  /** Refreshing now would try to publish new material. */
  predicate PublishesNow(p: Publisher, b: Bootstrap, now: uint32, field: bool) {
    !Waits(p, now, field) && !(Published(p, b) && Offered(b) && !IsExpired(b, now))
  }

  /** That is, with a random source and a tag that take the write, it does publish; and otherwise nothing changes. */
  lemma RefreshPublishes(e: Enrollment, config: Config, now: uint32, field: bool, token: seq<byte>, w: Writing)
    requires Settled(e.publisher) && 0 < config.tokenTtlMs <= MAXIMUM_DURATION_MS
    ensures w.written ==>
              Refreshed(e, config, now, field, Some(token), w).1 == PublishesNow(e.publisher, e.bootstrap, now, field)
    ensures !PublishesNow(e.publisher, e.bootstrap, now, field) ==>
              Refreshed(e, config, now, field, Some(token), w) == (e, false)
  {
    assert Minus(now, Plus(now, config.tokenTtlMs)) as int == WORD - config.tokenTtlMs as int;
    hide Minus, Plus, Remaining;
  }

  /** The deadline lies exactly half the clock's range ahead, where the two readings of the clock part. */
  predicate HalfWay(now: uint32, deadline: uint32) { Minus(deadline, now) == HALF }

  lemma DeadlineAgrees(now: uint32, deadline: uint32)
    ensures DeadlineReached(now, deadline) ==> Remaining(now, deadline) == 0
    ensures Remaining(now, deadline) == 0 && !DeadlineReached(now, deadline) <==> HalfWay(now, deadline)
  {
    var d := deadline as int - now as int;
    assert (-d) % WORD == if d % WORD == 0 then 0 else WORD - d % WORD;
  }

  /** Published material is still offered, and a deadline that counts lies exactly half the clock's range ahead. */
  predicate AtHalfWay(p: Publisher, b: Bootstrap, now: uint32) {
    !p.retryPending && Published(p, b) && Offered(b) && !IsExpired(b, now) &&
    (HalfWay(now, b.tokenExpiresAt) || (b.state == WindowOpen && HalfWay(now, b.windowExpiresAt)))
  }

  /** The publisher is due exactly when refreshing would publish, except at a deadline exactly half the clock away. */
  lemma DueExactlyWhenPublishing(p: Publisher, b: Bootstrap, now: uint32, field: bool)
    requires Settled(p)
    ensures PublishesNow(p, b, now, field) ==> NextWakeMs(p, b, now, field) == 0
    ensures NextWakeMs(p, b, now, field) == 0 && !PublishesNow(p, b, now, field) <==> !field && AtHalfWay(p, b, now)
  {
    hide Minus, Remaining, DeadlineReached;
    DeadlineAgrees(now, b.tokenExpiresAt);
    DeadlineAgrees(now, b.windowExpiresAt);
  }

  lemma RemainingCountsDown(now: uint32, deadline: uint32, later: uint32)
    requires later <= Remaining(now, deadline)
    ensures Remaining(Plus(now, later), deadline) == Remaining(now, deadline) - later
    ensures later < Remaining(now, deadline) ==> !DeadlineReached(Plus(now, later), deadline)
  {
    RemainingLater(now, deadline, later);
    DeadlineAgrees(Plus(now, later), deadline);
  }

  /** Until the announced wake-up, refreshing changes nothing, and the wake-up counts down to zero. */
  lemma QuietUntilWake(e: Enrollment, config: Config, now: uint32, later: uint32, random: Option<seq<byte>>, w: Writing)
    requires Settled(e.publisher) && later <= NextWakeMs(e.publisher, e.bootstrap, now, false)
    requires NextWakeMs(e.publisher, e.bootstrap, now, false) > 0
    ensures later < NextWakeMs(e.publisher, e.bootstrap, now, false) ==>
              Refreshed(e, config, Plus(now, later), false, random, w) == (e, false)
    ensures NextWakeMs(e.publisher, e.bootstrap, Plus(now, later), false) ==
            NextWakeMs(e.publisher, e.bootstrap, now, false) - later
  {
    hide Minus, Plus, Remaining, DeadlineReached;
    var p, b := e.publisher, e.bootstrap;
    if p.retryPending {
      RemainingCountsDown(now, p.retryAt, later);
    } else {
      RemainingCountsDown(now, b.tokenExpiresAt, later);
      if b.state == WindowOpen {
        RemainingCountsDown(now, b.windowExpiresAt, later);
      }
    }
  }

  /** A failed attempt to publish leaves nothing on offer, and no refresh does anything for a second. */
  lemma FailureRetriesAfterSecond(e: Enrollment, config: Config, now: uint32, random: Option<seq<byte>>, w: Writing,
                                  later: uint32, again: Option<seq<byte>>, v: Writing)
    requires PublishesNow(e.publisher, e.bootstrap, now, false) && later <= 1000
    ensures var (f, done) := Refreshed(e, config, now, false, random, w);
            !done ==>
              !Offered(f.bootstrap) && WindowOpened(f, config, Plus(now, later)) == (f, InvalidState) &&
              NextWakeMs(f.publisher, f.bootstrap, now, false) == 1000 &&
              (later < 1000 ==> Refreshed(f, config, Plus(now, later), false, again, v) == (f, false)) &&
              (later == 1000 ==> PublishesNow(f.publisher, f.bootstrap, Plus(now, later), false))
  {
    hide Refreshed, Published, IsExpired;
    var (f, done) := Refreshed(e, config, now, false, random, w);
    if !done {
      FailureIs(e, config, now, random, w);
      assert Remaining(now, Plus(now, 1000)) == 1000;
      QuietUntilWake(f, config, now, later, again, v);
    }
  }

  lemma FailureIs(e: Enrollment, config: Config, now: uint32, random: Option<seq<byte>>, w: Writing)
    requires PublishesNow(e.publisher, e.bootstrap, now, false)
    ensures var (f, done) := Refreshed(e, config, now, false, random, w);
            !done ==> f.publisher == Publisher(0, Plus(now, 1000), true) && f.bootstrap == IDLE
  {
    hide Minus, Plus, DeadlineReached, Prepare;
  }

  /** The field of a reader opens the window exactly while published material lives; otherwise nothing but expiry. */
  lemma WindowOpensExactly(e: Enrollment, config: Config, now: uint32)
    ensures var (f, status) := WindowOpened(e, config, now);
      && (status == Ok <==>
            e.publisher.published != 0 && e.publisher.published == e.bootstrap.generation &&
            Offered(e.bootstrap) && !IsExpired(e.bootstrap, now))
      && f.publisher == e.publisher && f.tag == e.tag
      && (status != Ok ==> f == e || (status == TimeExpired && f.bootstrap.state == Expired))
  {
  }

  // --- every run ---------------------------------------------------------------------------

  datatype Event =
    | Refresh(now: uint32, field: bool, random: Option<seq<byte>>, w: Writing)
    | FieldRises(now: uint32)
    | Bound(session: uint32, now: uint32)
    | Proof(session: uint32, generation: uint32, token: seq<byte>, now: uint32)
    | Inspected(now: uint32)
    | Cancelled
    | Revoked

  /** Material that was prepared, and proofs that were accepted, in order. */
  datatype Mark = Made(made: Material) | Accepted(proof: Material)

  datatype World = World(e: Enrollment, log: seq<Mark>)

  function Happens(w: World, config: Config, v: Event): World {
    match v
    case Refresh(now, field, random, writing) =>
      var (f, done) := Refreshed(w.e, config, now, field, random, writing);
      World(f, if done then w.log + [Made(Material(f.bootstrap.generation, f.bootstrap.token))] else w.log)
    case FieldRises(now) => w.(e := WindowOpened(w.e, config, now).0)
    case Bound(session, now) => w.(e := w.e.(bootstrap := Bind(w.e.bootstrap, session, now).0))
    case Proof(session, generation, token, now) =>
      var (b, status) := Prove(w.e.bootstrap, session, generation, token, now);
      World(w.e.(bootstrap := b), if status == Ok then w.log + [Accepted(Material(generation, token))] else w.log)
    case Inspected(now) => w.(e := w.e.(bootstrap := Offer(w.e.bootstrap, now).0))
    case Cancelled => w.(e := w.e.(bootstrap := IDLE))
    case Revoked => w.(e := w.e.(bootstrap := IDLE, publisher := NEW_PUBLISHER))
  }

  function After(events: seq<Event>, config: Config, tag: Option<Material>): World {
    if events == [] then World(Enrollment(NEW_PUBLISHER, IDLE, tag), [])
    else Happens(After(events[..|events| - 1], config, tag), config, events[|events| - 1])
  }

  /** Material on offer is the latest made, and is what the tag holds. */
  ghost predicate OnTag(w: World) {
    Offered(w.e.bootstrap) ==>
      var m := Material(w.e.bootstrap.generation, w.e.bootstrap.token);
      w.e.tag == Some(m) && w.log != [] && w.log[|w.log| - 1] == Made(m)
  }

  /** Each accepted proof repeats the material made right before it. */
  ghost predicate AcceptedOnce(log: seq<Mark>) {
    forall i :: 0 <= i < |log| && log[i].Accepted? ==> i > 0 && log[i - 1] == Made(log[i].proof)
  }

  ghost predicate Sound(w: World) {
    OnTag(w) && AcceptedOnce(w.log) && Settled(w.e.publisher)
  }

  lemma RefreshIsSound(w: World, config: Config, now: uint32, field: bool, random: Option<seq<byte>>, writing: Writing)
    requires Sound(w)
    ensures Sound(Happens(w, config, Refresh(now, field, random, writing)))
  {
    hide Minus, Plus, Remaining, DeadlineReached;
  }

  lemma EventIsSound(w: World, config: Config, v: Event)
    requires Sound(w)
    ensures Sound(Happens(w, config, v))
  {
    hide Minus, Plus, Remaining, DeadlineReached, Refreshed;
    if v.Refresh? {
      RefreshIsSound(w, config, v.now, v.field, v.random, v.w);
    }
  }

  /** In every run, material on offer is on the tag, and no material is accepted twice. */
  lemma {:induction false} EveryRunIsSound(events: seq<Event>, config: Config, tag: Option<Material>)
    ensures Sound(After(events, config, tag))
  {
    if events != [] {
      EveryRunIsSound(events[..|events| - 1], config, tag);
      EventIsSound(After(events[..|events| - 1], config, tag), config, events[|events| - 1]);
    }
  }

  /** A window opens only for the live, unexpired material that the tag holds. */
  lemma WindowOpensForTag(events: seq<Event>, config: Config, tag: Option<Material>, now: uint32)
    ensures var e := After(events, config, tag).e;
            var (f, status) := WindowOpened(e, config, now);
            status == Ok ==>
              f.bootstrap.state == WindowOpen && f.tag == Some(Material(f.bootstrap.generation, f.bootstrap.token)) &&
              !DeadlineReached(now, f.bootstrap.tokenExpiresAt)
  {
    EveryRunIsSound(events, config, tag);
  }

  /** An accepted proof shows exactly what the tag holds. */
  lemma AcceptedProofIsOnTag(events: seq<Event>, config: Config, tag: Option<Material>, session: uint32,
                             generation: uint32, token: seq<byte>, now: uint32)
    ensures var e := After(events, config, tag).e;
            Prove(e.bootstrap, session, generation, token, now).1 == Ok ==> e.tag == Some(Material(generation, token))
  {
    EveryRunIsSound(events, config, tag);
  }

  /** Between any two accepted proofs new material was made, and a run accepts at most as often as it makes material. */
  lemma {:induction false} AcceptedAtMostAsMade(log: seq<Mark>)
    requires AcceptedOnce(log)
    ensures 2 * Count(log) <= |log|
    ensures log != [] && log[|log| - 1].Made? ==> 2 * Count(log) < |log|
    decreases |log|
  {
    if log != [] {
      var front := log[..|log| - 1];
      AcceptedAtMostAsMade(front);
    }
  }

  function Count(log: seq<Mark>): nat {
    if log == [] then 0 else Count(log[..|log| - 1]) + if log[|log| - 1].Accepted? then 1 else 0
  }

  /** In every run, the publisher is due exactly when refreshing publishes, unless a deadline lies half the clock ahead. */
  lemma DueInEveryRun(events: seq<Event>, config: Config, tag: Option<Material>, now: uint32, token: seq<byte>, w: Writing)
    requires 0 < config.tokenTtlMs <= MAXIMUM_DURATION_MS && w.written
    ensures var e := After(events, config, tag).e;
            (NextWakeMs(e.publisher, e.bootstrap, now, false) == 0 <==>
             Refreshed(e, config, now, false, Some(token), w).1) <==>
            !AtHalfWay(e.publisher, e.bootstrap, now)
  {
    hide Refreshed, NextWakeMs, AtHalfWay;
    EveryRunIsSound(events, config, tag);
    var e := After(events, config, tag).e;
    DueExactlyWhenPublishing(e.publisher, e.bootstrap, now, false);
    RefreshPublishes(e, config, now, false, token, w);
  }

  /** A run of one refresh at time zero. */
  function FirstRefresh(token: seq<byte>): seq<Event> {
    [Refresh(0, false, Some(token), Writing(true, None))]
  }

  lemma FirstRefreshPublishes(config: Config, tag: Option<Material>, token: seq<byte>)
    requires 0 < config.tokenTtlMs <= MAXIMUM_DURATION_MS
    ensures After(FirstRefresh(token), config, tag).e ==
            Enrollment(Publisher(1, 0, false), Bootstrap(Prepared, token, 1, 0, 0, config.tokenTtlMs, 0),
                       Some(Material(1, token)))
  {
    var events := FirstRefresh(token);
    assert events[..0] == [];
    assert After([], config, tag).e == Enrollment(NEW_PUBLISHER, IDLE, tag);
    assert Plus(0, config.tokenTtlMs) == config.tokenTtlMs;
    assert Minus(0, config.tokenTtlMs) as int == WORD - config.tokenTtlMs as int;
    hide Minus, Plus;
  }

  /**
   * The exception is real: half the clock's range after the first material expired, a publisher that was not polled
   * meanwhile is due, and no refresh does anything.
   */
  lemma HalfWayIsDueButQuiet(config: Config, tag: Option<Material>, token: seq<byte>, random: Option<seq<byte>>,
                             w: Writing)
    requires 0 < config.tokenTtlMs <= MAXIMUM_DURATION_MS
    ensures var e, now := After(FirstRefresh(token), config, tag).e, Plus(config.tokenTtlMs, HALF);
            AtHalfWay(e.publisher, e.bootstrap, now) &&
            NextWakeMs(e.publisher, e.bootstrap, now, false) == 0 &&
            Refreshed(e, config, now, false, random, w) == (e, false)
  {
    FirstRefreshPublishes(config, tag, token);
    var now := Plus(config.tokenTtlMs, HALF);
    assert now as int == config.tokenTtlMs as int + HALF as int;
    assert Minus(now, config.tokenTtlMs) == HALF && Minus(config.tokenTtlMs, now) == HALF;
    hide Minus, Plus, After;
  }
}
