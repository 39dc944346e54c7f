/** One-shot enrollment material: a token that is prepared, offered for a while and accepted at most once. */
module PairingBootstrap {
  import opened Arithmetic
  import opened Bytes
  import opened Wrappers

  const MAXIMUM_DURATION_MS: uint32 := 0x7fff_ffff
  const DEFAULT_DURATION_MS: uint32 := 120000
  const TOKEN_SIZE: nat := 16
  const HALF: uint32 := 0x8000_0000

  datatype State = Idle | Prepared | WindowOpen | Expired | Consumed

  datatype Status =
    | Ok
    | InvalidArgument
    | InvalidState
    | TokenMismatch
    | GenerationMismatch
    | SessionMismatch
    | TimeExpired
    | AlreadyConsumed
    | StoreError

  datatype Config = Config(tokenTtlMs: uint32, pairingWindowMs: uint32)

  datatype Material = Material(generation: uint32, token: seq<byte>)

  datatype Bootstrap = Bootstrap(
    state: State,
    token: seq<byte>,
    generation: uint32,
    session: uint32,
    preparedAt: uint32,
    tokenExpiresAt: uint32,
    windowExpiresAt: uint32)

  function Zeros(): (t: seq<byte>)
    ensures |t| == TOKEN_SIZE && forall i :: 0 <= i < |t| ==> t[i] == 0
  {
    seq(TOKEN_SIZE, _ => 0)
  }

  function SanitizeDuration(value: uint32): (d: uint32)
    ensures 0 < d <= MAXIMUM_DURATION_MS
  {
    if value == 0 then DEFAULT_DURATION_MS else if value < MAXIMUM_DURATION_MS then value else MAXIMUM_DURATION_MS
  }

  function DeadlineReached(now: uint32, deadline: uint32): bool {
    Minus(now, deadline) < HALF
  }

  predicate IsExpired(b: Bootstrap, now: uint32) {
    DeadlineReached(now, b.tokenExpiresAt) || (b.state == WindowOpen && DeadlineReached(now, b.windowExpiresAt))
  }

  /** Material that may still be offered: prepared, or offered in an open window. */
  predicate Offered(b: Bootstrap) { b.state == Prepared || b.state == WindowOpen }

  function Expire(b: Bootstrap): Bootstrap { b.(state := Expired, token := Zeros()) }

  function NextGeneration(generation: uint32): (g: uint32)
    ensures g != 0
  {
    if generation == 0xffff_ffff then 1 else generation + 1
  }

  /** `random` is nothing when no safe random source answers. */
  function Prepare(b: Bootstrap, config: Config, now: uint32, random: Option<seq<byte>>): (Bootstrap, Status) {
    if random.None? then (b, InvalidState)
    else
      (Bootstrap(Prepared, random.value, NextGeneration(b.generation), 0, now, Plus(now, config.tokenTtlMs), 0), Ok)
  }

  function OpenWindow(b: Bootstrap, config: Config, now: uint32): (Bootstrap, Status) {
    if !Offered(b) then (b, InvalidState)
    else if IsExpired(b, now) then (Expire(b), TimeExpired)
    else if b.state == Prepared then
      (b.(windowExpiresAt := Plus(now, config.pairingWindowMs), state := WindowOpen), Ok)
    else (b, Ok)
  }

  function Bind(b: Bootstrap, session: uint32, now: uint32): (Bootstrap, Status) {
    if session == 0 then (b, InvalidArgument)
    else if b.state != WindowOpen then (b, InvalidState)
    else if IsExpired(b, now) then (Expire(b), TimeExpired)
    else if b.session != 0 && b.session != session then (b, SessionMismatch)
    else (b.(session := session), Ok)
  }

  function Prove(b: Bootstrap, session: uint32, generation: uint32, token: seq<byte>, now: uint32): (Bootstrap, Status) {
    if session == 0 || |token| != TOKEN_SIZE then (b, InvalidArgument)
    else if b.state == Consumed then (b, AlreadyConsumed)
    else if b.state == Idle then (b, InvalidState)
    else if b.state == Expired then (b, TimeExpired)
    else if b.state != WindowOpen then (b, InvalidState)
    else if IsExpired(b, now) then (Expire(b), TimeExpired)
    else if generation != b.generation then (b, GenerationMismatch)
    else if token != b.token then (b, TokenMismatch)
    else if b.session != 0 && b.session != session then (b, SessionMismatch)
    else (b.(session := session, token := Zeros(), state := Consumed), Ok)
  }

  function Offer(b: Bootstrap, now: uint32): (Bootstrap, Option<Material>, Status) {
    if !Offered(b) then (b, None, InvalidState)
    else if IsExpired(b, now) then (Expire(b), None, TimeExpired)
    else (b, Some(Material(b.generation, b.token)), Ok)
  }

  const IDLE: Bootstrap := Bootstrap(Idle, [0, 0, 0, 0, 0, 0, 0, 0, 0, 0, 0, 0, 0, 0, 0, 0], 0, 0, 0, 0, 0)

  /** A proof is accepted exactly for the live material in an open window, from the session it is bound to if any. */
  lemma AcceptedExactly(b: Bootstrap, session: uint32, generation: uint32, token: seq<byte>, now: uint32)
    requires |b.token| == TOKEN_SIZE
    ensures Prove(b, session, generation, token, now).1 == Ok <==>
            session != 0 && b.state == WindowOpen && !DeadlineReached(now, b.tokenExpiresAt) &&
            !DeadlineReached(now, b.windowExpiresAt) && generation == b.generation && token == b.token &&
            (b.session == 0 || b.session == session)
    ensures var (c, status) := Prove(b, session, generation, token, now);
            status == Ok ==>
              c.session == session && c.token == Zeros() &&
              forall s, g, t, n :: s != 0 && |t| == TOKEN_SIZE ==> Prove(c, s, g, t, n) == (c, AlreadyConsumed)
    ensures var (c, status) := Prove(b, session, generation, token, now);
            status != Ok ==> c == b || (status == TimeExpired && c == Expire(b))
  {
  }

  /** The generation of the `n`-th material prepared from the start. */
  function Generation(n: nat): uint32 {
    if n == 0 then 0 else NextGeneration(Generation(n - 1))
  }

  /** No generation comes again before all the nonzero ones were used. */
  lemma {:induction false} GenerationsCount(n: nat)
    requires n > 0
    ensures Generation(n) as int == (n - 1) % (WORD - 1) + 1
  {
    if n > 1 {
      GenerationsCount(n - 1);
      var m := n - 2;
      assert (m + 1) % (WORD - 1) == if m % (WORD - 1) == WORD - 2 then 0 else m % (WORD - 1) + 1 by {
        ModStep(m, WORD - 1);
      }
    } else {
      assert Generation(0) == 0;
    }
  }

  /** The deadline of a duration that began `elapsed` ago is reached exactly when it is over. */
  lemma DurationEnds(start: uint32, duration: uint32, elapsed: uint32)
    requires 0 < duration <= MAXIMUM_DURATION_MS && elapsed < HALF
    ensures DeadlineReached(Plus(start, elapsed), Plus(start, duration)) <==> elapsed >= duration
  {
    var a, b, d := start as int + elapsed as int, start as int + duration as int, elapsed as int - duration as int;
    assert a % WORD == if a < WORD then a else a - WORD;
    assert b % WORD == if b < WORD then b else b - WORD;
    assert (a % WORD - b % WORD) % WORD == d % WORD;
    assert d % WORD == if d < 0 then d + WORD else d;
  }

  lemma PlusTwice(start: uint32, a: uint32, b: uint32)
    requires a as int + b as int < WORD
    ensures Plus(Plus(start, a), b) == Plus(start, a + b)
  {
    var n := start as int + a as int;
    assert n % WORD == if n < WORD then n else n - WORD;
  }

  /**
   * Material made at `made` can be opened for exactly the token's lifetime, and then the right proof is accepted for
   * exactly the window's length, or what is left of that lifetime; `waited` before the opening and `later` after it.
   */
  lemma LivesExactly(b: Bootstrap, config: Config, made: uint32, waited: uint32, later: uint32, token: seq<byte>,
                     session: uint32)
    requires 0 < config.tokenTtlMs <= MAXIMUM_DURATION_MS && 0 < config.pairingWindowMs <= MAXIMUM_DURATION_MS
    requires waited as int + later as int < HALF as int && |token| == TOKEN_SIZE && session != 0
    ensures var (prepared, preparing) := Prepare(b, config, made, Some(token));
            var (open, opening) := OpenWindow(prepared, config, Plus(made, waited));
            var proven := Prove(open, session, prepared.generation, token, Plus(Plus(made, waited), later)).1;
            && preparing == Ok && prepared.generation != b.generation && prepared.generation != 0
            && (opening == Ok <==> waited < config.tokenTtlMs)
            && (proven == Ok <==> waited + later < config.tokenTtlMs && later < config.pairingWindowMs)
  {
    var prepared := Prepare(b, config, made, Some(token)).0;
    DurationEnds(made, config.tokenTtlMs, waited);
    DurationEnds(made, config.tokenTtlMs, waited + later);
    PlusTwice(made, waited, later);
    DurationEnds(Plus(made, waited), config.pairingWindowMs, later);
    hide DeadlineReached, Plus;
  }

  /** Opening an open window again changes nothing while it lives, and so never extends it. */
  lemma ReopeningExtendsNothing(b: Bootstrap, config: Config, now: uint32)
    requires b.state == WindowOpen
    ensures OpenWindow(b, config, now) == if IsExpired(b, now) then (Expire(b), TimeExpired) else (b, Ok)
  {
  }

  /** A session is bound exactly in a live window that is free or its own; then no other can bind or prove. */
  lemma BoundExactly(b: Bootstrap, session: uint32, now: uint32)
    ensures var (c, status) := Bind(b, session, now);
      && (status == Ok <==>
            session != 0 && b.state == WindowOpen && !DeadlineReached(now, b.tokenExpiresAt) &&
            !DeadlineReached(now, b.windowExpiresAt) && (b.session == 0 || b.session == session))
      && (status == Ok ==> c.session == session && c.(session := b.session) == b)
      && (status != Ok ==> c == b || (status == TimeExpired && c == Expire(b)))
    ensures var (c, status) := Bind(b, session, now);
            status == Ok ==>
              (forall s, n :: s != session ==> Bind(c, s, n).1 != Ok) &&
              (forall s, g, t, n :: s != session ==> Prove(c, s, g, t, n).1 != Ok)
  {
    hide DeadlineReached;
  }

  /** Material is handed out exactly while it is offered and lives, and is what a proof must show. */
  lemma OfferedExactly(b: Bootstrap, now: uint32)
    ensures var (c, material, status) := Offer(b, now);
      && (status == Ok <==> material.Some?)
      && (status == Ok <==> (b.state == Prepared && !DeadlineReached(now, b.tokenExpiresAt)) ||
                            (b.state == WindowOpen && !DeadlineReached(now, b.tokenExpiresAt) &&
                             !DeadlineReached(now, b.windowExpiresAt)))
      && (status == Ok ==> c == b && material == Some(Material(b.generation, b.token)))
      && (status != Ok ==> c == b || (status == TimeExpired && c.state == Expired && c.token == Zeros()))
  {
  }

  class PairingBootstrap {
    const config: Config
    var state: State
    var token: seq<byte>
    var generation: uint32
    var session: uint32
    var preparedAt: uint32
    var tokenExpiresAt: uint32
    var windowExpiresAt: uint32

    function View(): Bootstrap
      reads this
    {
      Bootstrap(state, token, generation, session, preparedAt, tokenExpiresAt, windowExpiresAt)
    }

    ghost predicate Valid()
      reads this
    {
      |token| == TOKEN_SIZE && 0 < config.tokenTtlMs <= MAXIMUM_DURATION_MS &&
      0 < config.pairingWindowMs <= MAXIMUM_DURATION_MS
    }

    constructor (config: Config)
      ensures Valid() && View() == IDLE
      ensures this.config.tokenTtlMs ==
              if config.tokenTtlMs == 0 then 120000 else if config.tokenTtlMs < HALF then config.tokenTtlMs else 0x7fff_ffff
      ensures this.config.pairingWindowMs ==
              if config.pairingWindowMs == 0 then 120000
              else if config.pairingWindowMs < HALF then config.pairingWindowMs else 0x7fff_ffff
    {
      this.config := Config(SanitizeDuration(config.tokenTtlMs), SanitizeDuration(config.pairingWindowMs));
      state, generation, session, preparedAt, tokenExpiresAt, windowExpiresAt := Idle, 0, 0, 0, 0, 0;
      token := Zeros();
    }

    method PrepareMaterial(now: uint32, random: Option<seq<byte>>) returns (status: Status)
      requires Valid() && (random.Some? ==> |random.value| == TOKEN_SIZE)
      modifies this
      ensures Valid()
      ensures (View(), status) == Prepare(old(View()), config, now, random)
    {
      if random.None? {
        return InvalidState;
      }
      token := random.value;
      generation := Plus(generation, 1);
      if generation == 0 {
        generation := Plus(generation, 1);
      }
      session := 0;
      preparedAt := now;
      tokenExpiresAt := Plus(now, config.tokenTtlMs);
      windowExpiresAt := 0;
      state := Prepared;
      status := Ok;
    }

    method OpenPairingWindow(now: uint32) returns (status: Status)
      requires Valid()
      modifies this
      ensures Valid()
      ensures (View(), status) == OpenWindow(old(View()), config, now)
    {
      if state != Prepared && state != WindowOpen {
        return InvalidState;
      }
      if state == WindowOpen && DeadlineReached(now, windowExpiresAt) {
        state, token := Expired, Zeros();
        return TimeExpired;
      }
      if IsExpired(View(), now) {
        state, token := Expired, Zeros();
        return TimeExpired;
      }
      if state == Prepared {
        windowExpiresAt := Plus(now, config.pairingWindowMs);
        state := WindowOpen;
      }
      status := Ok;
    }

    method BindSession(bleSession: uint32, now: uint32) returns (status: Status)
      requires Valid()
      modifies this
      ensures Valid()
      ensures (View(), status) == Bind(old(View()), bleSession, now)
    {
      if bleSession == 0 {
        return InvalidArgument;
      }
      if state != WindowOpen {
        return InvalidState;
      }
      if IsExpired(View(), now) {
        state, token := Expired, Zeros();
        return TimeExpired;
      }
      if session != 0 && session != bleSession {
        return SessionMismatch;
      }
      session := bleSession;
      status := Ok;
    }

    method ValidateEnrollmentProof(bleSession: uint32, provenGeneration: uint32, proof: seq<byte>, now: uint32)
      returns (status: Status)
      requires Valid()
      modifies this
      ensures Valid()
      ensures (View(), status) == Prove(old(View()), bleSession, provenGeneration, proof, now)
    {
      if bleSession == 0 || |proof| != TOKEN_SIZE {
        return InvalidArgument;
      }
      if state == Consumed {
        return AlreadyConsumed;
      }
      if state == Idle {
        return InvalidState;
      }
      if state == Expired {
        return TimeExpired;
      }
      if state != WindowOpen {
        return InvalidState;
      }
      if IsExpired(View(), now) {
        state, token := Expired, Zeros();
        return TimeExpired;
      }
      if provenGeneration != generation {
        return GenerationMismatch;
      }
      if proof != token {
        return TokenMismatch;
      }
      if session != 0 && session != bleSession {
        return SessionMismatch;
      }
      session := bleSession;
      token := Zeros();
      state := Consumed;
      status := Ok;
    }

    /** A failed save gives back neither the token nor the session. */
    method ValidateAndPersistEnrollmentProof(bleSession: uint32, provenGeneration: uint32, proof: seq<byte>, now: uint32,
                                             saved: bool) returns (status: Status)
      requires Valid()
      modifies this
      ensures Valid()
      ensures View() == Prove(old(View()), bleSession, provenGeneration, proof, now).0
      ensures status == var proven := Prove(old(View()), bleSession, provenGeneration, proof, now).1;
                        if proven == Ok && !saved then StoreError else proven
    {
      status := ValidateEnrollmentProof(bleSession, provenGeneration, proof, now);
      if status == Ok && !saved {
        status := StoreError;
      }
    }

    method CurrentMaterial(now: uint32) returns (status: Status, output: Option<Material>)
      requires Valid()
      modifies this
      ensures Valid()
      ensures (View(), output, status) == Offer(old(View()), now)
    {
      if state != Prepared && state != WindowOpen {
        return InvalidState, None;
      }
      if IsExpired(View(), now) {
        state, token := Expired, Zeros();
        return TimeExpired, None;
      }
      return Ok, Some(Material(generation, token));
    }

    method Cancel()
      requires Valid()
      modifies this
      ensures Valid() && View() == IDLE
    {
      token := Zeros();
      generation, session, preparedAt, tokenExpiresAt, windowExpiresAt := 0, 0, 0, 0, 0;
      state := Idle;
    }
  }
}
