/** What lost frames and lost replies cost the synchronisation: nothing, as long as one attempt gets through in time. */
module SyncRetry {
  import opened Bytes
  import Frame
  import E = SyncEngine
  import S = SyncSession
  import L = SyncLink
  import P = SyncProgress

  // --- a frame that comes again -----------------------------------------------------------

  /** The store would call this value a duplicate, and accept it. */
  predicate Known(s: E.Store, b: S.Body) {
    |b.content| <= E.VALUE_CAPACITY && b.key != 0 && 0 < b.revision <= E.Applied(s, b.key) &&
    (b.revision == E.Applied(s, b.key) ==> E.Inbox(s, b.key).value == b.content)
  }

  lemma KnownIsDuplicate(s: E.Store, b: S.Body, saved: bool)
    requires E.ValidStore(s) && Known(s, b)
    ensures E.AcceptIncoming(s, b.key, b.revision, b.content, saved) == (s, E.Duplicate)
  {
    assert E.Consistent(s, b.key);
    if E.Inbox(s, b.key).key == b.key {
      P.PlacedEntry(s, b.key);
    }
  }

  lemma AcceptedIsKnown(s: E.Store, b: S.Body, saved: bool)
    requires E.ValidStore(s) && |b.content| <= E.VALUE_CAPACITY
    requires E.AcceptIncoming(s, b.key, b.revision, b.content, saved).1 in {E.Ok, E.Duplicate}
    ensures Known(E.AcceptIncoming(s, b.key, b.revision, b.content, saved).0, b)
  {
    hide E.AcceptIncoming, E.ValidStore;
    E.AcceptEffect(s, b.key, b.revision, b.content, saved);
  }

  /** What was received stays, or is outdated by a newer revision. */
  predicate KeepsReceived(s: E.Store, t: E.Store, key: uint16) {
    E.Applied(s, key) <= E.Applied(t, key) &&
    (E.Applied(s, key) == E.Applied(t, key) ==> E.Inbox(s, key) == E.Inbox(t, key))
  }

  lemma StillKnown(s: E.Store, t: E.Store, b: S.Body)
    requires Known(s, b) && KeepsReceived(s, t, b.key)
    ensures Known(t, b)
  {
  }

  /** The session can answer the frame it took last once more. */
  ghost predicate Remembers(x: S.Session, s: E.Store) {
    x.status == S.Active && x.lastPayload != [] && (x.reply == [] || x.afterReply == S.Active) ==>
      S.DecodedBody(x.lastPayload, false).Some? && Known(s, S.DecodedBody(x.lastPayload, false).value)
  }

  /**
   * The frame a session took last arrives again after its reply left: the session stays active, no store changes, and
   * the value is accepted once more. While the reply waits nothing happens, and other content under that sequence
   * number ends the session.
   */
  lemma RepeatIsAnsweredAgain(x: S.Session, s: E.Store, h: Frame.FrameHeader, payload: seq<byte>, saved: bool)
    requires E.ValidStore(s) && Remembers(x, s) && x.status == S.Active && x.lastPayload != []
    requires S.IsState(h) && S.WellFormed(h, payload) && h.sequence == x.lastSequence
    ensures var (y, t, consumed) := S.Received(x, s, h, payload, saved);
      && consumed && t == s
      && if payload != x.lastPayload then y == x.(status := S.ProtocolError)
         else if x.reply != [] then y == x
         else
           var b := S.DecodedBody(payload, false).value;
           |b.content| <= E.VALUE_CAPACITY &&
           y == x.(reply := S.SyncFrame(h.sequence, S.Body(b.key, b.revision, [S.ACCEPTED]), true), afterReply := S.Active)
  {
    hide S.SyncFrame, S.DecodedBody, E.AcceptIncoming, E.ValidStore;
    S.DecodedBodiesAreSendable(payload, false);
    if payload == x.lastPayload && x.reply == [] {
      KnownIsDuplicate(s, S.DecodedBody(payload, false).value, saved);
    }
  }

  // --- over every run ---------------------------------------------------------------------

  lemma KeepsAll(s: E.Store)
    ensures forall k: uint16 :: KeepsReceived(s, s, k)
  {
  }

  lemma PutKeepsReceived(s: E.Store, key: uint16, revision: uint32, value: seq<byte>, saved: bool)
    requires E.ValidStore(s)
    ensures forall k: uint16 :: k != 0 ==> KeepsReceived(s, E.Put(s, key, revision, value, saved).0, k)
  {
    E.StoreShape(s);
    hide E.Put, E.ValidStore;
    E.PutEffect(s, key, revision, value, saved);
    var t := E.Put(s, key, revision, value, saved).0;
    forall k: uint16 | k != 0
      ensures KeepsReceived(s, t, k)
    {
      assert k != key && t != s ==> E.SameKey(s, t, k);
    }
  }

  lemma AcknowledgeKeepsReceived(s: E.Store, key: uint16, revision: uint32, saved: bool)
    requires E.ValidStore(s)
    ensures forall k: uint16 :: k != 0 ==> KeepsReceived(s, E.Acknowledge(s, key, revision, saved).0, k)
  {
    hide E.Acknowledge, E.ValidStore;
    E.AcknowledgeEffect(s, key, revision, saved);
    var t := E.Acknowledge(s, key, revision, saved).0;
    forall k: uint16 | k != 0
      ensures KeepsReceived(s, t, k)
    {
      assert k != key && t != s ==> E.SameKey(s, t, k);
    }
  }

  lemma RemembersOn(x: S.Session, s: E.Store, y: S.Session, t: E.Store)
    requires Remembers(x, s) && (forall k: uint16 :: k != 0 ==> KeepsReceived(s, t, k))
    requires y.status == S.Active ==>
      x.status == S.Active && y.lastPayload == x.lastPayload && y.afterReply == x.afterReply &&
      (y.reply == x.reply || x.afterReply == S.Active)
    ensures Remembers(y, t)
  {
    hide S.DecodedBody, KeepsReceived;
    if y.status == S.Active && y.lastPayload != [] && (y.reply == [] || y.afterReply == S.Active) {
      StillKnown(s, t, S.DecodedBody(x.lastPayload, false).value);
    }
  }

  lemma PollRemembers(x: S.Session, s: E.Store, next: uint32, now: uint32, allow: bool, sent: bool)
    requires E.ValidStore(s) && Remembers(x, s)
    ensures Remembers(S.PolledWith(x, s, next, now, allow, sent).session, s)
  {
    hide Remembers, S.SyncFrame, E.ValidStore, KeepsReceived, Remaining, Plus, S.Converged;
    KeepsAll(s);
    RemembersOn(x, s, S.PolledWith(x, s, next, now, allow, sent).session, s);
  }

  lemma ReceiptRemembers(x: S.Session, s: E.Store, h: Frame.FrameHeader, payload: seq<byte>, saved: bool)
    requires E.ValidStore(s) && Remembers(x, s)
    ensures Remembers(S.Received(x, s, h, payload, saved).0, S.Received(x, s, h, payload, saved).1)
  {
    hide S.SyncFrame, E.ValidStore, E.AcceptIncoming, E.Acknowledge, S.DecodedBody, Known, Remembers, KeepsReceived;
    KeepsAll(s);
    var (y, t, _) := S.Received(x, s, h, payload, saved);
    if x.status == S.Active && (S.IsReply(h) || S.IsState(h)) && S.WellFormed(h, payload) {
      if S.IsReply(h) {
        var b := S.DecodedBody(payload, true).value;
        AcknowledgeKeepsReceived(s, b.key, b.revision, saved);
        RemembersOn(x, s, y, t);
      } else {
        StateRemembers(x, s, h.sequence, payload, saved);
      }
    } else {
      RemembersOn(x, s, y, t);
    }
  }

  lemma StateRemembers(x: S.Session, s: E.Store, sequence: uint32, payload: seq<byte>, saved: bool)
    requires E.ValidStore(s) && Remembers(x, s) && x.status == S.Active && S.DecodedBody(payload, false).Some?
    ensures var (y, t, _) := S.ReceiveState(x, s, sequence, payload, S.DecodedBody(payload, false).value, saved);
            Remembers(y, t)
  {
    hide S.SyncFrame, E.ValidStore, E.AcceptIncoming, S.DecodedBody, Known, KeepsReceived;
    S.DecodedBodiesAreSendable(payload, false);
    var b := S.DecodedBody(payload, false).value;
    var (y, t, _) := S.ReceiveState(x, s, sequence, payload, b, saved);
    if E.AcceptIncoming(s, b.key, b.revision, b.content, saved).1 in {E.Ok, E.Duplicate} {
      AcceptedIsKnown(s, b, saved);
    }
  }

  lemma StepRemembers(p: L.Peer, e: L.Event)
    requires E.ValidStore(p.store) && Remembers(p.session, p.store)
    ensures Remembers(L.Step(p, e).session, L.Step(p, e).store)
  {
    E.StoreShape(p.store);
    hide S.Received, S.PolledWith, E.ValidStore, E.Put, KeepsReceived, Frame.DecodeFrame, L.C.Announced, L.C.Announcement;
    KeepsAll(p.store);
    match e
    case PutState(key, revision, value, saved) =>
      hide Remembers;
      PutKeepsReceived(p.store, key, revision, value, saved);
      RemembersOn(p.session, p.store, p.session, E.Put(p.store, key, revision, value, saved).0);
    case Announce =>
    case Open(hello, now, lastSequence, saved) =>
      hide E.Reconcile;
    case Arrive(frame, saved) =>
      hide Remembers;
      match Frame.DecodeFrame(frame, 1, 0) {
        case Rejected(_) =>
        case View(h, payload) => ReceiptRemembers(p.session, p.store, h, payload, saved);
      }
    case Tick(next, now, allow, sent) =>
      hide Remembers;
      PollRemembers(p.session, p.store, next, now, allow, sent);
    case Close =>
  }

  lemma {:induction false} EveryRunRemembers(moves: seq<L.Move>)
    ensures Remembers(L.After(moves).a.session, L.After(moves).a.store)
    ensures Remembers(L.After(moves).b.session, L.After(moves).b.store)
  {
    hide L.Step, L.Linked, L.Enabled;
    if moves != [] {
      var front := moves[..|moves| - 1];
      EveryRunRemembers(front);
      L.EveryRunKeepsLink(front);
      var w := L.After(front);
      L.LinkedIsValid(w.a, w.b);
      StepRemembers(w.a, moves[|front|].event);
      StepRemembers(w.b, moves[|front|].event);
    }
  }

  /** In every run: a peer that took a value and handed over its reply answers the same frame again, and accepts. */
  lemma RepeatsAreAnswered(moves: seq<L.Move>, h: Frame.FrameHeader, payload: seq<byte>, saved: bool)
    requires var x := L.After(moves).a.session;
             x.status == S.Active && x.reply == [] && x.lastPayload != [] && payload == x.lastPayload
    requires S.IsState(h) && S.WellFormed(h, payload) && h.sequence == L.After(moves).a.session.lastSequence
    ensures var p, b := L.After(moves).a, S.DecodedBody(payload, false).value;
      && |b.content| <= E.VALUE_CAPACITY
      && S.Received(p.session, p.store, h, payload, saved) ==
         (p.session.(reply := S.SyncFrame(h.sequence, S.Body(b.key, b.revision, [S.ACCEPTED]), true),
                     afterReply := S.Active), p.store, true)
  {
    hide L.After, L.Linked, S.Received, Remembers, S.WellFormed, S.SyncFrame;
    EveryRunRemembers(moves);
    L.EveryRunKeepsLink(moves);
    var w := L.After(moves);
    L.LinkedIsValid(w.a, w.b);
    RepeatIsAnsweredAgain(w.a.session, w.a.store, h, payload, saved);
  }

  // --- an exchange with losses --------------------------------------------------------------

  /**
   * An attempt that fails: the frame is lost, or it arrives and the reply, which leaves `took` milliseconds later on
   * the receiver's clock, is lost. The next attempt leaves `wait` milliseconds later on the sender's clock.
   */
  datatype Loss = Loss(reached: bool, took: uint32, follow: uint32, answering: bool, wait: uint32, allow: bool)

  /** The attempt that gets through. */
  datatype Success = Success(took: uint32, follow: uint32, answering: bool)

  function Waits(losses: seq<Loss>): nat {
    if losses == [] then 0 else losses[0].wait as nat + Waits(losses[1..])
  }

  function Takes(losses: seq<Loss>): nat {
    if losses == [] then 0 else losses[0].took as nat + Takes(losses[1..])
  }

  /** Retries leave no earlier than they are due. */
  predicate Patient(losses: seq<Loss>) {
    forall i :: 0 <= i < |losses| ==> losses[i].wait >= S.RETRY_MS
  }

  function BodyOf(e: E.Entry): S.Body { S.Body(e.key, e.revision, e.value) }

  /** The value is in flight at `p`, sent `attempts` times, last at `now`, and may stay so for `left` milliseconds. */
  ghost predicate Flying(p: L.Peer, q: L.Peer, e: E.Entry, next: uint32, now: uint32, attempts: nat, left: nat) {
    L.Linked(p, q) && e in p.sent && |e.value| <= E.VALUE_CAPACITY && e.key != 0 && e.revision != 0 && next != 0 &&
    E.Outbox(p.store, e.key) == e && E.Top(p.store, e.key) == e.revision &&
    L.Carries(p.session, e) && p.session.outbound in p.wire && p.session.outboundSequence == next &&
    p.session.status == S.Active && p.session.reply == [] && 1 <= p.session.attempts == attempts &&
    p.session.retryAt == Plus(now, S.RETRY_MS) && P.Lasts(p.session, now, left)
  }

  /** `q` will answer the value under `next` until `left` milliseconds have passed. */
  ghost predicate Answering(q: L.Peer, e: E.Entry, next: uint32, at: uint32, left: nat) {
    |e.value| <= E.VALUE_CAPACITY && q.session.status == S.Active && q.session.reply == [] &&
    P.Expects(q.session, next, BodyOf(e)) && P.HasRoom(q.store, e.key) && P.Lasts(q.session, at, left)
  }

  /** `q` takes the frame, or takes it again, and hands over its reply. */
  ghost function Answered(q: L.Peer, frame: seq<byte>, at: uint32, follow: uint32, answering: bool): L.Peer
    requires E.ValidStore(q.store) && E.ValidStore(L.Step(q, L.Arrive(frame, true)).store)
  {
    L.Step(L.Step(q, L.Arrive(frame, true)), L.Tick(follow, at, answering, true))
  }

  lemma AnswersOnce(p: L.Peer, q: L.Peer, e: E.Entry, next: uint32, now: uint32, attempts: nat, left: nat,
                    at: uint32, took: uint32, follow: uint32, answering: bool, still: nat)
    requires Flying(p, q, e, next, now, attempts, left) && Answering(q, e, next, at, still)
    requires took as nat <= still < S.PROGRESS_TIMEOUT_MS as nat
    ensures E.ValidStore(q.store) && E.ValidStore(L.Step(q, L.Arrive(p.session.outbound, true)).store)
    ensures var a := Answered(q, p.session.outbound, Plus(at, took), follow, answering);
      && Flying(p, a, e, next, now, attempts, left) && Answering(a, e, next, Plus(at, took), still - took as nat)
      && E.Inbox(a.store, e.key) == e && a.store == L.Step(q, L.Arrive(p.session.outbound, true)).store
      && S.SyncFrame(next, S.Body(e.key, e.revision, [S.ACCEPTED]), true) in a.wire
      && P.CursorSet(a.store) == P.CursorSet(q.store) + {e.key} && a.session.lastSequence == next
  {
    hide L.Own, L.Wires, L.Toward, L.Step, S.SyncFrame, E.Inbox, E.Outbox, E.Top, E.ValidStore, P.CursorSet, P.HasRoom, P.Lasts, Plus,
      S.BodyBytes, P.Eager, P.Paused;
    var later := Plus(at, took);
    L.LinkedIsValid(p, q);
    P.TimelyAfter(q.session, at, took, still);
    P.ValueIsAnswered(p, q, e, next, follow, later, answering);
    L.StepKeepsLink(q, p, L.Arrive(p.session.outbound, true));
    var taken := L.Step(q, L.Arrive(p.session.outbound, true));
    L.StepKeepsLink(taken, p, L.Tick(follow, later, answering, true));
    var a := Answered(q, p.session.outbound, later, follow, answering);
    P.LastsOn(q.session, taken.session, a.session, at, took, still);
    HeldHasRoom(a.store, e);
  }

  lemma HeldHasRoom(s: E.Store, e: E.Entry)
    requires E.ValidStore(s) && e.key != 0 && e.revision != 0 && E.Inbox(s, e.key) == e
    ensures P.HasRoom(s, e.key)
  {
    assert E.Consistent(s, e.key);
  }

  // --- the sender tries again ----------------------------------------------------------------

  lemma RetryIsHanded(x: S.Session, s: E.Store, next: uint32, now: uint32, allow: bool)
    requires E.ValidStore(s) && x.status == S.Active && x.reply == [] && x.outbound != []
    requires x.attempts < S.MAXIMUM_ATTEMPTS && Remaining(now, x.retryAt) == 0 && S.Timely(x, now)
    ensures var r := S.PolledWith(x, s, next, now, allow, true);
            r.handed == x.outbound && !r.admitted &&
            r.session == S.Progressed(x, now).(attempts := x.attempts + 1, retryAt := Plus(now, S.RETRY_MS))
  {
    RemainingWhole(now, S.PROGRESS_TIMEOUT_MS);
    hide S.Converged, E.ValidStore, Remaining, Plus;
    assert !S.Converged(x, s) by {
      OutboundIsNotConverged(x, s);
    }
  }

  lemma OutboundIsNotConverged(x: S.Session, s: E.Store)
    requires x.outbound != []
    ensures !S.Converged(x, s)
  {
  }

  /** After the third attempt the session gives up: when the next retry is due, it times out and hands nothing over. */
  lemma GivesUpAfterThree(x: S.Session, s: E.Store, next: uint32, now: uint32, allow: bool, sent: bool)
    requires E.ValidStore(s) && x.status == S.Active && x.reply == [] && x.outbound != []
    requires x.attempts == 3 && Remaining(now, x.retryAt) == 0
    ensures var r := S.PolledWith(x, s, next, now, allow, sent);
            r.session.status == S.Timeout && r.handed == [] && !r.admitted
  {
    OutboundIsNotConverged(x, s);
    hide S.Converged, E.ValidStore, Remaining, Plus;
  }

  lemma RetryIsDue(now: uint32, wait: uint32)
    requires S.RETRY_MS <= wait < 0x8000_0000
    ensures Remaining(Plus(now, wait), Plus(now, S.RETRY_MS)) == 0
  {
    var a, b, d := now as int + wait as int, now as int + S.RETRY_MS as int, wait as int - S.RETRY_MS as int;
    assert a % WORD == if a < WORD then a else a - WORD;
    assert b % WORD == if b < WORD then b else b - WORD;
    assert (a % WORD - b % WORD) % WORD == d;
    S.PastIsOver(Plus(now, wait), Plus(now, S.RETRY_MS));
  }

  lemma FliesOn(p: L.Peer, q: L.Peer, e: E.Entry, next: uint32, now: uint32, attempts: nat, left: nat,
                wait: uint32, allow: bool)
    requires Flying(p, q, e, next, now, attempts, left) && attempts < S.MAXIMUM_ATTEMPTS
    requires S.RETRY_MS <= wait && wait as nat <= left < S.PROGRESS_TIMEOUT_MS as nat
    ensures E.ValidStore(p.store)
    ensures var n := L.Step(p, L.Tick(next, Plus(now, wait), allow, true));
      && Flying(n, q, e, next, Plus(now, wait), attempts + 1, left - wait as nat) && n.store == p.store
      && n.session.outbound == p.session.outbound && n.puts == p.puts
  {
    hide L.Own, L.Wires, L.Toward, S.SyncFrame, E.Outbox, E.Top, E.ValidStore, S.PolledWith, Plus, Remaining;
    var later := Plus(now, wait);
    L.LinkedIsValid(p, q);
    P.TimelyAfter(p.session, now, wait, left);
    RetryIsDue(now, wait);
    CarriesFrame(p.session, e);
    RetryIsHanded(p.session, p.store, next, later, allow);
    P.TickIs(p, next, later, allow);
    L.StepKeepsLink(p, q, L.Tick(next, later, allow, true));
    P.LastsOn(p.session, p.session, L.Step(p, L.Tick(next, later, allow, true)).session, now, wait, left);
  }

  lemma CarriesFrame(x: S.Session, e: E.Entry)
    requires L.Carries(x, e)
    ensures x.outbound != []
  {
    assert |x.outbound| > 0;
  }

  // --- until one attempt gets through -----------------------------------------------------------

  /** The attempts that are lost and the one that is not are in time for both sides, and no more than three in all. */
  ghost predicate InTime(p: L.Peer, q: L.Peer, e: E.Entry, next: uint32, now: uint32, at: uint32, attempts: nat,
                         losses: seq<Loss>, last: Success) {
    Flying(p, q, e, next, now, attempts, Waits(losses)) &&
    Answering(q, e, next, at, Takes(losses) + last.took as nat) &&
    Waits(losses) < S.PROGRESS_TIMEOUT_MS as nat && Takes(losses) + last.took as nat < S.PROGRESS_TIMEOUT_MS as nat &&
    Patient(losses) && attempts + |losses| <= S.MAXIMUM_ATTEMPTS
  }

  lemma AnswersLater(q: L.Peer, e: E.Entry, next: uint32, at: uint32, took: uint32, left: nat)
    requires Answering(q, e, next, at, left) && took as nat <= left
    ensures Answering(q, e, next, Plus(at, took), left - took as nat)
  {
    if Remaining(at, q.session.progressDeadline) as nat > left {
      RemainingLater(at, q.session.progressDeadline, took);
    }
    hide Remaining, Plus, P.Expects, P.HasRoom;
  }

  /** An attempt that is lost may be, and the next may leave, in the time that both sides have. */
  ghost predicate CanLose(p: L.Peer, q: L.Peer, e: E.Entry, next: uint32, now: uint32, at: uint32, attempts: nat,
                          waits: nat, takes: nat, l: Loss) {
    Flying(p, q, e, next, now, attempts, waits) && Answering(q, e, next, at, takes) && attempts < S.MAXIMUM_ATTEMPTS &&
    S.RETRY_MS <= l.wait && l.wait as nat <= waits < S.PROGRESS_TIMEOUT_MS as nat &&
    l.took as nat <= takes < S.PROGRESS_TIMEOUT_MS as nat
  }

  /** The two peers when one attempt was lost and the next has left. */
  ghost function AfterOne(p: L.Peer, q: L.Peer, e: E.Entry, next: uint32, now: uint32, at: uint32, attempts: nat,
                          waits: nat, takes: nat, l: Loss): (L.Peer, L.Peer)
    requires CanLose(p, q, e, next, now, at, attempts, waits, takes, l)
  {
    hide Flying, Answering, L.Step;
    FliesOn(p, q, e, next, now, attempts, waits, l.wait, l.allow);
    AnswersGoOn(p, q, e, next, now, attempts, waits, at, l.took, l.follow, l.answering, takes);
    (L.Step(p, L.Tick(next, Plus(now, l.wait), l.allow, true)),
     if l.reached then Answered(q, p.session.outbound, Plus(at, l.took), l.follow, l.answering) else q)
  }

  lemma FrameLost(p: L.Peer, q: L.Peer, e: E.Entry, next: uint32, now: uint32, at: uint32, attempts: nat,
                waits: nat, takes: nat, l: Loss)
    requires CanLose(p, q, e, next, now, at, attempts, waits, takes, l) && !l.reached
    ensures var (n, a) := AfterOne(p, q, e, next, now, at, attempts, waits, takes, l);
      && Flying(n, a, e, next, Plus(now, l.wait), attempts + 1, waits - l.wait as nat)
      && Answering(a, e, next, Plus(at, l.took), takes - l.took as nat)
      && n.store == p.store && n.puts == p.puts
  {
    hide Flying, Answering, Answered, L.Step, Plus;
    AnswersLater(q, e, next, at, l.took, takes);
    FliesOn(p, q, e, next, now, attempts, waits, l.wait, l.allow);
  }

  lemma AnswersGoOn(p: L.Peer, q: L.Peer, e: E.Entry, next: uint32, now: uint32, attempts: nat, left: nat,
                    at: uint32, took: uint32, follow: uint32, answering: bool, still: nat)
    requires Flying(p, q, e, next, now, attempts, left) && Answering(q, e, next, at, still)
    requires took as nat <= still < S.PROGRESS_TIMEOUT_MS as nat
    ensures E.ValidStore(q.store) && E.ValidStore(L.Step(q, L.Arrive(p.session.outbound, true)).store)
    ensures var a := Answered(q, p.session.outbound, Plus(at, took), follow, answering);
            Flying(p, a, e, next, now, attempts, left) && Answering(a, e, next, Plus(at, took), still - took as nat)
  {
    hide Flying, Answering, Answered, L.Step, Plus, E.ValidStore;
    AnswersOnce(p, q, e, next, now, attempts, left, at, took, follow, answering, still);
  }

  lemma ReplyLost(p: L.Peer, q: L.Peer, e: E.Entry, next: uint32, now: uint32, at: uint32, attempts: nat,
                waits: nat, takes: nat, l: Loss)
    requires CanLose(p, q, e, next, now, at, attempts, waits, takes, l) && l.reached
    ensures var (n, a) := AfterOne(p, q, e, next, now, at, attempts, waits, takes, l);
      && Flying(n, a, e, next, Plus(now, l.wait), attempts + 1, waits - l.wait as nat)
      && Answering(a, e, next, Plus(at, l.took), takes - l.took as nat)
      && n.store == p.store && n.puts == p.puts
  {
    hide Flying, Answering, Answered, L.Step, Plus, E.ValidStore;
    AnswersGoOn(p, q, e, next, now, attempts, waits, at, l.took, l.follow, l.answering, takes);
    FliesOn(p, Answered(q, p.session.outbound, Plus(at, l.took), l.follow, l.answering), e, next, now, attempts,
            waits, l.wait, l.allow);
  }

  lemma OneLoss(p: L.Peer, q: L.Peer, e: E.Entry, next: uint32, now: uint32, at: uint32, attempts: nat,
                waits: nat, takes: nat, l: Loss)
    requires CanLose(p, q, e, next, now, at, attempts, waits, takes, l)
    ensures var (n, a) := AfterOne(p, q, e, next, now, at, attempts, waits, takes, l);
      && Flying(n, a, e, next, Plus(now, l.wait), attempts + 1, waits - l.wait as nat)
      && Answering(a, e, next, Plus(at, l.took), takes - l.took as nat)
      && n.store == p.store && n.puts == p.puts
  {
    hide CanLose, AfterOne, Flying, Answering;
    if l.reached {
      ReplyLost(p, q, e, next, now, at, attempts, waits, takes, l);
    } else {
      FrameLost(p, q, e, next, now, at, attempts, waits, takes, l);
    }
  }

  lemma OneLess(p: L.Peer, q: L.Peer, e: E.Entry, next: uint32, now: uint32, at: uint32, attempts: nat,
                losses: seq<Loss>, last: Success)
    requires InTime(p, q, e, next, now, at, attempts, losses, last) && losses != []
    ensures CanLose(p, q, e, next, now, at, attempts, Waits(losses), Takes(losses) + last.took as nat, losses[0])
    ensures Waits(losses) == losses[0].wait as nat + Waits(losses[1..])
    ensures Takes(losses) == losses[0].took as nat + Takes(losses[1..])
    ensures Patient(losses[1..])
  {
    hide Flying, Answering;
  }

  ghost function AfterLoss(p: L.Peer, q: L.Peer, e: E.Entry, next: uint32, now: uint32, at: uint32, attempts: nat,
                           losses: seq<Loss>, last: Success): (L.Peer, L.Peer)
    requires InTime(p, q, e, next, now, at, attempts, losses, last) && losses != []
  {
    hide InTime, CanLose, Waits, Takes;
    OneLess(p, q, e, next, now, at, attempts, losses, last);
    AfterOne(p, q, e, next, now, at, attempts, Waits(losses), Takes(losses) + last.took as nat, losses[0])
  }

  lemma StillInTime(p: L.Peer, q: L.Peer, e: E.Entry, next: uint32, now: uint32, at: uint32, attempts: nat,
                    losses: seq<Loss>, last: Success)
    requires InTime(p, q, e, next, now, at, attempts, losses, last) && losses != []
    ensures var (n, a) := AfterLoss(p, q, e, next, now, at, attempts, losses, last);
      && InTime(n, a, e, next, Plus(now, losses[0].wait), Plus(at, losses[0].took), attempts + 1, losses[1..], last)
      && n.store == p.store && n.puts == p.puts
  {
    hide Flying, Answering, AfterOne, CanLose, Plus, Waits, Takes, Patient;
    OneLess(p, q, e, next, now, at, attempts, losses, last);
    OneLoss(p, q, e, next, now, at, attempts, Waits(losses), Takes(losses) + last.took as nat, losses[0]);
  }

  /** The attempt that gets through, and its reply. */
  ghost function Through(p: L.Peer, q: L.Peer, e: E.Entry, next: uint32, now: uint32, at: uint32, attempts: nat,
                         last: Success): (L.Peer, L.Peer)
    requires InTime(p, q, e, next, now, at, attempts, [], last)
  {
    AnswersOnce(p, q, e, next, now, attempts, 0, at, last.took, last.follow, last.answering, last.took as nat);
    L.LinkedIsValid(p, q);
    (L.Step(p, L.Arrive(S.SyncFrame(next, S.Body(e.key, e.revision, [S.ACCEPTED]), true), true)),
     Answered(q, p.session.outbound, Plus(at, last.took), last.follow, last.answering))
  }

  /** What a delivery leaves at both sides. */
  ghost predicate Delivered(p: L.Peer, d: L.Peer, a: L.Peer, e: E.Entry) {
    E.Inbox(a.store, e.key) == e && E.Acknowledged(d.store, e.key) == e.revision &&
    E.PendingCount(d.store.outbox) == E.PendingCount(p.store.outbox) - 1 &&
    d.session.status == S.Active && d.session.outbound == [] && d.session.reply == [] &&
    a.session.status == S.Active && a.session.reply == [] && L.Linked(d, a)
  }

  lemma ThroughDelivers(p: L.Peer, q: L.Peer, e: E.Entry, next: uint32, now: uint32, at: uint32, attempts: nat, last: Success)
    requires InTime(p, q, e, next, now, at, attempts, [], last)
    ensures var (d, a) := Through(p, q, e, next, now, at, attempts, last);
            Delivered(p, d, a, e)
  {
    hide L.Own, L.Wires, L.Toward, L.Step, S.SyncFrame, E.Inbox, E.Outbox, E.Top, E.ValidStore, P.Lasts, Plus, Answered;
    AnswersOnce(p, q, e, next, now, attempts, 0, at, last.took, last.follow, last.answering, last.took as nat);
    var a := Answered(q, p.session.outbound, Plus(at, last.took), last.follow, last.answering);
    L.LinkedIsValid(p, q);
    P.OwnHolds(p, q);
    P.ReplyRetires(p, e, next);
    L.StepKeepsLink(p, a, L.Arrive(S.SyncFrame(next, S.Body(e.key, e.revision, [S.ACCEPTED]), true), true));
  }

  /** The two peers after all the attempts. */
  ghost function Retried(p: L.Peer, q: L.Peer, e: E.Entry, next: uint32, now: uint32, at: uint32, attempts: nat,
                         losses: seq<Loss>, last: Success): (L.Peer, L.Peer)
    requires InTime(p, q, e, next, now, at, attempts, losses, last)
    decreases |losses|
  {
    hide InTime, AfterLoss, Through;
    if losses == [] then Through(p, q, e, next, now, at, attempts, last)
    else
      StillInTime(p, q, e, next, now, at, attempts, losses, last);
      var (n, a) := AfterLoss(p, q, e, next, now, at, attempts, losses, last);
      Retried(n, a, e, next, Plus(now, losses[0].wait), Plus(at, losses[0].took), attempts + 1, losses[1..], last)
  }

  lemma {:induction false} RetriedDelivers(p: L.Peer, q: L.Peer, e: E.Entry, next: uint32, now: uint32, at: uint32, attempts: nat,
                                           losses: seq<Loss>, last: Success)
    requires InTime(p, q, e, next, now, at, attempts, losses, last)
    ensures var (d, a) := Retried(p, q, e, next, now, at, attempts, losses, last);
            Delivered(p, d, a, e)
    decreases |losses|
  {
    hide InTime, AfterLoss, Through, L.Linked, Plus, E.Inbox, E.Acknowledged;
    if losses == [] {
      ThroughDelivers(p, q, e, next, now, at, attempts, last);
    } else {
      StillInTime(p, q, e, next, now, at, attempts, losses, last);
      var (n, a) := AfterLoss(p, q, e, next, now, at, attempts, losses, last);
      RetriedDelivers(n, a, e, next, Plus(now, losses[0].wait), Plus(at, losses[0].took), attempts + 1, losses[1..], last);
    }
  }

  /** `p` may send its first pending value at `now`, and both sides have the time for these attempts. */
  ghost predicate CanTry(p: L.Peer, q: L.Peer, next: uint32, now: uint32, at: uint32, losses: seq<Loss>, last: Success) {
    L.Linked(p, q) && P.CanSend(p, next, now) && |losses| < S.MAXIMUM_ATTEMPTS && Patient(losses) &&
    Answering(q, P.Next(p), next, at, Takes(losses) + last.took as nat) &&
    Waits(losses) < S.PROGRESS_TIMEOUT_MS as nat && Takes(losses) + last.took as nat < S.PROGRESS_TIMEOUT_MS as nat
  }

  lemma FirstAttempt(p: L.Peer, q: L.Peer, next: uint32, now: uint32, at: uint32, losses: seq<Loss>, last: Success)
    requires CanTry(p, q, next, now, at, losses, last)
    ensures E.ValidStore(p.store) && E.FirstPending(p.store.outbox) < |p.store.outbox|
    ensures var n := L.Step(p, L.Tick(next, now, true, true));
            InTime(n, q, P.Next(p), next, now, at, 1, losses, last) && n.store == p.store
  {
    hide L.Own, L.Wires, L.Toward, L.Step, S.SyncFrame, E.Outbox, E.Top, E.ValidStore, P.Expects, P.HasRoom, Plus, Remaining,
      P.Next, Answering;
    P.ValueIsSent(p, q, next, now);
    L.StepKeepsLink(p, q, L.Tick(next, now, true, true));
    RemainingWhole(now, S.PROGRESS_TIMEOUT_MS);
  }

  /** The exchange: the first attempt, those that are lost, and the one that is not. */
  ghost function LossyExchange(p: L.Peer, q: L.Peer, next: uint32, now: uint32, at: uint32, losses: seq<Loss>, last: Success)
    : (L.Peer, L.Peer)
    requires CanTry(p, q, next, now, at, losses, last)
  {
    FirstAttempt(p, q, next, now, at, losses, last);
    Retried(L.Step(p, L.Tick(next, now, true, true)), q, P.Next(p), next, now, at, 1, losses, last)
  }

  /**
   * Whichever of the first two attempts lose their frame or their reply, the attempt that gets through delivers the
   * value once and retires it, and both sessions stay active.
   */
  lemma RetriesDeliver(p: L.Peer, q: L.Peer, next: uint32, now: uint32, at: uint32, losses: seq<Loss>, last: Success)
    requires CanTry(p, q, next, now, at, losses, last)
    ensures E.FirstPending(p.store.outbox) < |p.store.outbox|
    ensures var e := P.Next(p);
            var (d, a) := LossyExchange(p, q, next, now, at, losses, last);
            E.Inbox(a.store, e.key) == e && E.Acknowledged(d.store, e.key) == e.revision &&
            E.PendingCount(d.store.outbox) == E.PendingCount(p.store.outbox) - 1 &&
            d.session.status == S.Active && d.session.outbound == [] && d.session.reply == [] &&
            a.session.status == S.Active && a.session.reply == [] && L.Linked(d, a)
  {
    hide CanTry, InTime, Retried, L.Linked, L.Step, E.Inbox, E.Acknowledged, P.Next;
    FirstAttempt(p, q, next, now, at, losses, last);
    RetriedDelivers(L.Step(p, L.Tick(next, now, true, true)), q, P.Next(p), next, now, at, 1, losses, last);
  }
}
