/** What each frame makes of a session, and that both ends of an exchange come to the same conclusion about it. */
module SyncOutcome {
  import opened Bytes
  import Frame
  import E = SyncEngine
  import S = SyncSession
  import L = SyncLink
  import P = SyncProgress

  /** The statuses of the engine under which a value has reached the receiver. */
  const REACHED: set<E.Status> := {E.Ok, E.Duplicate}

  /** The byte a value is answered with. */
  function CodeFor(status: E.Status): (code: byte)
    ensures code <= 3
  {
    if status in REACHED then 0 else if status == E.StoreError then 1 else if status == E.OutboxFull then 3 else 2
  }

  /** What a session is left as: only a failed save is told apart from all other refusals. */
  function Left(status: E.Status): S.SessionStatus {
    if status in REACHED then S.Active else if status == E.StoreError then S.StoreError else S.ProtocolError
  }

  /**
   * A session takes the frames of two kinds and leaves all others alone; one that is not built as its kind asks ends
   * the session and touches nothing else.
   */
  lemma FramesOfOthersAreLeft(x: S.Session, s: E.Store, h: Frame.FrameHeader, payload: seq<byte>, saved: bool)
    ensures var (y, t, consumed) := S.Received(x, s, h, payload, saved);
      var reply := h.messageClass == 0 && h.messageType == 3;
      var state := h.messageClass == 1 && h.messageType == 1;
      && (consumed <==> x.status == S.Active && (reply || state))
      && (!consumed ==> y == x && t == s)
      && var built := h.flags == (if reply then 2 else 5) && 0 != h.sequence == h.requestId && |payload| <= 274 &&
                      S.DecodedBody(payload, reply).Some?;
         (consumed && !built ==> y == x.(status := S.ProtocolError) && t == s)
  {
    hide S.DecodedBody, E.AcceptIncoming, E.Acknowledge, S.SyncFrame;
  }

  /** The value of `e` arrives as the newer frame `next`, and the next poll hands the answer over. */
  lemma ValueIsJudged(x: S.Session, s: E.Store, e: E.Entry, next: uint32, follow: uint32, now: uint32, allow: bool,
                      saved: bool)
    requires E.ValidStore(s) && S.SendableBody(S.Body(e.key, e.revision, e.value), false)
    requires x.status == S.Active && x.reply == [] && x.lastSequence < next && S.Timely(x, now)
    ensures var (t, status) := E.AcceptIncoming(s, e.key, e.revision, e.value, saved);
      var (y, u, consumed) := S.Received(x, s, S.SyncHeader(next, false),
                                         S.BodyBytes(S.Body(e.key, e.revision, e.value), false), saved);
      && consumed && u == t && y.status == S.Active && E.ValidStore(t)
      && (status == E.Ok ==> y.progressPending)
      && var r := S.PolledWith(y, t, follow, now, allow, true);
         && r.handed == S.SyncFrame(next, S.Body(e.key, e.revision, [CodeFor(status)]), true)
         && r.session.status == Left(status) && !r.admitted && r.next == follow && r.session.reply == []
  {
    hide E.AcceptIncoming, S.SyncFrame, S.BodyBytes, S.Received, S.SyncHeader, E.ValidStore, S.Converged;
    L.Arrived(x, s, next, S.Body(e.key, e.revision, e.value), false, saved);
    E.AcceptEffect(s, e.key, e.revision, e.value, saved);
    var (y, t, _) := S.Received(x, s, S.SyncHeader(next, false),
                                S.BodyBytes(S.Body(e.key, e.revision, e.value), false), saved);
    hide S.ReceiveState;
    AnswerIsHanded(y, t, follow, now, allow);
  }

  lemma AnswerIsHanded(y: S.Session, t: E.Store, follow: uint32, now: uint32, allow: bool)
    requires E.ValidStore(t) && y.status == S.Active && y.reply != [] && S.Timely(y, now)
    ensures S.PolledWith(y, t, follow, now, allow, true) ==
            S.Polled(S.Progressed(y, now).(reply := [], status := y.afterReply), follow, false, y.reply)
  {
    hide E.ValidStore;
    P.NotOverAtOnce(now);
  }

  /** The answer to the value in flight retires it, or ends the session with the value still pending. */
  lemma AnswerIsHeard(x: S.Session, s: E.Store, e: E.Entry, next: uint32, status: E.Status)
    requires E.ValidStore(s) && E.Outbox(s, e.key) == e && e.key != 0 && e.revision != 0
    requires x.status == S.Active && L.Carries(x, e) && x.attempts != 0 && x.outboundSequence == next && next != 0
    ensures var (y, t, consumed) := S.Received(x, s, S.SyncHeader(next, true),
                                               S.BodyBytes(S.Body(e.key, e.revision, [CodeFor(status)]), true), true);
      && consumed && y.status == Left(status)
      && (if status in REACHED then
            y.outbound == [] && y.progressPending && E.Acknowledged(t, e.key) == e.revision && E.Outbox(t, e.key) == E.FREE
          else y.outbound == x.outbound && t == s)
  {
    hide E.Acknowledge, S.SyncFrame, S.BodyBytes, S.Received, S.SyncHeader, E.ValidStore;
    L.Arrived(x, s, next, S.Body(e.key, e.revision, [CodeFor(status)]), true, true);
    P.AcknowledgeRetires(s, e);
  }

  /**
   * A value in flight that arrives, and whose answer arrives: both sessions stay active and the value is retired
   * exactly when the engine took it or had it; after a failed save both end with a store error, after any other
   * refusal with a protocol error, and the value is still pending.
   */
  lemma BothEndsAgree(p: L.Peer, q: L.Peer, e: E.Entry, next: uint32, follow: uint32, now: uint32, allow: bool, saved: bool)
    requires E.ValidStore(p.store) && E.ValidStore(q.store) && E.Outbox(p.store, e.key) == e && e.key != 0
    requires p.session.status == S.Active && L.Carries(p.session, e) && p.session.attempts != 0
    requires p.session.outboundSequence == next && e.revision != 0
    requires q.session.status == S.Active && q.session.reply == [] && q.session.lastSequence < next
    requires S.Timely(q.session, now)
    ensures var status := E.AcceptIncoming(q.store, e.key, e.revision, e.value, saved).1;
      var taken := L.Step(q, L.Arrive(p.session.outbound, saved));
      E.ValidStore(taken.store) &&
      var answered := L.Step(taken, L.Tick(follow, now, allow, true));
      var answer := S.SyncFrame(next, S.Body(e.key, e.revision, [CodeFor(status)]), true);
      var done := L.Step(p, L.Arrive(answer, true));
      && answer in answered.wire
      && done.session.status == answered.session.status == Left(status)
      && E.Outbox(done.store, e.key) == if status in REACHED then E.FREE else e
  {
    hide E.AcceptIncoming, S.BodyBytes, S.Received, S.SyncHeader, E.ValidStore, S.PolledWith, L.Step, E.Outbox,
      E.Acknowledged, Left, CodeFor, S.Timely, E.Lookup;
    var b := S.Body(e.key, e.revision, e.value);
    var status := E.AcceptIncoming(q.store, e.key, e.revision, e.value, saved).1;
    P.ArriveIs(q, next, b, false, saved);
    ValueIsJudged(q.session, q.store, e, next, follow, now, allow, saved);
    var taken := L.Step(q, L.Arrive(p.session.outbound, saved));
    P.TickIs(taken, follow, now, allow);
    P.ArriveIs(p, next, S.Body(e.key, e.revision, [CodeFor(status)]), true, true);
    AnswerIsHeard(p.session, p.store, e, next, status);
  }

  // --- what a poll does in time -------------------------------------------------------------

  /** With a value pending and nothing else to do, it is admitted exactly by leave and under a usable number. */
  lemma AdmittedExactly(x: S.Session, s: E.Store, next: uint32, now: uint32, allow: bool, sent: bool)
    requires E.ValidStore(s) && x.status == S.Active && x.outbound == [] && x.reply == []
    requires E.PendingCount(s.outbox) > 0 && S.Timely(x, now)
    ensures var r := S.PolledWith(x, s, next, now, allow, sent);
      && (r.admitted <==> allow && 0 < next < 0xffff_ffff)
      && (r.admitted ==> r.next == next + 1 && r.session.outboundSequence == next && r.session.status == S.Active)
      && (!r.admitted ==> r.next == next && r.handed == [])
      && (!allow ==> r.session == x.(idle := true))
      && (allow && !r.admitted ==> r.session.status == S.ProtocolError)
  {
    hide E.ValidStore, S.SyncFrame;
    P.NotOverAtOnce(now);
    E.PendingIsBounded(s);
    P.FirstPendingCounts(s.outbox);
  }

  lemma DeadlineIsSet(x: S.Session, s: E.Store, next: uint32, now: uint32, allow: bool, sent: bool)
    requires E.ValidStore(s) && x.status == S.Active && (x.idle || x.progressPending)
    ensures var y := S.PolledWith(x, s, next, now, allow, sent).session;
            y.status == S.Active && !y.idle ==>
              y.progressDeadline == Plus(now, 15000) && !y.progressPending && y.afterReply == x.afterReply
  {
    hide E.ValidStore, S.SyncFrame, S.Converged, Plus, Remaining;
  }

  lemma CountsDown(now: uint32, t: uint32)
    requires t < 0x8000_0000
    ensures Remaining(Plus(now, t), Plus(now, 15000)) == if t < 15000 then 15000 - t else 0
  {
    if t <= 15000 {
      RemainingWhole(now, 15000);
      RemainingLater(now, Plus(now, 15000), t);
    } else {
      assert (now as int + 15000 - (now as int + t as int)) % WORD == 15000 - t as int + WORD;
    }
  }

  lemma NoOtherTimeout(y: S.Session, s: E.Store, next: uint32, now: uint32, sent: bool)
    requires E.ValidStore(s) && y.status == S.Active && y.afterReply != S.Timeout
    ensures S.Proceed(y, s, next, now, sent).session.status == S.Timeout ==> y.outbound != [] && y.attempts == 3
  {
    hide E.ValidStore, S.SyncFrame;
  }

  /** The progress timeout is fifteen seconds from the first poll behind any progress or pause; polling is no progress. */
  lemma ProgressLastsFifteenSeconds(x: S.Session, s: E.Store, next: uint32, now: uint32, allow: bool, sent: bool,
                                    follow: uint32, t: uint32, again: bool, went: bool)
    requires E.ValidStore(s) && x.status == S.Active && (x.idle || x.progressPending) && x.afterReply != S.Timeout
    requires t < 0x8000_0000
    ensures var y := S.PolledWith(x, s, next, now, allow, sent).session;
      var z := S.PolledWith(y, s, follow, Plus(now, t), again, went).session;
      y.status == S.Active && !y.idle && !S.Converged(y, s) && (again || y.outbound != [] || y.reply != []) ==>
        (t >= 15000 ==> z.status == S.Timeout) &&
        (t < 15000 && z.status == S.Timeout ==> y.outbound != [] && y.attempts == 3)
  {
    hide E.ValidStore, S.SyncFrame, S.Converged, Plus, Remaining, S.Proceed;
    var y := S.PolledWith(x, s, next, now, allow, sent).session;
    if y.status == S.Active && !y.idle {
      DeadlineIsSet(x, s, next, now, allow, sent);
      CountsDown(now, t);
      if !S.Converged(y, s) && t < 15000 && (again || y.outbound != [] || y.reply != []) {
        NoOtherTimeout(S.Progressed(y, Plus(now, t)), s, follow, Plus(now, t), went);
      }
    }
  }

  // --- the ends of a session ----------------------------------------------------------------

  /** A session has converged exactly when it waits for nothing and has every value the other announced as pending. */
  lemma ConvergedExactly(x: S.Session, s: E.Store)
    ensures S.Converged(x, s) <==>
      && x.status == S.Active && x.outbound == [] && x.reply == []
      && (forall i :: 0 <= i < |s.outbox| ==> s.outbox[i].key == 0)
      && (forall i :: 0 <= i < |x.peer| && x.peer[i].pending > 0 ==>
            x.peer[i].key != 0 && x.peer[i].pending <= E.Applied(s, x.peer[i].key))
  {
    NothingPending(s.outbox);
    hide E.Applied, E.PendingCount;
    forall i | 0 <= i < |x.peer|
      ensures S.Delivered(s, x.peer[i]) <==>
              (x.peer[i].pending > 0 ==> x.peer[i].key != 0 && x.peer[i].pending <= E.Applied(s, x.peer[i].key))
    {
    }
    hide S.Delivered;
  }

  lemma {:induction false} NothingPending(outbox: seq<E.Entry>)
    ensures E.PendingCount(outbox) == 0 <==> forall i :: 0 <= i < |outbox| ==> outbox[i].key == 0
  {
    if outbox != [] {
      NothingPending(outbox[1..]);
      assert forall i :: 0 < i < |outbox| ==> outbox[i] == outbox[1..][i - 1];
      assert forall i :: 0 <= i < |outbox| - 1 ==> outbox[1..][i] == outbox[i + 1];
    }
  }

  /** A session that was disconnected takes no frame, sends nothing and wakes nobody, until it is started. */
  lemma DisconnectedIsQuiet(x: S.Session, s: E.Store, h: Frame.FrameHeader, payload: seq<byte>, next: uint32, now: uint32,
                            allow: bool, flag: bool)
    requires E.ValidStore(s)
    ensures var y := S.Cleared(x);
      && S.Received(y, s, h, payload, flag) == (y, s, false)
      && S.PolledWith(y, s, next, now, allow, flag) == S.Polled(y, next, false, [])
      && S.NextWakeMs(y, s, now, allow) == 0xffff_ffff && !S.Converged(y, s)
  {
  }

  /** Up to the value last in flight and its retry time, which an empty `outbound` makes irrelevant. */
  predicate Alike(x: S.Session, y: S.Session) {
    y == x.(outboundKey := y.outboundKey, outboundRevision := y.outboundRevision, retryAt := y.retryAt)
  }

  /** A session is started afresh, whatever it was before: nothing under way, and the frames of before forgotten. */
  lemma StartForgets(x: S.Session, s: E.Store, peer: seq<E.SyncCursor>, now: uint32, last: uint32, saved: bool)
    ensures var (y, t, status) := S.Started(x, s, peer, now, last, saved);
      && (t, status) == E.Reconcile(s, peer, saved)
      && (status == E.Ok ==>
            Alike(y, S.Session(S.Active, false, false, peer, [], 0, 0, 0, 0, Plus(now, 15000), 0, [], S.Active, last, [])))
      && (status != E.Ok ==> y.status == S.Disconnected)
  {
    hide E.Reconcile;
  }
}
