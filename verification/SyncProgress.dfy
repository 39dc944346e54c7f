/** What the synchronisation achieves when nothing is lost: every exchange retires one pending value. */
module SyncProgress {
  import opened Bytes
  import Frame
  import E = SyncEngine
  import S = SyncSession
  import L = SyncLink

  /** The store can take a value of `key`: it holds the key already, or has a slot and a cursor left. */
  predicate HasRoom(s: E.Store, key: uint16) {
    E.Place(E.EntryKeys(s.inbox), key) < |s.inbox| && E.Place(E.CursorKeys(s.cursors), key) < |s.cursors|
  }

  /** A value the peer admitted is never refused as invalid: one value per revision rules out every conflict. */
  lemma NeverRefusedAsInvalid(p: L.Peer, q: L.Peer, e: E.Entry, saved: bool)
    requires L.Linked(p, q) && e in p.sent && |e.value| <= E.VALUE_CAPACITY
    ensures var status := E.AcceptIncoming(q.store, e.key, e.revision, e.value, saved).1;
            status in {E.Ok, E.Duplicate, E.StoreError, E.OutboxFull} &&
            (saved && HasRoom(q.store, e.key) ==> status in {E.Ok, E.Duplicate})
    ensures var t := E.AcceptIncoming(q.store, e.key, e.revision, e.value, saved).0;
            var status := E.AcceptIncoming(q.store, e.key, e.revision, e.value, saved).1;
            E.ValidStore(t) &&
            (status in {E.Ok, E.Duplicate} ==> e.revision <= E.Applied(t, e.key)) &&
            (status in {E.Ok, E.Duplicate} && E.Top(p.store, e.key) == e.revision ==> E.Inbox(t, e.key) == e)
  {
    hide L.Wires, L.InFlight, L.Held, S.SyncFrame, E.Top, E.ValidStore;
    L.OwnIsValid(p);
    L.OwnIsValid(q);
    E.AcceptEffect(q.store, e.key, e.revision, e.value, saved);
    assert e in p.puts && e.key != 0 && e.revision > 0;
    var k := e.key;
    if e.revision <= E.Applied(q.store, k) {
      L.AppliedIsKept(q, k);
      var f := E.Inbox(q.store, k);
      assert f in p.sent && f in p.puts;
      PlacedEntry(q.store, k);
    }
  }

  /** The slot a key is placed in is the one it is looked up in, once the key is held. */
  lemma PlacedEntry(s: E.Store, key: uint16)
    requires E.ValidStore(s) && key != 0 && E.Inbox(s, key).key == key
    ensures var i := E.Place(E.EntryKeys(s.inbox), key);
            i < |s.inbox| && s.inbox[i] == E.Inbox(s, key)
  {
  }

  // --- the keys in use ---------------------------------------------------------------

  function KeySet(keys: seq<uint16>): set<uint16> {
    set i | 0 <= i < |keys| && keys[i] != 0 :: keys[i]
  }

  function OutboxSet(s: E.Store): set<uint16> { KeySet(E.EntryKeys(s.outbox)) }
  function InboxSet(s: E.Store): set<uint16> { KeySet(E.EntryKeys(s.inbox)) }
  function CursorSet(s: E.Store): set<uint16> { KeySet(E.CursorKeys(s.cursors)) }

  lemma KeysAreFound(keys: seq<uint16>, key: uint16)
    ensures key in KeySet(keys) <==> key != 0 && E.Find(keys, key) < |keys|
  {
    if key != 0 && E.Find(keys, key) < |keys| {
      assert keys[E.Find(keys, key)] == key;
    }
  }

  /** A store that takes a value, or has it already, has a cursor for its key afterwards, and no other new one. */
  lemma AcceptedCursors(s: E.Store, e: E.Entry)
    requires E.ValidStore(s)
    ensures var (t, status) := E.AcceptIncoming(s, e.key, e.revision, e.value, true);
            status in {E.Ok, E.Duplicate} ==> CursorSet(t) == CursorSet(s) + {e.key}
  {
    hide E.AcceptIncoming, E.ValidStore, CursorSet, KeySet;
    var (t, status) := E.AcceptIncoming(s, e.key, e.revision, e.value, true);
    E.AcceptEffect(s, e.key, e.revision, e.value, true);
    if status in {E.Ok, E.Duplicate} {
      forall k: uint16
        ensures k in CursorSet(t) <==> k in CursorSet(s) + {e.key}
      {
        CursorIsUsed(s, k);
        CursorIsUsed(t, k);
        assert k != 0 && k != e.key && status == E.Ok ==> E.SameKey(s, t, k);
      }
    }
  }

  lemma CursorIsUsed(s: E.Store, key: uint16)
    ensures key in CursorSet(s) <==> key != 0 && E.CursorOf(s.cursors, key) != E.UNUSED
  {
    KeysAreFound(E.CursorKeys(s.cursors), key);
    hide KeySet;
  }

  /** Slots that are all taken hold as many keys. */
  lemma {:induction false} FullSlots(keys: seq<uint16>)
    requires E.Distinct(keys) && forall i :: 0 <= i < |keys| ==> keys[i] != 0
    ensures |KeySet(keys)| == |keys|
  {
    if keys != [] {
      var front, last := keys[..|keys| - 1], keys[|keys| - 1];
      FullSlots(front);
      assert KeySet(keys) == KeySet(front) + {last} by {
        assert forall k :: k in KeySet(keys) ==> k in KeySet(front) || k == last;
        assert forall i :: 0 <= i < |front| ==> front[i] == keys[i];
        assert keys[|front|] == last;
      }
      assert last !in KeySet(front);
    }
  }

  /** Fewer keys than slots, or the key itself, leave a place. */
  lemma PlaceLeft(keys: seq<uint16>, key: uint16)
    requires E.Distinct(keys) && key != 0 && (key in KeySet(keys) || |KeySet(keys)| < |keys|)
    ensures E.Place(keys, key) < |keys|
  {
    KeysAreFound(keys, key);
    if E.Find(keys, 0) == |keys| && key !in KeySet(keys) {
      FullSlots(keys);
    }
  }

  lemma Subset(a: set<uint16>, b: set<uint16>)
    requires a <= b
    ensures |a| <= |b|
  {
    assert b == a + (b - a);
  }

  /** All keys together, the pending ones of `p` and those `q` knows, find a cursor at `q`. */
  predicate Fits(s: E.Store, t: E.Store) {
    |OutboxSet(s) + CursorSet(t)| <= E.KEY_CAPACITY
  }

  lemma FitsHasRoom(s: E.Store, t: E.Store, key: uint16)
    requires E.ValidStore(t) && Fits(s, t) && key in OutboxSet(s)
    ensures HasRoom(t, key)
  {
    var all := OutboxSet(s) + CursorSet(t);
    InboxHasCursors(t);
    E.StoreShape(t);
    hide E.ValidStore, E.Distinct, E.Place;
    if key !in CursorSet(t) {
      Subset(CursorSet(t) + {key}, all);
    }
    if key !in InboxSet(t) {
      Subset(InboxSet(t) + {key}, all);
    }
    PlaceLeft(E.CursorKeys(t.cursors), key);
    PlaceLeft(E.EntryKeys(t.inbox), key);
  }

  lemma StillFits(s: E.Store, t: E.Store, u: E.Store, v: E.Store, key: uint16)
    requires Fits(s, t) && key in OutboxSet(s)
    requires OutboxSet(u) == OutboxSet(s) - {key} && CursorSet(v) == CursorSet(t) + {key}
    ensures Fits(u, v)
  {
    hide OutboxSet, CursorSet;
    Subset(OutboxSet(u) + CursorSet(v), OutboxSet(s) + CursorSet(t));
  }

  lemma InboxHasCursors(t: E.Store)
    requires E.ValidStore(t)
    ensures InboxSet(t) <= CursorSet(t)
  {
    forall k | k in InboxSet(t)
      ensures k in CursorSet(t)
    {
      KeysAreFound(E.EntryKeys(t.inbox), k);
      CursorIsUsed(t, k);
      assert E.Consistent(t, k);
    }
  }

  // --- one exchange ----------------------------------------------------------------

  /** `p` may put its first pending value in flight now. */
  ghost predicate CanSend(p: L.Peer, next: uint32, now: uint32) {
    E.ValidStore(p.store) && p.session.status == S.Active && p.session.outbound == [] && p.session.reply == [] &&
    E.FirstPending(p.store.outbox) < |p.store.outbox| && next != 0 && next != S.NEVER && S.Timely(p.session, now)
  }

  ghost function Next(p: L.Peer): E.Entry
    requires E.FirstPending(p.store.outbox) < |p.store.outbox|
  {
    p.store.outbox[E.FirstPending(p.store.outbox)]
  }

  /** `q` may take a value under `next` and answer it in time. */
  ghost predicate CanTake(q: L.Peer, next: uint32, key: uint16, now: uint32) {
    q.session.status == S.Active && q.session.reply == [] && q.session.lastSequence < next &&
    HasRoom(q.store, key) && S.Timely(q.session, now)
  }

  /** A new value left at `now`: its retry and the progress deadline are a whole period ahead. */
  predicate JustSent(x: S.Session, now: uint32) {
    x.retryAt == Plus(now, S.RETRY_MS) && x.progressDeadline == Plus(now, S.PROGRESS_TIMEOUT_MS)
  }

  lemma ValueIsSent(p: L.Peer, q: L.Peer, next: uint32, now: uint32)
    requires L.Linked(p, q) && CanSend(p, next, now)
    ensures var e, n := Next(p), L.Step(p, L.Tick(next, now, true, true));
            |e.value| <= E.VALUE_CAPACITY && e in n.sent && n.store == p.store && e.key != 0 && e.revision != 0 &&
            E.Outbox(p.store, e.key) == e && E.Top(p.store, e.key) == e.revision &&
            L.Carries(n.session, e) && n.session.outboundSequence == next && n.session.attempts == 1 &&
            n.session.status == S.Active && n.session.outbound in n.wire && n.session.reply == [] && n.puts == p.puts &&
            JustSent(n.session, now)
  {
    hide S.SyncFrame, L.Linked, S.Converged;
    E.PendingIsBounded(p.store);
    FirstPendingCounts(p.store.outbox);
    var e := Next(p);
    E.EntryAt(p.store.outbox, E.FirstPending(p.store.outbox));
    assert E.Consistent(p.store, e.key);
    SentAtOnce(p.session, p.store, next, now);
  }

  lemma FirstPendingCounts(outbox: seq<E.Entry>)
    ensures E.FirstPending(outbox) < |outbox| ==> E.PendingCount(outbox) != 0
  {
  }

  lemma SentAtOnce(x: S.Session, s: E.Store, next: uint32, now: uint32)
    requires E.ValidStore(s) && E.FirstPending(s.outbox) < |s.outbox| && E.PendingCount(s.outbox) != 0
    requires x.status == S.Active && x.outbound == [] && x.reply == []
    requires next != 0 && next != S.NEVER && S.Timely(x, now)
    ensures var e, r := s.outbox[E.FirstPending(s.outbox)], S.PolledWith(x, s, next, now, true, true);
            r.admitted && r.handed == r.session.outbound && L.Carries(r.session, e) &&
            r.session.outboundSequence == next && r.session.attempts == 1 && r.session.status == S.Active &&
            r.session.reply == [] && JustSent(r.session, now)
  {
    hide E.ValidStore, S.SyncFrame;
    NotOverAtOnce(now);
    E.PendingIsBounded(s);
  }

  lemma NotOverAtOnce(now: uint32)
    ensures Remaining(now, Plus(now, S.PROGRESS_TIMEOUT_MS)) != 0 && Remaining(now, now) == 0
  {
    RemainingWhole(now, S.PROGRESS_TIMEOUT_MS);
  }

  /** A frame of this protocol arrives as the body it carries. */
  lemma ArriveIs(p: L.Peer, sequence: uint32, b: S.Body, reply: bool, saved: bool)
    requires E.ValidStore(p.store) && S.SendableBody(b, reply)
    ensures var (x, t, _) :=
              S.Received(p.session, p.store, S.SyncHeader(sequence, reply), S.BodyBytes(b, reply), saved);
            L.Step(p, L.Arrive(S.SyncFrame(sequence, b, reply), saved)) == L.Keep(p, x, t)
  {
    hide S.Received, S.BodyBytes, S.SyncFrame, S.SyncHeader, S.DecodedBody, Frame.DecodeFrame, L.Step;
    L.SyncFrameArrives(sequence, b, reply);
    DecodedStep(p, S.SyncFrame(sequence, b, reply), S.SyncHeader(sequence, reply), S.BodyBytes(b, reply), saved);
  }

  lemma DecodedStep(p: L.Peer, frame: seq<byte>, h: Frame.FrameHeader, payload: seq<byte>, saved: bool)
    requires E.ValidStore(p.store) && Frame.DecodeFrame(frame, 1, 0) == Frame.View(h, payload)
    ensures var (x, t, _) := S.Received(p.session, p.store, h, payload, saved);
            L.Step(p, L.Arrive(frame, saved)) == L.Keep(p, x, t)
  {
    hide S.Received, Frame.DecodeFrame, L.Keep, E.ValidStore;
  }

  /** `y` has made no less progress than `x`, and has the same deadline. */
  predicate Eager(x: S.Session, y: S.Session) {
    y.idle == x.idle && y.progressDeadline == x.progressDeadline && (x.progressPending ==> y.progressPending)
  }

  /** `sequence` is new to the session, or the very frame it took last. */
  ghost predicate Expects(x: S.Session, sequence: uint32, b: S.Body)
    requires |b.content| <= E.VALUE_CAPACITY
  {
    x.lastSequence < sequence || (x.lastSequence == sequence && x.lastPayload == S.BodyBytes(b, false))
  }

  lemma StateIsTaken(x: S.Session, s: E.Store, next: uint32, b: S.Body)
    requires S.SendableBody(b, false) && x.status == S.Active && x.reply == [] && Expects(x, next, b) && next != 0
    requires E.AcceptIncoming(s, b.key, b.revision, b.content, true).1 in {E.Ok, E.Duplicate}
    ensures var (y, t, _) := S.Received(x, s, S.SyncHeader(next, false), S.BodyBytes(b, false), true);
            t == E.AcceptIncoming(s, b.key, b.revision, b.content, true).0 &&
            y.status == S.Active && y.afterReply == S.Active &&
            y.reply == S.SyncFrame(next, S.Body(b.key, b.revision, [S.ACCEPTED]), true) &&
            y.lastSequence == next && y.lastPayload == S.BodyBytes(b, false) && Eager(x, y)
  {
    hide E.AcceptIncoming, S.SyncFrame, S.BodyBytes, S.Received, S.SyncHeader;
    L.Arrived(x, s, next, b, false, true);
  }

  /** `q` may take this value under `next`, or has taken it under `next`, and may answer in time. */
  ghost predicate Willing(q: L.Peer, next: uint32, e: E.Entry, now: uint32) {
    |e.value| <= E.VALUE_CAPACITY && q.session.status == S.Active && q.session.reply == [] &&
    Expects(q.session, next, S.Body(e.key, e.revision, e.value)) && HasRoom(q.store, e.key) && S.Timely(q.session, now)
  }

  /** The receiver stores the value, and its next poll hands over the accepting reply. */
  lemma ValueIsAnswered(p: L.Peer, q: L.Peer, e: E.Entry, next: uint32, follow: uint32, now: uint32, allow: bool)
    requires L.Linked(p, q) && e in p.sent && |e.value| <= E.VALUE_CAPACITY && e.key != 0 && e.revision != 0
    requires Willing(q, next, e, now) && next != 0 && E.Top(p.store, e.key) == e.revision
    ensures var frame := S.SyncFrame(next, S.Body(e.key, e.revision, e.value), false);
            var taken := L.Step(q, L.Arrive(frame, true));
            E.ValidStore(taken.store) && E.Inbox(taken.store, e.key) == e &&
            var answered := L.Step(taken, L.Tick(follow, now, allow, true));
            answered.store == taken.store && answered.session.status == S.Active &&
            answered.session.reply == [] && answered.session.lastSequence == next &&
            answered.session.lastPayload == S.BodyBytes(S.Body(e.key, e.revision, e.value), false) &&
            Eager(q.session, taken.session) && Paused(taken.session, answered.session, now) &&
            CursorSet(answered.store) == CursorSet(q.store) + {e.key} &&
            S.SyncFrame(next, S.Body(e.key, e.revision, [S.ACCEPTED]), true) in answered.wire
  {
    var b := S.Body(e.key, e.revision, e.value);
    L.OwnIsValid(q);
    NeverRefusedAsInvalid(p, q, e, true);
    AcceptedCursors(q.store, e);
    ArriveIs(q, next, b, false, true);
    StateIsTaken(q.session, q.store, next, b);
    hide L.Linked, E.AcceptIncoming, S.SyncFrame, S.BodyBytes, S.Received, E.ValidStore, L.Step, E.Top, E.Inbox;
    hide L.Held, HasRoom, S.PolledWith, CursorSet, S.Progressed;
    var taken := L.Step(q, L.Arrive(S.SyncFrame(next, b, false), true));
    AnsweredAtOnce(taken.session, taken.store, follow, now, allow);
    TickIs(taken, follow, now, allow);
  }

  /** What a poll at `now` leaves of the progress of `x`. */
  predicate Paused(x: S.Session, y: S.Session, now: uint32) {
    var z := S.Progressed(x, now);
    y.idle == z.idle && y.progressPending == z.progressPending && y.progressDeadline == z.progressDeadline
  }

  lemma TickIs(p: L.Peer, next: uint32, now: uint32, allow: bool)
    requires E.ValidStore(p.store)
    ensures var r := S.PolledWith(p.session, p.store, next, now, allow, true);
            var n := L.Step(p, L.Tick(next, now, allow, true));
            n.store == p.store && n.session == r.session && (r.handed != [] ==> r.handed in n.wire)
  {
    hide S.PolledWith, E.ValidStore;
  }

  lemma AnsweredAtOnce(x: S.Session, s: E.Store, follow: uint32, now: uint32, allow: bool)
    requires E.ValidStore(s) && x.status == S.Active && x.reply != [] && x.afterReply == S.Active && S.Timely(x, now)
    ensures var r := S.PolledWith(x, s, follow, now, allow, true);
            r.handed == x.reply && r.session.status == S.Active && !r.admitted && r.session.reply == [] &&
            r.session.lastSequence == x.lastSequence && r.session.lastPayload == x.lastPayload && Paused(x, r.session, now)
  {
    hide E.ValidStore;
    NotOverAtOnce(now);
  }

  lemma AcceptingReplyArrives(x: S.Session, s: E.Store, e: E.Entry, next: uint32)
    requires x.status == S.Active && L.Carries(x, e) && x.attempts != 0 && x.outboundSequence == next && next != 0
    requires e.key != 0 && e.revision != 0 && E.Acknowledge(s, e.key, e.revision, true).1 == E.Ok
    ensures var b := S.Body(e.key, e.revision, [S.ACCEPTED]);
            S.Received(x, s, S.SyncHeader(next, true), S.BodyBytes(b, true), true) ==
            (x.(outbound := [], progressPending := true), E.Acknowledge(s, e.key, e.revision, true).0, true)
  {
    hide E.Acknowledge, S.SyncFrame, S.BodyBytes, S.Received, S.SyncHeader;
    L.Arrived(x, s, next, S.Body(e.key, e.revision, [S.ACCEPTED]), true, true);
  }

  /** The accepting reply retires the value in flight. */
  lemma ReplyRetires(n: L.Peer, e: E.Entry, next: uint32)
    requires E.ValidStore(n.store) && n.session.status == S.Active && L.Carries(n.session, e) && n.session.attempts != 0
    requires n.session.outboundSequence == next && next != 0 && E.Outbox(n.store, e.key) == e
    requires e.key != 0 && e.revision != 0 && L.Held(n.store.outbox) <= n.puts
    ensures var frame := S.SyncFrame(next, S.Body(e.key, e.revision, [S.ACCEPTED]), true);
            var done := L.Step(n, L.Arrive(frame, true));
            done.session.outbound == [] && done.session.status == S.Active &&
            E.Acknowledged(done.store, e.key) == e.revision && E.Outbox(done.store, e.key) == E.FREE &&
            E.PendingCount(done.store.outbox) == E.PendingCount(n.store.outbox) - 1 &&
            done.session.reply == n.session.reply && done.session.progressPending && done.puts == n.puts &&
            OutboxSet(done.store) == OutboxSet(n.store) - {e.key}
  {
    var b := S.Body(e.key, e.revision, [S.ACCEPTED]);
    hide E.Acknowledge, S.SyncFrame, S.BodyBytes, S.Received, S.SyncHeader, E.ValidStore, L.Step, OutboxSet, L.Held,
      L.Carries, E.PendingCount;
    AcknowledgeRetires(n.store, e);
    ArriveIs(n, next, b, true, true);
    AcceptingReplyArrives(n.session, n.store, e, next);
  }

  lemma AcknowledgeRetires(s: E.Store, e: E.Entry)
    requires E.ValidStore(s) && e.key != 0 && e.revision != 0 && E.Outbox(s, e.key) == e
    ensures var (t, status) := E.Acknowledge(s, e.key, e.revision, true);
            status == E.Ok && E.Acknowledged(t, e.key) == e.revision && E.Outbox(t, e.key) == E.FREE &&
            E.PendingCount(t.outbox) == E.PendingCount(s.outbox) - 1 &&
            OutboxSet(t) == OutboxSet(s) - {e.key} && L.Held(t.outbox) <= L.Held(s.outbox)
  {
    hide E.Find;
    assert E.Consistent(s, e.key);
    E.AcknowledgeEffect(s, e.key, e.revision, true);
    E.PlacedCursor(s, e.key);
    CountAfterFree(s.outbox, E.Find(E.EntryKeys(s.outbox), e.key));
    SetAfterFree(s.outbox, E.Find(E.EntryKeys(s.outbox), e.key));
  }

  lemma SetAfterFree(outbox: seq<E.Entry>, i: nat)
    requires E.Distinct(E.EntryKeys(outbox)) && i < |outbox| && outbox[i].key != 0
    ensures KeySet(E.EntryKeys(outbox[i := E.FREE])) == KeySet(E.EntryKeys(outbox)) - {outbox[i].key}
    ensures L.Held(outbox[i := E.FREE]) <= L.Held(outbox)
  {
    var after := outbox[i := E.FREE];
    forall k | k in KeySet(E.EntryKeys(outbox)) && k != outbox[i].key
      ensures k in KeySet(E.EntryKeys(after))
    {
      var j :| 0 <= j < |outbox| && outbox[j].key == k;
      assert E.EntryKeys(after)[j] == k;
    }
    forall e | e in L.Held(after)
      ensures e in L.Held(outbox)
    {
      var j :| 0 <= j < |after| && after[j].key != 0 && after[j] == e;
      assert outbox[j] == e;
    }
  }

  lemma {:induction false} CountAfterFree(outbox: seq<E.Entry>, i: nat)
    requires i < |outbox| && outbox[i].key != 0
    ensures E.PendingCount(outbox[i := E.FREE]) == E.PendingCount(outbox) - 1
  {
    if i > 0 {
      assert outbox[i := E.FREE][1..] == outbox[1..][i - 1 := E.FREE];
      CountAfterFree(outbox[1..], i - 1);
    } else {
      assert outbox[i := E.FREE][1..] == outbox[1..];
    }
  }

  /** The four steps of an exchange in which nothing is lost and both stores save. */
  ghost function Exchange(p: L.Peer, q: L.Peer, next: uint32, now: uint32, follow: uint32, later: uint32, allow: bool)
    : (L.Peer, L.Peer)
    requires L.Linked(p, q) && CanSend(p, next, now) && CanTake(q, next, Next(p).key, later)
  {
    ValueIsSent(p, q, next, now);
    L.TickStep(p, q, next, now, true, true);
    var e, sent := Next(p), L.Step(p, L.Tick(next, now, true, true));
    ValueIsAnswered(sent, q, e, next, follow, later, allow);
    var taken := L.Step(q, L.Arrive(sent.session.outbound, true));
    var answered := L.Step(taken, L.Tick(follow, later, allow, true));
    (L.Step(sent, L.Arrive(S.SyncFrame(next, S.Body(e.key, e.revision, [S.ACCEPTED]), true), true)), answered)
  }

  lemma OwnHolds(p: L.Peer, q: L.Peer)
    requires L.Linked(p, q)
    ensures L.Held(p.store.outbox) <= p.puts
  {
  }

  /** An exchange without losses delivers the first pending value and retires it: one pending value less. */
  lemma ExchangeDelivers(p: L.Peer, q: L.Peer, next: uint32, now: uint32, follow: uint32, later: uint32, allow: bool)
    requires L.Linked(p, q) && CanSend(p, next, now) && CanTake(q, next, Next(p).key, later)
    ensures var e := Next(p);
            var (done, answered) := Exchange(p, q, next, now, follow, later, allow);
            E.Inbox(answered.store, e.key) == e && E.Acknowledged(done.store, e.key) == e.revision &&
            E.PendingCount(done.store.outbox) == E.PendingCount(p.store.outbox) - 1 &&
            done.session.status == S.Active && done.session.outbound == [] && answered.session.status == S.Active &&
            L.Linked(done, answered)
    ensures var (done, answered) := Exchange(p, q, next, now, follow, later, allow);
            done.session.reply == [] && done.session.progressPending && done.puts == p.puts &&
            answered.session.reply == [] && answered.session.lastSequence == next &&
            (exists taken: S.Session :: Eager(q.session, taken) && Paused(taken, answered.session, later)) &&
            OutboxSet(done.store) == OutboxSet(p.store) - {Next(p).key} &&
            CursorSet(answered.store) == CursorSet(q.store) + {Next(p).key}
  {
    hide L.Own, L.Wires, L.Toward, S.SyncFrame, S.PolledWith, S.Received, E.ValidStore, E.Inbox, E.Outbox, E.Top;
    hide OutboxSet, CursorSet, S.Progressed;
    var e, sent := Next(p), L.Step(p, L.Tick(next, now, true, true));
    ValueIsSent(p, q, next, now);
    L.StepKeepsLink(p, q, L.Tick(next, now, true, true));
    ValueIsAnswered(sent, q, e, next, follow, later, allow);
    L.StepKeepsLink(q, sent, L.Arrive(sent.session.outbound, true));
    hide L.Step;
    L.LinkedIsValid(q, sent);
    var taken := L.Step(q, L.Arrive(sent.session.outbound, true));
    L.StepKeepsLink(taken, sent, L.Tick(follow, later, allow, true));
    var answered := L.Step(taken, L.Tick(follow, later, allow, true));
    OwnHolds(sent, answered);
    ReplyRetires(sent, e, next);
    L.StepKeepsLink(sent, answered, L.Arrive(S.SyncFrame(next, S.Body(e.key, e.revision, [S.ACCEPTED]), true), true));
  }

  // --- one exchange after the other -------------------------------------------------------

  /** An exchange: sent under `next` at `now` on one clock, answered `took` milliseconds later on the other. */
  datatype Turn = Turn(next: uint32, now: uint32, took: uint32, follow: uint32, allow: bool)

  function Duration(turns: seq<Turn>): nat {
    if turns == [] then 0 else turns[0].took as nat + Duration(turns[1..])
  }

  /** Sequence numbers go up. */
  predicate Rising(turns: seq<Turn>, last: uint32) {
    turns == [] || (last < turns[0].next < S.NEVER && Rising(turns[1..], turns[0].next))
  }

  /** A poll within `left` milliseconds is not too late. */
  predicate Lasts(x: S.Session, at: uint32, left: nat) {
    x.idle || x.progressPending || Remaining(at, x.progressDeadline) as nat > left
  }

  lemma LastsOn(x: S.Session, y: S.Session, z: S.Session, at: uint32, took: uint32, left: nat)
    requires Lasts(x, at, left) && took as nat <= left < S.PROGRESS_TIMEOUT_MS as nat
    requires Eager(x, y) && Paused(y, z, Plus(at, took))
    ensures Lasts(z, Plus(at, took), left - took as nat)
  {
    RemainingWhole(Plus(at, took), S.PROGRESS_TIMEOUT_MS);
    if Remaining(at, x.progressDeadline) as nat > left {
      RemainingLater(at, x.progressDeadline, took);
    }
    hide Remaining, Plus;
  }

  lemma TimelyAfter(x: S.Session, at: uint32, took: uint32, left: nat)
    requires Lasts(x, at, left) && took as nat <= left
    ensures S.Timely(x, Plus(at, took))
  {
    if Remaining(at, x.progressDeadline) as nat > left {
      RemainingLater(at, x.progressDeadline, took);
    }
  }

  /**
   * One side has that much pending and nothing under way, the other owes no answer, knows or has room for all keys,
   * and does not time out before the last turn.
   */
  ghost predicate CanDrain(p: L.Peer, q: L.Peer, at: uint32, turns: seq<Turn>) {
    L.Linked(p, q) && |turns| <= E.PendingCount(p.store.outbox) &&
    p.session.status == S.Active && p.session.outbound == [] && p.session.reply == [] &&
    (turns != [] ==> S.Timely(p.session, turns[0].now)) &&
    q.session.status == S.Active && q.session.reply == [] && Rising(turns, q.session.lastSequence) &&
    Lasts(q.session, at, Duration(turns)) && Duration(turns) < S.PROGRESS_TIMEOUT_MS as nat &&
    Fits(p.store, q.store)
  }

  lemma NextIsPending(p: L.Peer)
    ensures E.PendingCount(p.store.outbox) > 0 ==>
              E.FirstPending(p.store.outbox) < |p.store.outbox| && Next(p).key in OutboxSet(p.store)
  {
    if E.PendingCount(p.store.outbox) > 0 {
      assert E.EntryKeys(p.store.outbox)[E.FirstPending(p.store.outbox)] == Next(p).key;
    }
  }

  lemma TurnIsPossible(p: L.Peer, q: L.Peer, at: uint32, turns: seq<Turn>)
    requires CanDrain(p, q, at, turns) && turns != []
    ensures var t := turns[0];
            CanSend(p, t.next, t.now) && CanTake(q, t.next, Next(p).key, Plus(at, t.took))
  {
    L.LinkedIsValid(p, q);
    TimelyAfter(q.session, at, turns[0].took, Duration(turns));
    hide L.Linked, E.ValidStore, S.Timely, Lasts, HasRoom;
    NextIsPending(p);
    FitsHasRoom(p.store, q.store, Next(p).key);
  }

  ghost function AfterTurn(p: L.Peer, q: L.Peer, at: uint32, turns: seq<Turn>): (L.Peer, L.Peer)
    requires CanDrain(p, q, at, turns) && turns != []
  {
    TurnIsPossible(p, q, at, turns);
    var t := turns[0];
    Exchange(p, q, t.next, t.now, t.follow, Plus(at, t.took), t.allow)
  }

  /** What an exchange of `key` leaves, as far as the next one needs it. */
  ghost predicate Turned(p: L.Peer, q: L.Peer, d: L.Peer, a: L.Peer, t: Turn, key: uint16, later: uint32) {
    L.Linked(d, a) && d.puts == p.puts && E.PendingCount(d.store.outbox) == E.PendingCount(p.store.outbox) - 1 &&
    d.session.status == S.Active && d.session.outbound == [] && d.session.reply == [] && d.session.progressPending &&
    a.session.status == S.Active && a.session.reply == [] && a.session.lastSequence == t.next &&
    (exists taken: S.Session :: Eager(q.session, taken) && Paused(taken, a.session, later)) &&
    OutboxSet(d.store) == OutboxSet(p.store) - {key} && CursorSet(a.store) == CursorSet(q.store) + {key} &&
    key in OutboxSet(p.store)
  }

  lemma ExchangeTurns(p: L.Peer, q: L.Peer, t: Turn, later: uint32)
    requires L.Linked(p, q) && CanSend(p, t.next, t.now) && CanTake(q, t.next, Next(p).key, later)
    ensures var (d, a) := Exchange(p, q, t.next, t.now, t.follow, later, t.allow);
            Turned(p, q, d, a, t, Next(p).key, later)
  {
    NextIsPending(p);
    hide Exchange, L.Linked, CursorSet, OutboxSet, CanTake, Eager, Paused, E.ValidStore, E.PendingCount, S.Timely, E.Inbox,
      E.Acknowledged;
    ExchangeDelivers(p, q, t.next, t.now, t.follow, later, t.allow);
  }

  lemma TurnEffect(p: L.Peer, q: L.Peer, at: uint32, turns: seq<Turn>)
    requires CanDrain(p, q, at, turns) && turns != []
    ensures var (d, a) := AfterTurn(p, q, at, turns);
            E.FirstPending(p.store.outbox) < |p.store.outbox| &&
            Turned(p, q, d, a, turns[0], Next(p).key, Plus(at, turns[0].took))
  {
    hide Exchange, L.Linked, Lasts, CanTake, Turned, Plus, Fits, Rising, E.ValidStore, E.PendingCount, E.FirstPending,
      S.Timely, Duration;
    TurnIsPossible(p, q, at, turns);
    ExchangeTurns(p, q, turns[0], Plus(at, turns[0].took));
  }

  lemma TurnedGoesOn(p: L.Peer, q: L.Peer, d: L.Peer, a: L.Peer, at: uint32, turns: seq<Turn>, key: uint16)
    requires CanDrain(p, q, at, turns) && turns != [] && Turned(p, q, d, a, turns[0], key, Plus(at, turns[0].took))
    ensures CanDrain(d, a, Plus(at, turns[0].took), turns[1..])
  {
    hide L.Linked, Lasts, CursorSet, OutboxSet, Eager, Paused, Plus, Fits, E.PendingCount;
    var t, later := turns[0], Plus(at, turns[0].took);
    var taken: S.Session :| Eager(q.session, taken) && Paused(taken, a.session, later);
    LastsOn(q.session, taken, a.session, at, t.took, Duration(turns));
    StillFits(p.store, q.store, d.store, a.store, key);
  }

  lemma TurnGoesOn(p: L.Peer, q: L.Peer, at: uint32, turns: seq<Turn>)
    requires CanDrain(p, q, at, turns) && turns != []
    ensures var (d, a) := AfterTurn(p, q, at, turns);
            CanDrain(d, a, Plus(at, turns[0].took), turns[1..]) && d.puts == p.puts &&
            E.PendingCount(d.store.outbox) == E.PendingCount(p.store.outbox) - 1
  {
    hide CanDrain, AfterTurn, Plus;
    TurnEffect(p, q, at, turns);
    var (d, a) := AfterTurn(p, q, at, turns);
    TurnedGoesOn(p, q, d, a, at, turns, Next(p).key);
  }

  /** The two peers after all the turns, in which nothing is lost and both stores save. */
  ghost function Drain(p: L.Peer, q: L.Peer, at: uint32, turns: seq<Turn>): (L.Peer, L.Peer)
    requires CanDrain(p, q, at, turns)
    decreases |turns|
  {
    if turns == [] then (p, q)
    else
      TurnGoesOn(p, q, at, turns);
      var (d, a) := AfterTurn(p, q, at, turns);
      Drain(d, a, Plus(at, turns[0].took), turns[1..])
  }

  lemma {:induction false} EachTurnRetiresOne(p: L.Peer, q: L.Peer, at: uint32, turns: seq<Turn>)
    requires CanDrain(p, q, at, turns)
    ensures var (d, a) := Drain(p, q, at, turns);
            L.Linked(d, a) && d.puts == p.puts && d.session.status == S.Active && a.session.status == S.Active &&
            E.PendingCount(d.store.outbox) == E.PendingCount(p.store.outbox) - |turns|
    decreases |turns|
  {
    hide CanDrain, AfterTurn, L.Linked;
    if turns != [] {
      TurnGoesOn(p, q, at, turns);
      var (d, a) := AfterTurn(p, q, at, turns);
      EachTurnRetiresOne(d, a, Plus(at, turns[0].took), turns[1..]);
    } else {
      DrainIsOver(p, q, at);
    }
  }

  lemma DrainIsOver(p: L.Peer, q: L.Peer, at: uint32)
    requires CanDrain(p, q, at, [])
    ensures L.Linked(p, q) && p.session.status == S.Active && q.session.status == S.Active
  {
  }

  /**
   * As many exchanges without losses as values are pending empty the outbox, and leave the other side with the newest
   * value of every key ever put.
   */
  lemma DrainDeliversAll(p: L.Peer, q: L.Peer, at: uint32, turns: seq<Turn>)
    requires CanDrain(p, q, at, turns) && |turns| == E.PendingCount(p.store.outbox)
    ensures var (d, a) := Drain(p, q, at, turns);
            E.PendingCount(d.store.outbox) == 0 && d.session.status == S.Active && a.session.status == S.Active &&
            forall e | L.Newest(p, e) :: E.Inbox(a.store, e.key) == e
  {
    hide CanDrain, Drain, L.Linked;
    EachTurnRetiresOne(p, q, at, turns);
    var (d, a) := Drain(p, q, at, turns);
    forall e | L.Newest(p, e)
      ensures E.Inbox(a.store, e.key) == e
    {
      L.DrainedIn(d, a, e);
    }
  }

  /** What a session is like when it has just started. */
  predicate JustStarted(x: S.Session, now: uint32) {
    x.status == S.Active && x.outbound == [] && x.reply == [] &&
    x.progressDeadline == Plus(now, S.PROGRESS_TIMEOUT_MS)
  }

  lemma StartedIsJustStarted(x: S.Session, s: E.Store, peer: seq<E.SyncCursor>, now: uint32, last: uint32, saved: bool)
    ensures var (y, _, status) := S.Started(x, s, peer, now, last, saved);
            status == E.Ok ==> JustStarted(y, now) && y.lastSequence == last
  {
    hide E.Reconcile;
  }

  /** Two sessions that have started can drain: all that is needed beside is time, sequence numbers and room. */
  lemma StartedCanDrain(p: L.Peer, q: L.Peer, began: uint32, at: uint32, turns: seq<Turn>)
    requires L.Linked(p, q) && JustStarted(p.session, began) && JustStarted(q.session, at) && Fits(p.store, q.store)
    requires |turns| <= E.PendingCount(p.store.outbox) && Rising(turns, q.session.lastSequence)
    requires Duration(turns) < S.PROGRESS_TIMEOUT_MS as nat
    requires turns != [] ==> Minus(turns[0].now, began) < S.PROGRESS_TIMEOUT_MS
    ensures CanDrain(p, q, at, turns)
  {
    hide L.Linked, Fits, Rising, E.PendingCount, Remaining;
    RemainingWhole(at, S.PROGRESS_TIMEOUT_MS);
    if turns != [] {
      var elapsed := Minus(turns[0].now, began);
      RemainingWhole(began, S.PROGRESS_TIMEOUT_MS);
      RemainingLater(began, Plus(began, S.PROGRESS_TIMEOUT_MS), elapsed);
      PlusMinus(began, turns[0].now);
    }
  }

  lemma PlusMinus(start: uint32, end: uint32)
    ensures Plus(start, Minus(end, start)) == end
  {
    var d := end as int - start as int;
    assert d % WORD == if d < 0 then d + WORD else d;
  }
}
