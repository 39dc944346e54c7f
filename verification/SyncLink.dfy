/** Two peers that keep each other's durable values in step over a network that loses, repeats, delays and reorders frames. */
module SyncLink {
  import opened Bytes
  import opened Wrappers
  import Frame
  import E = SyncEngine
  import S = SyncSession
  import C = SyncCursors

  type Entry = E.Entry

  /** A peer with the history no code can see: the values it ever held, admitted and handed to the network. */
  datatype Peer = Peer(
    store: E.Store,
    session: S.Session,
    puts: set<Entry>,
    sent: set<Entry>,
    applied: set<Entry>,
    wire: set<seq<byte>>,
    hellos: set<seq<E.SyncCursor>>)

  /** What may happen at a peer; a frame or an announcement of the other side may arrive at any time and any number of times. */
  datatype Event =
    | PutState(key: uint16, revision: uint32, value: seq<byte>, saved: bool)
    | Announce
    | Open(hello: seq<E.SyncCursor>, now: uint32, lastSequence: uint32, saved: bool)
    | Arrive(frame: seq<byte>, saved: bool)
    | Tick(next: uint32, now: uint32, allow: bool, sent: bool)
    | Close

  ghost predicate Enabled(q: Peer, e: Event) {
    (e.Open? ==> e.hello in q.hellos) && (e.Arrive? ==> e.frame in q.wire)
  }

  ghost function Held(s: seq<Entry>): set<Entry> {
    set i | 0 <= i < |s| && s[i].key != 0 :: s[i]
  }

  ghost function Keep(p: Peer, session: S.Session, store: E.Store): Peer {
    p.(session := session, store := store, puts := p.puts + Held(store.outbox), applied := p.applied + Held(store.inbox))
  }

  ghost function Step(p: Peer, e: Event): Peer
    requires E.ValidStore(p.store)
  {
    match e
    case PutState(key, revision, value, saved) => Keep(p, p.session, E.Put(p.store, key, revision, value, saved).0)
    case Announce => p.(hellos := p.hellos + {E.Cursors(p.store)})
    case Open(hello, now, lastSequence, saved) =>
      if |hello| <= E.KEY_CAPACITY && C.Announced(C.Announcement(hello)).Some? then
        var (x, t, _) :=
          S.Started(p.session, p.store, C.Announced(C.Announcement(hello)).value, now, lastSequence, saved);
        Keep(p, x, t)
      else p
    case Arrive(frame, saved) =>
      (match Frame.DecodeFrame(frame, 1, 0)
       case Rejected(_) => p
       case View(h, payload) =>
         var (x, t, _) := S.Received(p.session, p.store, h, payload, saved);
         Keep(p, x, t))
    case Tick(next, now, allow, sent) => Ticked(p, S.PolledWith(p.session, p.store, next, now, allow, sent))
    case Close => p.(session := S.Cleared(p.session))
  }

  ghost function Ticked(p: Peer, r: S.Polled): Peer {
    var i := E.FirstPending(p.store.outbox);
    p.(session := r.session,
       wire := if r.handed == [] then p.wire else p.wire + {r.handed},
       sent := if r.admitted && i < |p.store.outbox| then p.sent + {p.store.outbox[i]} else p.sent)
  }

  // --- what every step keeps ------------------------------------------------------

  ghost predicate OneValuePerRevision(es: set<Entry>) {
    forall e <- es, f <- es :: e.key == f.key && e.revision == f.revision ==> e == f
  }

  ghost predicate Carries(x: S.Session, e: Entry) {
    |e.value| <= E.VALUE_CAPACITY && e.key == x.outboundKey && e.revision == x.outboundRevision &&
    x.outbound == S.SyncFrame(x.outboundSequence, S.Body(e.key, e.revision, e.value), false)
  }

  /** What is in flight is the newest value of its key that was ever admitted. */
  ghost predicate InFlight(p: Peer) {
    p.session.outbound != [] ==>
      (exists e <- p.sent :: Carries(p.session, e)) &&
      forall f <- p.sent :: f.key == p.session.outboundKey ==> f.revision <= p.session.outboundRevision
  }

  ghost predicate Own(p: Peer) {
    E.ValidStore(p.store) && OneValuePerRevision(p.puts) &&
    (forall e <- p.puts :: e.key != 0 && 0 < e.revision <= E.Top(p.store, e.key)) &&
    Held(p.store.outbox) <= p.puts && Held(p.store.inbox) <= p.applied && p.sent <= p.puts &&
    InFlight(p)
  }

  ghost predicate StateOf(p: Peer, frame: seq<byte>, sequence: uint32, e: Entry) {
    e in p.sent && |e.value| <= E.VALUE_CAPACITY &&
    frame == S.SyncFrame(sequence, S.Body(e.key, e.revision, e.value), false)
  }

  ghost predicate ReplyOf(p: Peer, frame: seq<byte>, sequence: uint32, key: uint16, revision: uint32, result: byte) {
    key != 0 && revision != 0 && result <= S.CAPACITY &&
    frame == S.SyncFrame(sequence, S.Body(key, revision, [result]), true) &&
    (result == S.ACCEPTED ==> revision <= E.Applied(p.store, key))
  }

  /** A frame carries an admitted value, or answers for a revision, and accepts only what was applied. */
  ghost predicate Truthful(p: Peer, frame: seq<byte>) {
    (exists sequence, e :: StateOf(p, frame, sequence, e)) ||
    (exists sequence, key, revision, result :: ReplyOf(p, frame, sequence, key, revision, result))
  }

  ghost predicate Wires(p: Peer) {
    (forall f <- p.wire :: Truthful(p, f)) && (p.session.reply != [] ==> Truthful(p, p.session.reply))
  }

  ghost predicate HasApplied(q: Peer, key: uint16, revision: uint32) {
    exists e <- q.applied :: e.key == key && e.revision == revision
  }

  /** `q` applied only what `p` admitted; what `p` holds acknowledged, and what `q` announced, `q` did apply. */
  ghost predicate Toward(p: Peer, q: Peer) {
    (forall e <- q.applied :: e in p.sent && e.revision <= E.Applied(q.store, e.key)) &&
    (forall k: uint16 :: k != 0 && E.Acknowledged(p.store, k) > 0 ==> HasApplied(q, k, E.Acknowledged(p.store, k))) &&
    forall h <- q.hellos :: Announces(q, h)
  }

  ghost predicate Announces(q: Peer, h: seq<E.SyncCursor>) {
    forall i :: 0 <= i < |h| && h[i].applied > 0 ==> HasApplied(q, h[i].key, h[i].applied)
  }

  ghost predicate Linked(p: Peer, q: Peer) {
    Own(p) && Own(q) && Wires(p) && Wires(q) && Toward(p, q) && Toward(q, p)
  }

  lemma HeldIsLookup(s: seq<Entry>, e: Entry)
    requires E.Distinct(E.EntryKeys(s)) && e.key != 0
    ensures e in Held(s) <==> E.Lookup(s, e.key) == e
  {
    if e in Held(s) {
      var i :| 0 <= i < |s| && s[i].key != 0 && s[i] == e;
      E.EntryAt(s, i);
    } else {
      var i := E.Find(E.EntryKeys(s), e.key);
    }
  }

  /** What a received value's cursor names is a value that was applied. */
  lemma AppliedIsKept(q: Peer, key: uint16)
    requires E.ValidStore(q.store) && Held(q.store.inbox) <= q.applied && key != 0 && E.Applied(q.store, key) > 0
    ensures var e := E.Inbox(q.store, key);
            e in q.applied && e.key == key && e.revision == E.Applied(q.store, key)
    ensures HasApplied(q, key, E.Applied(q.store, key))
  {
    assert E.Consistent(q.store, key);
    HeldIsLookup(q.store.inbox, E.Inbox(q.store, key));
  }

  // --- frames as they arrive -------------------------------------------------------

  lemma SyncFrameArrives(sequence: uint32, b: S.Body, reply: bool)
    requires S.SendableBody(b, reply)
    ensures Frame.DecodeFrame(S.SyncFrame(sequence, b, reply), 1, 0) ==
            Frame.View(S.SyncHeader(sequence, reply), S.BodyBytes(b, reply))
    ensures S.DecodedBody(S.BodyBytes(b, reply), reply) == Some(b)
  {
    hide S.BodyBytes, Frame.FrameBytes, Frame.DecodeFrame;
    S.BodyImage(b, reply);
    S.BodyRoundTrip(b, reply);
    Frame.DecodeInvertsEncode(S.SyncHeader(sequence, reply), S.BodyBytes(b, reply), 1, 0);
  }

  // --- history only grows -----------------------------------------------------------

  /** `n` is `p` at a later time, as far as promises made to the other side go. */
  ghost predicate Later(p: Peer, n: Peer) {
    p.sent <= n.sent && p.applied <= n.applied && p.hellos <= n.hellos &&
    forall k: uint16 :: k != 0 ==> E.Applied(p.store, k) <= E.Applied(n.store, k)
  }

  lemma StillTruthful(p: Peer, n: Peer, frame: seq<byte>)
    requires Later(p, n) && Truthful(p, frame)
    ensures Truthful(n, frame)
  {
    hide S.SyncFrame;
    if sequence, e :| StateOf(p, frame, sequence, e) {
      assert StateOf(n, frame, sequence, e);
    } else {
      var sequence, key, revision, result :| ReplyOf(p, frame, sequence, key, revision, result);
      assert ReplyOf(n, frame, sequence, key, revision, result);
    }
  }

  lemma StillApplied(q: Peer, n: Peer, key: uint16, revision: uint32)
    requires Later(q, n) && HasApplied(q, key, revision)
    ensures HasApplied(n, key, revision)
  {
  }

  lemma StillAnnounces(q: Peer, n: Peer, h: seq<E.SyncCursor>)
    requires Later(q, n) && Announces(q, h)
    ensures Announces(n, h)
  {
  }

  /** A later receiver still honours the sender, when what it applied since was admitted. */
  lemma StillToward(p: Peer, q: Peer, n: Peer)
    requires Toward(p, q) && Later(q, n)
    requires forall e <- n.applied :: e in p.sent && e.revision <= E.Applied(n.store, e.key)
    requires forall h <- n.hellos :: h in q.hellos || Announces(n, h)
    ensures Toward(p, n)
  {
    hide Later, Announces, HasApplied;
    forall k: uint16 | k != 0 && E.Acknowledged(p.store, k) > 0
      ensures HasApplied(n, k, E.Acknowledged(p.store, k))
    {
      StillApplied(q, n, k, E.Acknowledged(p.store, k));
    }
    forall h | h in n.hellos
      ensures Announces(n, h)
    {
      if h in q.hellos {
        StillAnnounces(q, n, h);
      }
    }
  }

  /** The step of one peer, put together from what it owes itself and what it owes the other. */
  lemma Assemble(p: Peer, q: Peer, n: Peer)
    requires Linked(p, q) && Later(p, n) && Own(n)
    requires forall f <- n.wire :: f in p.wire || Truthful(n, f)
    requires n.session.reply != [] ==> n.session.reply == p.session.reply || Truthful(n, n.session.reply)
    requires forall e <- n.applied :: e in p.applied || (e in q.sent && e.revision <= E.Applied(n.store, e.key))
    requires forall h <- n.hellos :: h in p.hellos || Announces(n, h)
    requires forall k: uint16 :: k != 0 && E.Acknowledged(n.store, k) > 0 ==>
      E.Acknowledged(n.store, k) == E.Acknowledged(p.store, k) || HasApplied(q, k, E.Acknowledged(n.store, k))
    ensures Linked(n, q)
  {
    hide Truthful, Own, Announces, HasApplied;
    forall f | f in n.wire
      ensures Truthful(n, f)
    {
      if f in p.wire {
        StillTruthful(p, n, f);
      }
    }
    if n.session.reply != [] && n.session.reply == p.session.reply {
      StillTruthful(p, n, n.session.reply);
    }
    PutsHaveKeys(p, q);
    assert forall e <- p.applied :: E.Applied(p.store, e.key) <= E.Applied(n.store, e.key);
    StillToward(q, p, n);
    assert Toward(n, q);
  }

  lemma PutsHaveKeys(p: Peer, q: Peer)
    requires Toward(q, p) && Own(q)
    ensures forall e <- p.applied :: e.key != 0
  {
    assert forall e <- p.applied :: e in q.puts;
  }

  // --- one lemma for each event ---------------------------------------------------------

  /** A pending value is kept, dropped, or newer than every earlier one of its key. */
  ghost predicate Grows(s: E.Store, t: E.Store, key: uint16) {
    E.Top(s, key) <= E.Top(t, key) && E.Applied(s, key) <= E.Applied(t, key) &&
    (E.Outbox(t, key) == E.FREE || E.Outbox(t, key) == E.Outbox(s, key) || E.Pending(t, key) > E.Top(s, key))
  }

  ghost predicate SameFlight(x: S.Session, y: S.Session) {
    y.outbound == [] ||
    (y.outbound == x.outbound && y.outboundKey == x.outboundKey && y.outboundRevision == x.outboundRevision &&
     y.outboundSequence == x.outboundSequence)
  }

  lemma NewPut(p: Peer, t: E.Store, e: Entry)
    requires Own(p) && E.ValidStore(t) && e in Held(t.outbox) && Grows(p.store, t, e.key)
    ensures e.key != 0 && E.Outbox(t, e.key) == e && 0 < e.revision <= E.Top(t, e.key)
    ensures e in p.puts || e.revision > E.Top(p.store, e.key)
  {
    HeldIsLookup(t.outbox, e);
    HeldIsLookup(p.store.outbox, e);
    assert E.Consistent(t, e.key);
  }

  lemma KeepsOwn(p: Peer, x: S.Session, t: E.Store)
    requires Own(p) && E.ValidStore(t) && SameFlight(p.session, x)
    requires forall k: uint16 :: k != 0 ==> Grows(p.store, t, k)
    ensures Own(Keep(p, x, t))
  {
    hide E.ValidStore, Held, S.SyncFrame, E.Top;
    var n := Keep(p, x, t);
    forall e | e in n.puts
      ensures e.key != 0 && 0 < e.revision <= E.Top(t, e.key)
      ensures e in p.puts || (E.Outbox(t, e.key) == e && e.revision > E.Top(p.store, e.key))
    {
      if e !in p.puts {
        HeldHasKey(t, e);
        NewPut(p, t, e);
      } else {
        assert Grows(p.store, t, e.key);
      }
    }
    assert OneValuePerRevision(n.puts);
    if x.outbound != [] {
      var e :| e in p.sent && Carries(p.session, e);
      assert Carries(x, e);
    }
  }

  lemma HeldHasKey(t: E.Store, e: Entry)
    requires e in Held(t.outbox)
    ensures e.key != 0
  {
  }

  lemma NewApplied(p: Peer, q: Peer, t: E.Store, e: Entry)
    requires Own(p) && E.ValidStore(t) && e in Held(t.inbox)
    requires forall k: uint16 :: k != 0 ==> E.Inbox(t, k) == E.Inbox(p.store, k) || E.Inbox(t, k) in q.sent
    ensures e in p.applied || (e in q.sent && e.revision <= E.Applied(t, e.key))
  {
    HeldIsLookup(t.inbox, e);
    HeldIsLookup(p.store.inbox, e);
    assert E.Consistent(t, e.key);
  }

  lemma PutStep(p: Peer, q: Peer, key: uint16, revision: uint32, value: seq<byte>, saved: bool)
    requires Linked(p, q)
    ensures Linked(Step(p, PutState(key, revision, value, saved)), q)
  {
    hide Own, Wires, Toward, E.Put, E.ValidStore, Held;
    OwnIsValid(p);
    var s, t := p.store, E.Put(p.store, key, revision, value, saved).0;
    E.PutEffect(s, key, revision, value, saved);
    forall k: uint16 | k != 0
      ensures Grows(s, t, k) && E.Acknowledged(t, k) == E.Acknowledged(s, k) && E.Inbox(t, k) == E.Inbox(s, k)
    {
      if k != key && t != s {
        assert E.SameKey(s, t, k);
      }
    }
    Kept(p, q, p.session, t);
  }

  lemma OwnIsValid(p: Peer)
    requires Own(p)
    ensures E.ValidStore(p.store) && E.Shaped(p.store) && Held(p.store.inbox) <= p.applied
  {
  }

  /** Steps that change neither the inbox nor what is acknowledged, nor hand out anything. */
  lemma Kept(p: Peer, q: Peer, x: S.Session, t: E.Store)
    requires Linked(p, q) && E.ValidStore(t) && SameFlight(p.session, x)
    requires x.reply == [] || x.reply == p.session.reply || Truthful(Keep(p, x, t), x.reply)
    requires forall k: uint16 :: k != 0 ==> Grows(p.store, t, k)
    requires forall k: uint16 :: k != 0 ==>
      E.Acknowledged(t, k) == E.Acknowledged(p.store, k) || E.Acknowledged(t, k) == 0 ||
      HasApplied(q, k, E.Acknowledged(t, k))
    requires forall k: uint16 :: k != 0 ==> E.Inbox(t, k) == E.Inbox(p.store, k) || E.Inbox(t, k) in q.sent
    ensures Linked(Keep(p, x, t), q)
  {
    hide E.ValidStore, Truthful, Held;
    KeepsOwn(p, x, t);
    var n := Keep(p, x, t);
    forall e | e in Held(t.inbox)
      ensures e in p.applied || (e in q.sent && e.revision <= E.Applied(t, e.key))
    {
      NewApplied(p, q, t, e);
    }
    assert forall k: uint16 :: k != 0 && Grows(p.store, t, k) ==> E.Applied(p.store, k) <= E.Applied(t, k);
    Assemble(p, q, n);
  }

  lemma CloseStep(p: Peer, q: Peer)
    requires Linked(p, q)
    ensures Linked(Step(p, Close), q)
  {
    hide Truthful, E.ValidStore, Toward, Announces, HasApplied, Held, OneValuePerRevision, Carries, E.Top, E.Applied,
      E.Acknowledged;
    OwnIsValid(p);
    Assemble(p, q, Step(p, Close));
  }

  /** The announced cursors name only values that were applied. */
  lemma AnnounceStep(p: Peer, q: Peer)
    requires Linked(p, q)
    ensures Linked(Step(p, Announce), q)
  {
    hide Truthful, E.ValidStore, HasApplied;
    OwnIsValid(p);
    var n := Step(p, Announce);
    var cs := E.Cursors(p.store);
    E.CursorsTell(p.store);
    forall i | 0 <= i < |cs| && cs[i].applied > 0
      ensures HasApplied(n, cs[i].key, cs[i].applied)
    {
      E.FoundAt(E.PeerKeys(cs), i);
      assert E.CursorIn(cs, cs[i].key) == cs[i];
      AppliedIsKept(n, cs[i].key);
    }
    Assemble(p, q, n);
  }

  lemma OpenStep(p: Peer, q: Peer, hello: seq<E.SyncCursor>, now: uint32, lastSequence: uint32, saved: bool)
    requires Linked(p, q) && hello in q.hellos
    ensures Linked(Step(p, Open(hello, now, lastSequence, saved)), q)
  {
    hide Own, Wires, E.Reconcile, E.ValidStore, Held, HasApplied, C.Announced, C.Announcement;
    OwnIsValid(p);
    if |hello| <= E.KEY_CAPACITY && C.Announced(C.Announcement(hello)).Some? {
      C.AnnouncementRoundTrip(hello);
      var s := p.store;
      var (x, t, status) := S.Started(p.session, s, hello, now, lastSequence, saved);
      E.ReconcileEffect(s, hello, saved);
      forall k: uint16 | k != 0
        ensures Grows(s, t, k) && E.Inbox(t, k) == E.Inbox(s, k)
        ensures E.Acknowledged(t, k) == E.Acknowledged(s, k) || E.Acknowledged(t, k) == 0 ||
                HasApplied(q, k, E.Acknowledged(t, k))
      {
        if t != s {
          assert E.ReconciledKey(s, t, hello, k);
          assert Announces(q, hello);
        }
      }
      Kept(p, q, x, t);
    }
  }

  /** A poll hands over the reply or the frame in flight, and puts the first pending value in flight or nothing. */
  lemma PollEffect(x: S.Session, s: E.Store, next: uint32, now: uint32, allow: bool, sent: bool)
    requires E.ValidStore(s)
    ensures var r := S.PolledWith(x, s, next, now, allow, sent);
            var i := E.FirstPending(s.outbox);
            (r.session.reply == [] || r.session.reply == x.reply) &&
            (r.handed == [] || r.handed == x.reply || r.handed == r.session.outbound) &&
            if r.admitted then
              i < |s.outbox| && |s.outbox[i].value| <= E.VALUE_CAPACITY && Carries(r.session, s.outbox[i])
            else SameFlight(x, r.session)
  {
    hide S.SyncFrame, S.Converged, E.ValidStore;
    E.PendingIsBounded(s);
  }

  lemma TickStep(p: Peer, q: Peer, next: uint32, now: uint32, allow: bool, sent: bool)
    requires Linked(p, q)
    ensures Linked(Step(p, Tick(next, now, allow, sent)), q)
  {
    hide S.PolledWith, E.ValidStore, Truthful, Carries, E.Top, S.SyncFrame, Announces, HasApplied, Toward, InFlight;
    OwnIsValid(p);
    var r := S.PolledWith(p.session, p.store, next, now, allow, sent);
    PollEffect(p.session, p.store, next, now, allow, sent);
    var n := Ticked(p, r);
    if r.admitted {
      NewestInFlight(p, n, p.store.outbox[E.FirstPending(p.store.outbox)]);
    } else {
      StaysInFlight(p, n);
    }
    if n.session.outbound != [] && r.handed == n.session.outbound {
      FlightIsTruthful(n);
    }
    if r.handed == p.session.reply && r.handed != [] {
      StillTruthful(p, n, r.handed);
    }
    Assemble(p, q, n);
  }

  /** The first pending value is at least as new as anything admitted of its key. */
  lemma AdmitsNewest(p: Peer, e: Entry)
    requires Own(p) && e in p.store.outbox && e.key != 0
    ensures e in p.puts && forall f <- p.sent :: f.key == e.key ==> f.revision <= e.revision
  {
    assert e in Held(p.store.outbox);
    HeldIsLookup(p.store.outbox, e);
    assert E.Consistent(p.store, e.key);
  }

  lemma NewestInFlight(p: Peer, n: Peer, e: Entry)
    requires Own(p) && e in p.store.outbox && e.key != 0
    requires n.sent == p.sent + {e} && Carries(n.session, e)
    ensures InFlight(n) && n.sent <= p.puts
  {
    hide S.SyncFrame, E.ValidStore, E.Top, Held, OneValuePerRevision;
    AdmitsNewest(p, e);
    assert e in n.sent;
  }

  lemma StaysInFlight(p: Peer, n: Peer)
    requires InFlight(p) && n.sent == p.sent && SameFlight(p.session, n.session)
    ensures InFlight(n)
  {
    if n.session.outbound != [] {
      var e :| e in p.sent && Carries(p.session, e);
      assert Carries(n.session, e);
    }
  }

  lemma FlightIsTruthful(n: Peer)
    requires InFlight(n) && n.session.outbound != []
    ensures Truthful(n, n.session.outbound)
  {
    hide S.SyncFrame, ReplyOf;
    var e :| e in n.sent && Carries(n.session, e);
    assert StateOf(n, n.session.outbound, n.session.outboundSequence, e);
    hide StateOf, Carries;
  }

  /** What an arriving frame of this protocol amounts to. */
  lemma Arrived(x: S.Session, s: E.Store, sequence: uint32, b: S.Body, reply: bool, saved: bool)
    requires S.SendableBody(b, reply)
    ensures S.Received(x, s, S.SyncHeader(sequence, reply), S.BodyBytes(b, reply), saved) ==
            if x.status != S.Active then (x, s, false)
            else if sequence == 0 then (x.(status := S.ProtocolError), s, true)
            else if reply then S.ReceiveReply(x, s, sequence, b, saved)
            else S.ReceiveState(x, s, sequence, S.BodyBytes(b, reply), b, saved)
  {
    hide S.ReceiveReply, S.ReceiveState, S.BodyBytes, S.DecodedBody, Frame.DecodeFrame, S.SyncFrame;
    SyncFrameArrives(sequence, b, reply);
    S.BodyImage(b, reply);
  }

  /** An arriving state is stored or refused by the engine, and answered; or it changes no store and no reply. */
  lemma StateEffect(x: S.Session, s: E.Store, sequence: uint32, b: S.Body, saved: bool)
    requires S.SendableBody(b, false)
    ensures var (y, t, _) := S.Received(x, s, S.SyncHeader(sequence, false), S.BodyBytes(b, false), saved);
            var (u, status) := E.AcceptIncoming(s, b.key, b.revision, b.content, saved);
            SameFlight(x, y) &&
            ((t == s && y.reply == x.reply) ||
             (t == u && y.reply == S.SyncFrame(sequence, S.Body(b.key, b.revision, [S.ResultOf(status)]), true)))
  {
    hide E.AcceptIncoming, S.SyncFrame, S.BodyBytes, S.Received, S.SyncHeader;
    Arrived(x, s, sequence, b, false, saved);
  }

  /** A reply reaches the engine only for the value in flight, and only when it accepts. */
  lemma ReplyEffect(x: S.Session, s: E.Store, sequence: uint32, b: S.Body, saved: bool)
    requires S.SendableBody(b, true)
    ensures var (y, t, _) := S.Received(x, s, S.SyncHeader(sequence, true), S.BodyBytes(b, true), saved);
            SameFlight(x, y) && y.reply == x.reply &&
            (t == s ||
             (t == E.Acknowledge(s, b.key, b.revision, saved).0 && x.outbound != [] && b.key == x.outboundKey &&
              b.revision == x.outboundRevision && b.content == [S.ACCEPTED]))
  {
    hide E.Acknowledge, S.SyncFrame, S.BodyBytes, S.Received, S.SyncHeader;
    Arrived(x, s, sequence, b, true, saved);
  }

  lemma AcceptedKeys(s: E.Store, e: Entry, saved: bool)
    requires E.ValidStore(s)
    ensures var t := E.AcceptIncoming(s, e.key, e.revision, e.value, saved).0;
            E.ValidStore(t) &&
            forall k: uint16 :: k != 0 ==>
              Grows(s, t, k) && E.Acknowledged(t, k) == E.Acknowledged(s, k) &&
              (E.Inbox(t, k) == E.Inbox(s, k) || E.Inbox(t, k) == e)
  {
    hide E.AcceptIncoming, E.ValidStore;
    var t := E.AcceptIncoming(s, e.key, e.revision, e.value, saved).0;
    E.AcceptEffect(s, e.key, e.revision, e.value, saved);
    forall k: uint16 | k != 0
      ensures Grows(s, t, k) && E.Acknowledged(t, k) == E.Acknowledged(s, k)
      ensures E.Inbox(t, k) == E.Inbox(s, k) || E.Inbox(t, k) == e
    {
      if k != e.key && t != s {
        assert E.SameKey(s, t, k);
      }
    }
  }

  lemma ArriveState(p: Peer, q: Peer, sequence: uint32, e: Entry, saved: bool)
    requires Linked(p, q) && e in q.sent && |e.value| <= E.VALUE_CAPACITY
    ensures var (x, t, _) :=
              S.Received(p.session, p.store, S.SyncHeader(sequence, false),
                         S.BodyBytes(S.Body(e.key, e.revision, e.value), false), saved);
            Linked(Keep(p, x, t), q)
  {
    hide Own, Wires, Toward, E.AcceptIncoming, E.ValidStore, Held, S.SyncFrame, S.BodyBytes, S.Received, Truthful, Grows;
    var b := S.Body(e.key, e.revision, e.value);
    SentIsSendable(q, e);
    OwnIsValid(p);
    var (x, t, _) := S.Received(p.session, p.store, S.SyncHeader(sequence, false), S.BodyBytes(b, false), saved);
    StateEffect(p.session, p.store, sequence, b, saved);
    AcceptedKeys(p.store, e, saved);
    NothingGrows(p.store);
    if x.reply != p.session.reply {
      ReplyIsTruthful(p, x, t, sequence, b, saved);
    }
    Kept(p, q, x, t);
  }

  lemma NothingGrows(s: E.Store)
    ensures forall k: uint16 :: Grows(s, s, k)
  {
  }

  lemma SentIsSendable(q: Peer, e: Entry)
    requires Own(q) && e in q.sent && |e.value| <= E.VALUE_CAPACITY
    ensures S.SendableBody(S.Body(e.key, e.revision, e.value), false)
  {
  }

  lemma ReplyIsTruthful(p: Peer, x: S.Session, t: E.Store, sequence: uint32, b: S.Body, saved: bool)
    requires E.ValidStore(p.store) && b.key != 0 && b.revision != 0
    requires var r := E.AcceptIncoming(p.store, b.key, b.revision, b.content, saved);
             t == r.0 && x.reply == S.SyncFrame(sequence, S.Body(b.key, b.revision, [S.ResultOf(r.1)]), true)
    ensures Truthful(Keep(p, x, t), x.reply)
  {
    hide E.AcceptIncoming, E.ValidStore, S.SyncFrame;
    E.AcceptEffect(p.store, b.key, b.revision, b.content, saved);
    var r := E.AcceptIncoming(p.store, b.key, b.revision, b.content, saved);
    assert ReplyOf(Keep(p, x, t), x.reply, sequence, b.key, b.revision, S.ResultOf(r.1));
  }

  lemma AcknowledgedKeys(s: E.Store, key: uint16, revision: uint32, saved: bool)
    requires E.ValidStore(s)
    ensures var t := E.Acknowledge(s, key, revision, saved).0;
            E.ValidStore(t) &&
            forall k: uint16 :: k != 0 ==>
              Grows(s, t, k) && E.Inbox(t, k) == E.Inbox(s, k) &&
              (E.Acknowledged(t, k) == E.Acknowledged(s, k) || (k == key && E.Acknowledged(t, k) == revision))
  {
    hide E.Acknowledge, E.ValidStore;
    var t := E.Acknowledge(s, key, revision, saved).0;
    E.AcknowledgeEffect(s, key, revision, saved);
    forall k: uint16 | k != 0
      ensures Grows(s, t, k) && E.Inbox(t, k) == E.Inbox(s, k)
      ensures E.Acknowledged(t, k) == E.Acknowledged(s, k) || (k == key && E.Acknowledged(t, k) == revision)
    {
      if k != key && t != s {
        assert E.SameKey(s, t, k);
      }
    }
  }

  /** An accepting reply for the value in flight finds exactly that revision applied at the other side. */
  lemma InFlightWasApplied(p: Peer, q: Peer, key: uint16, revision: uint32)
    requires Linked(p, q) && key != 0 && 0 < revision <= E.Applied(q.store, key)
    requires p.session.outbound != [] && p.session.outboundKey == key && p.session.outboundRevision == revision
    ensures E.Applied(q.store, key) == revision && HasApplied(q, key, revision)
  {
    hide E.ValidStore, Held, S.SyncFrame, Truthful;
    OwnIsValid(q);
    AppliedIsKept(q, key);
    assert E.Inbox(q.store, key) in p.sent;
  }

  lemma ArriveReply(p: Peer, q: Peer, frame: seq<byte>, sequence: uint32, key: uint16, revision: uint32, result: byte,
                    saved: bool)
    requires Linked(p, q) && ReplyOf(q, frame, sequence, key, revision, result)
    ensures var (x, t, _) :=
              S.Received(p.session, p.store, S.SyncHeader(sequence, true),
                         S.BodyBytes(S.Body(key, revision, [result]), true), saved);
            Linked(Keep(p, x, t), q)
  {
    hide Own, Wires, Toward, E.Acknowledge, E.ValidStore, Held, S.SyncFrame, S.BodyBytes, S.Received, Truthful, Grows,
      HasApplied;
    var b := S.Body(key, revision, [result]);
    OwnIsValid(p);
    var (x, t, _) := S.Received(p.session, p.store, S.SyncHeader(sequence, true), S.BodyBytes(b, true), saved);
    ReplyEffect(p.session, p.store, sequence, b, saved);
    AcknowledgedKeys(p.store, key, revision, saved);
    NothingGrows(p.store);
    if t != p.store {
      assert [result][0] == result;
      InFlightWasApplied(p, q, key, revision);
    }
    Kept(p, q, x, t);
  }

  lemma ArriveStep(p: Peer, q: Peer, frame: seq<byte>, saved: bool)
    requires Linked(p, q) && frame in q.wire
    ensures Linked(Step(p, Arrive(frame, saved)), q)
  {
    hide Own, Toward, S.Received, S.SyncFrame, S.BodyBytes, S.DecodedBody, Frame.DecodeFrame, Keep;
    assert Truthful(q, frame);
    if sequence, e :| StateOf(q, frame, sequence, e) {
      SentIsSendable(q, e);
      SyncFrameArrives(sequence, S.Body(e.key, e.revision, e.value), false);
      ArriveState(p, q, sequence, e, saved);
    } else {
      var sequence, key, revision, result :| ReplyOf(q, frame, sequence, key, revision, result);
      SyncFrameArrives(sequence, S.Body(key, revision, [result]), true);
      ArriveReply(p, q, frame, sequence, key, revision, result, saved);
    }
  }

  /** No event breaks the link, from either side. */
  lemma StepKeepsLink(p: Peer, q: Peer, e: Event)
    requires Linked(p, q) && Enabled(q, e)
    ensures Linked(Step(p, e), q) && Linked(q, Step(p, e))
  {
    hide Own, Wires, Toward, Step;
    match e {
      case PutState(key, revision, value, saved) => PutStep(p, q, key, revision, value, saved);
      case Announce => AnnounceStep(p, q);
      case Open(hello, now, lastSequence, saved) => OpenStep(p, q, hello, now, lastSequence, saved);
      case Arrive(frame, saved) => ArriveStep(p, q, frame, saved);
      case Tick(next, now, allow, sent) => TickStep(p, q, next, now, allow, sent);
      case Close => CloseStep(p, q);
    }
  }

  // --- every run -------------------------------------------------------------------------

  datatype World = World(a: Peer, b: Peer)

  /** An event at the first peer or at the second. */
  datatype Move = Move(first: bool, event: Event)

  ghost function FreshPeer(): Peer {
    Peer(E.EmptyStore(), S.NEW_SESSION, {}, {}, {}, {}, {})
  }

  /** A frame or an announcement that was never made cannot arrive: such a move changes nothing. */
  ghost function Moved(p: Peer, q: Peer, e: Event): Peer {
    if E.ValidStore(p.store) && Enabled(q, e) then Step(p, e) else p
  }

  /** The two peers after any interleaving of events. */
  ghost function After(moves: seq<Move>): World {
    if moves == [] then World(FreshPeer(), FreshPeer())
    else
      var w, m := After(moves[..|moves| - 1]), moves[|moves| - 1];
      if m.first then World(Moved(w.a, w.b, m.event), w.b) else World(w.a, Moved(w.b, w.a, m.event))
  }

  lemma FreshPeersAreLinked()
    ensures Linked(FreshPeer(), FreshPeer())
  {
    E.EmptyStoreIsValid();
  }

  /** Both directions of the link hold in every state of every run. */
  lemma {:induction false} EveryRunKeepsLink(moves: seq<Move>)
    ensures Linked(After(moves).a, After(moves).b) && Linked(After(moves).b, After(moves).a)
  {
    hide Own, Wires, Toward, Step, Enabled, FreshPeer;
    if moves == [] {
      FreshPeersAreLinked();
    } else {
      var front, m := moves[..|moves| - 1], moves[|moves| - 1];
      EveryRunKeepsLink(front);
      var w := After(front);
      if m.first {
        if Enabled(w.b, m.event) {
          StepKeepsLink(w.a, w.b, m.event);
        }
      } else if Enabled(w.a, m.event) {
        StepKeepsLink(w.b, w.a, m.event);
      }
    }
  }

  /** Both directions of a link, read as a statement about the first peer as sender. */
  lemma AcknowledgedIn(p: Peer, q: Peer, key: uint16)
    requires Linked(p, q) && key != 0 && E.Acknowledged(p.store, key) > 0
    ensures E.Acknowledged(p.store, key) <= E.Applied(q.store, key)
    ensures exists e <- p.puts :: e.key == key && e.revision == E.Acknowledged(p.store, key) && e in q.applied
  {
    hide E.ValidStore, InFlight, Held, Wires;
    var r := E.Acknowledged(p.store, key);
    assert HasApplied(q, key, r);
    var e :| e in q.applied && e.key == key && e.revision == r;
    assert e in p.sent && e in p.puts;
  }

  /**
   * The revision of `key` that `p` holds acknowledged is one that `q` applied, with the one value `p` ever put for it,
   * and `q` never applied a value that `p` did not put.
   */
  ghost predicate AcknowledgedByApplying(p: Peer, q: Peer, key: uint16) {
    OneValuePerRevision(p.puts) && q.applied <= p.puts &&
    E.Acknowledged(p.store, key) <= E.Applied(q.store, key) &&
    (E.Acknowledged(p.store, key) > 0 ==>
      exists e <- p.puts :: e.key == key && e.revision == E.Acknowledged(p.store, key) && e in q.applied)
  }

  /** A revision is acknowledged only once the other peer has applied it with the value the sender put. */
  lemma AcknowledgedWasApplied(moves: seq<Move>, key: uint16)
    requires key != 0
    ensures AcknowledgedByApplying(After(moves).a, After(moves).b, key)
    ensures AcknowledgedByApplying(After(moves).b, After(moves).a, key)
  {
    hide Wires, After;
    EveryRunKeepsLink(moves);
    var w := After(moves);
    if E.Acknowledged(w.a.store, key) > 0 {
      AcknowledgedIn(w.a, w.b, key);
    }
    if E.Acknowledged(w.b.store, key) > 0 {
      AcknowledgedIn(w.b, w.a, key);
    }
  }

  /** A put that no later put of its key outdates. */
  ghost predicate Newest(p: Peer, e: Entry) {
    e in p.puts && forall f <- p.puts :: f.key == e.key ==> f.revision <= e.revision
  }

  /** Nothing pending at one peer: the other holds the newest value of each key. */
  lemma DrainedIn(p: Peer, q: Peer, e: Entry)
    requires Linked(p, q) && E.PendingCount(p.store.outbox) == 0 && Newest(p, e)
    ensures E.Inbox(q.store, e.key) == e
  {
    hide Wires, InFlight, S.SyncFrame, E.ValidStore;
    OwnIsValid(p);
    OwnIsValid(q);
    E.NothingPending(p.store, e.key);
    var r := E.Acknowledged(p.store, e.key);
    assert 0 < e.revision <= r;
    assert HasApplied(q, e.key, r);
    var f :| f in q.applied && f.key == e.key && f.revision == r;
    assert f in p.sent && f in p.puts;
    AppliedIsKept(q, e.key);
    assert E.Inbox(q.store, e.key) in p.sent;
  }

  /** A converged peer has nothing left to deliver: the other holds the newest value of every key it ever put. */
  lemma ConvergedHasDelivered(moves: seq<Move>, e: Entry)
    ensures var w := After(moves);
            S.Converged(w.a.session, w.a.store) && Newest(w.a, e) ==> E.Inbox(w.b.store, e.key) == e
    ensures var w := After(moves);
            S.Converged(w.b.session, w.b.store) && Newest(w.b, e) ==> E.Inbox(w.a.store, e.key) == e
  {
    hide Linked, Newest, After, S.Delivered;
    EveryRunKeepsLink(moves);
    var w := After(moves);
    if S.Converged(w.a.session, w.a.store) && Newest(w.a, e) {
      DrainedIn(w.a, w.b, e);
    }
    if S.Converged(w.b.session, w.b.store) && Newest(w.b, e) {
      DrainedIn(w.b, w.a, e);
    }
  }

  // --- opening a session ---------------------------------------------------------------

  lemma CursorsAgree(p: Peer, q: Peer, k: uint16)
    requires Linked(p, q) && k != 0
    ensures E.Acknowledged(p.store, k) <= E.Applied(q.store, k) <= E.Top(p.store, k)
  {
    hide E.ValidStore, InFlight, Wires;
    if E.Acknowledged(p.store, k) > 0 {
      AcknowledgedIn(p, q, k);
    }
    if E.Applied(q.store, k) > 0 {
      AppliedIsKept(q, k);
      assert E.Inbox(q.store, k) in p.sent;
    }
  }

  function CursorFor(s: E.Store, k: uint16): E.SyncCursor {
    E.SyncCursor(k, E.Acknowledged(s, k), E.Applied(s, k), E.Pending(s, k))
  }

  lemma CompatibleStoresScreen(s: E.Store, t: E.Store)
    requires E.ValidStore(s) && E.ValidStore(t)
    requires forall k: uint16 :: k != 0 ==> E.Compatible(CursorFor(s, k), CursorFor(t, k))
    ensures E.ScreenPeer(E.Cursors(s), E.Cursors(t), 0) == E.Ok && E.ScreenLocal(E.Cursors(s), E.Cursors(t), 0) == E.Ok
  {
    hide E.ValidStore, E.Compatible, E.Find, E.ScreenPeer, E.ScreenLocal, E.CursorIn;
    var peer, local := E.Cursors(t), E.Cursors(s);
    E.CursorsTell(s);
    E.CursorsTell(t);
    ListedCursors(t);
    ListedCursors(s);
    E.ScreenPeerExact(local, peer, 0);
    E.ScreenLocalExact(local, peer, 0);
    forall j | 0 <= j < |peer|
      ensures E.GoodAt(local, peer, j)
    {
      assert Listed(peer, j);
      var k := peer[j].key;
      assert E.CursorIn(local, k) == CursorFor(s, k) && E.CursorIn(peer, k) == CursorFor(t, k);
    }
    forall j | 0 <= j < |local|
      ensures E.Compatible(local[j], E.CursorIn(peer, local[j].key))
    {
      assert Listed(local, j);
      var k := local[j].key;
      assert E.CursorIn(local, k) == CursorFor(s, k) && E.CursorIn(peer, k) == CursorFor(t, k);
    }
  }

  /** The cursors a peer holds now are always acceptable to the other; only too many keys can stand in the way. */
  lemma CurrentCursorsReconcile(moves: seq<Move>, saved: bool)
    ensures var s, peer := After(moves).a.store, E.Cursors(After(moves).b.store);
            |peer| <= E.KEY_CAPACITY && C.Announced(C.Announcement(peer)) == Some(peer) &&
            (E.Reconcile(s, peer, saved).1 == E.OutboxFull <==>
             |E.Cursors(s)| + E.NewKeys(s, peer, |peer|) > E.KEY_CAPACITY) &&
            E.Reconcile(s, peer, saved).1 in {E.Ok, E.StoreError, E.OutboxFull}
  {
    hide Linked, E.ValidStore, E.AdoptAll, After, C.Announcement, C.Announced, C.SoundCursors, E.ScreenPeer, E.ScreenLocal;
    EveryRunKeepsLink(moves);
    var w := After(moves);
    LinkedIsValid(w.a, w.b);
    var s, t := w.a.store, w.b.store;
    forall k: uint16 | k != 0
      ensures E.Compatible(CursorFor(s, k), CursorFor(t, k))
    {
      CursorsAgree(w.a, w.b, k);
      CursorsAgree(w.b, w.a, k);
    }
    CompatibleStoresScreen(s, t);
    E.CursorsTell(t);
    ListedCursors(t);
    C.AnnouncementRoundTrip(E.Cursors(t));
  }

  lemma LinkedIsValid(p: Peer, q: Peer)
    requires Linked(p, q)
    ensures E.ValidStore(p.store) && E.ValidStore(q.store)
  {
  }

  ghost predicate Listed(cs: seq<E.SyncCursor>, j: nat)
    requires j < |cs|
  {
    cs[j].key != 0 && E.Find(E.PeerKeys(cs), cs[j].key) == j && E.CursorIn(cs, cs[j].key) == cs[j] &&
    (cs[j].pending == 0 || cs[j].pending > cs[j].acknowledged)
  }

  /** Each listed cursor is the one its key finds, and is sound. */
  lemma ListedCursors(s: E.Store)
    requires E.ValidStore(s)
    ensures C.SoundCursors(E.Cursors(s))
    ensures forall j :: 0 <= j < |E.Cursors(s)| ==> Listed(E.Cursors(s), j)
  {
    hide E.Find;
    var cs := E.Cursors(s);
    E.CursorsTell(s);
    forall j | 0 <= j < |cs|
      ensures Listed(cs, j)
    {
      E.FoundAt(E.PeerKeys(cs), j);
      assert E.Consistent(s, cs[j].key);
    }
    forall j | 0 <= j < |cs|
      ensures C.SoundCursor(cs, j)
    {
      assert Listed(cs, j);
    }
  }
}
