/** Durable values carried one at a time, each acknowledged before the next, with retries and deadlines. */
module SyncSession {
  import opened Bytes
  import opened Wrappers
  import opened Frame
  import opened Tlv
  import SyncEngine

  type Store = SyncEngine.Store
  type SyncCursor = SyncEngine.SyncCursor

  const RETRY_MS: uint32 := 3000
  const PROGRESS_TIMEOUT_MS: uint32 := 15000
  const MAXIMUM_ATTEMPTS: nat := 3
  const NEVER: uint32 := 0xffff_ffff
  const MAXIMUM_SYNC_PAYLOAD: nat := 18 + SyncEngine.VALUE_CAPACITY
  const REPLY_PAYLOAD: nat := 19

  const KEY: uint16 := 1
  const REVISION: uint16 := 2
  const VALUE: uint16 := 3
  const RESULT: uint16 := 4

  const ACCEPTED: byte := 0
  const STORE_ERROR: byte := 1
  const INVALID: byte := 2
  const CAPACITY: byte := 3

  // --- payloads ------------------------------------------------------------------

  /** A state carries its value as content, a reply the one byte of its result. */
  datatype Body = Body(key: uint16, revision: uint32, content: seq<byte>)

  predicate SendableBody(b: Body, reply: bool) {
    b.key != 0 && b.revision != 0 &&
    if reply then |b.content| == 1 && b.content[0] <= CAPACITY else |b.content| <= SyncEngine.VALUE_CAPACITY
  }

  function ContentKind(reply: bool): uint16 { if reply then RESULT else VALUE }

  function BodyFields(b: Body, reply: bool): (fs: seq<Field>)
    ensures |b.content| <= MAXIMUM_VALUE_SIZE ==> AllLegal(fs)
  {
    [Field(KEY, true, Le16(b.key)), Field(REVISION, true, Le32(b.revision)), Field(ContentKind(reply), true, b.content)]
  }

  function StateRule(reply: bool): Rule {
    (f: Field) =>
      if f.kind == KEY && |f.value| == 2 then Take
      else if f.kind == REVISION && |f.value| == 4 then Take
      else if !reply && f.kind == VALUE && |f.value| <= SyncEngine.VALUE_CAPACITY then Take
      else if reply && f.kind == RESULT && |f.value| == 1 && f.value[0] <= CAPACITY then Take
      else if f.required || KEY <= f.kind <= RESULT then Refuse
      else Skip
  }

  function FinishBody(m: map<uint16, seq<byte>>, reply: bool): Option<Body> {
    if KEY in m && REVISION in m && ContentKind(reply) in m && |m[KEY]| == 2 && |m[REVISION]| == 4 &&
       Get16(m[KEY]) != 0 && Get32(m[REVISION]) != 0
    then Some(Body(Get16(m[KEY]), Get32(m[REVISION]), m[ContentKind(reply)]))
    else None
  }

  function DecodedBody(payload: seq<byte>, reply: bool): Option<Body> {
    match Parse(payload)
    case None => None
    case Some(fs) =>
      match Collect(fs, StateRule(reply))
      case None => None
      case Some(m) => FinishBody(m, reply)
  }

  ghost function BodyBytes(b: Body, reply: bool): (p: seq<byte>)
    requires |b.content| <= MAXIMUM_VALUE_SIZE
  {
    ListBytes(BodyFields(b, reply))
  }

  lemma BodyImage(b: Body, reply: bool)
    requires |b.content| <= MAXIMUM_VALUE_SIZE
    ensures BodyBytes(b, reply) ==
            RawField(0x8001, Le16(b.key)) + RawField(0x8002, Le32(b.revision)) +
            RawField(0x8000 + ContentKind(reply), b.content)
    ensures |BodyBytes(b, reply)| == 18 + |b.content|
  {
    hide RawField;
    var fs := BodyFields(b, reply);
    assert fs[1..][1..] == fs[2..] && fs[2..][1..] == [];
    assert ListBytes(fs[2..]) == FieldBytes(fs[2]);
    assert ListBytes(fs[1..]) == FieldBytes(fs[1]) + FieldBytes(fs[2]);
  }

  /** A decoder gives back the body that was encoded, */
  lemma BodyRoundTrip(b: Body, reply: bool)
    requires SendableBody(b, reply)
    ensures DecodedBody(BodyBytes(b, reply), reply) == Some(b)
  {
    hide ListBytes, Parse, Collect, Le16, Le32, Get16, Get32;
    var fs := BodyFields(b, reply);
    ParseInvertsList(fs);
    CollectAll(fs, StateRule(reply));
    assert fs[0].kind == KEY && fs[1].kind == REVISION && fs[2].kind == ContentKind(reply);
    Get16Le16(b.key);
    Get32Le32(b.revision);
  }

  /** and only bodies that could have been sent. */
  lemma DecodedBodiesAreSendable(payload: seq<byte>, reply: bool)
    requires DecodedBody(payload, reply).Some?
    ensures SendableBody(DecodedBody(payload, reply).value, reply)
  {
    hide Parse, Collect;
    var f := TakenFrom(Parse(payload).value, StateRule(reply), ContentKind(reply));
  }

  /** What one more field does to the table. */
  lemma StateTakes(m: map<uint16, seq<byte>>, f: Field, reply: bool)
    ensures var content := if reply then f.kind == RESULT && |f.value| == 1 && f.value[0] <= CAPACITY
                           else f.kind == VALUE && |f.value| <= SyncEngine.VALUE_CAPACITY;
            Absorb(m, f, StateRule(reply)) ==
            if (f.kind == KEY && |f.value| == 2) || (f.kind == REVISION && |f.value| == 4) || content then
              (if f.kind in m then None else Some(m[f.kind := f.value]))
            else if f.required || KEY <= f.kind <= RESULT then None
            else Some(m)
  {
  }

  method DecodeState(payload: seq<byte>, reply: bool) returns (r: Option<Body>)
    ensures r == DecodedBody(payload, reply)
  {
    hide Collect, First, Parse, Midway, Get16, Get32;
    var key: uint16, revision: uint32, content: seq<byte> := 0, 0, [];
    var keySeen, revisionSeen, contentSeen := false, false, false;
    var reader := new TlvReader(payload);
    ghost var rule := StateRule(reply);
    ghost var seen: seq<Field>, m: map<uint16, seq<byte>> := [], map[];
    NothingSeen(payload, rule);
    hide Absorb, StateRule;
    while true
      invariant reader.Valid() && reader.input == payload
      invariant Midway(payload, reader.offset, seen, m, rule)
      invariant keySeen == (KEY in m) && revisionSeen == (REVISION in m) && contentSeen == (ContentKind(reply) in m)
      invariant keySeen ==> |m[KEY]| == 2 && key == Get16(m[KEY])
      invariant revisionSeen ==> |m[REVISION]| == 4 && revision == Get32(m[REVISION])
      invariant contentSeen ==> content == m[ContentKind(reply)]
      decreases |payload| - reader.offset
    {
      ghost var offset := reader.offset;
      var next := reader.Next();
      Tlv.Advance(payload, offset, seen, m, rule);
      if next.Malformed? {
        return None;
      }
      if next.End? {
        break;
      }
      var f := next.field;
      StateTakes(m, f, reply);
      if f.kind == KEY && |f.value| == 2 {
        if keySeen { return None; }
        keySeen, key := true, Get16(f.value);
      } else if f.kind == REVISION && |f.value| == 4 {
        if revisionSeen { return None; }
        revisionSeen, revision := true, Get32(f.value);
      } else if !reply && f.kind == VALUE && |f.value| <= SyncEngine.VALUE_CAPACITY {
        if contentSeen { return None; }
        contentSeen, content := true, f.value;
      } else if reply && f.kind == RESULT && |f.value| == 1 && f.value[0] <= CAPACITY {
        if contentSeen { return None; }
        contentSeen, content := true, f.value;
      } else if f.required || KEY <= f.kind <= RESULT {
        return None;
      }
      seen := seen + [f];
      m := Absorb(m, f, rule).value;
    }
    r := if keySeen && revisionSeen && contentSeen && key != 0 && revision != 0 then Some(Body(key, revision, content))
         else None;
  }

  method EncodePayload(b: Body, reply: bool, output: array<byte>) returns (size: nat)
    modifies output
    ensures size <= output.Length
    ensures if |b.content| <= MAXIMUM_VALUE_SIZE && output.Length >= 18 + |b.content|
            then output[..size] == BodyBytes(b, reply) else size == 0
  {
    hide RawField, ListBytes, Le16, Le32, TlvWriter.Written, TlvWriter.Untouched;
    if |b.content| <= MAXIMUM_VALUE_SIZE {
      BodyImage(b, reply);
    }
    ghost var head := RawField(0x8001, Le16(b.key));
    var writer := new TlvWriter(output);
    assert [] + head == head;
    var status := writer.Add(0x8001, Le16(b.key));
    if status != Ok { return 0; }
    status := writer.AddUInt32(0x8002, b.revision);
    if status != Ok { return 0; }
    status := writer.Add(0x8000 + ContentKind(reply), b.content);
    if status != Ok { return 0; }
    size := writer.Size();
  }

  // --- frames -----------------------------------------------------------------------

  const CONTROL_CLASS: byte := 0
  const DURABLE_CLASS: byte := 1
  const STATE_TYPE: uint16 := 1
  const REPLY_TYPE: uint16 := 3
  const STATE_FLAGS: byte := 5
  const REPLY_FLAGS: byte := 2

  function SyncHeader(sequence: uint32, reply: bool): FrameHeader {
    if reply then FrameHeader(1, 0, CONTROL_CLASS, REPLY_FLAGS, REPLY_TYPE, sequence, sequence)
    else FrameHeader(1, 0, DURABLE_CLASS, STATE_FLAGS, STATE_TYPE, sequence, sequence)
  }

  ghost function SyncFrame(sequence: uint32, b: Body, reply: bool): (f: seq<byte>)
    requires |b.content| <= SyncEngine.VALUE_CAPACITY
    ensures f != []
  {
    BodyImage(b, reply);
    FrameBytes(SyncHeader(sequence, reply), BodyBytes(b, reply))
  }

  // --- the session as a value ----------------------------------------------------------

  datatype SessionStatus = Disconnected | Active | ProtocolError | StoreError | Timeout

  datatype Session = Session(
    status: SessionStatus,
    idle: bool,
    progressPending: bool,
    peer: seq<SyncCursor>,
    outbound: seq<byte>,
    outboundSequence: uint32,
    outboundKey: uint16,
    outboundRevision: uint32,
    retryAt: uint32,
    progressDeadline: uint32,
    attempts: nat,
    reply: seq<byte>,
    afterReply: SessionStatus,
    lastSequence: uint32,
    lastPayload: seq<byte>)

  const NEW_SESSION: Session :=
    Session(Disconnected, false, false, [], [], 0, 0, 0, 0, 0, 0, [], Active, 0, [])

  function Cleared(x: Session): Session {
    x.(status := Disconnected, idle := false, progressPending := false, peer := [], outbound := [], reply := [],
       lastPayload := [], outboundSequence := 0, lastSequence := 0, attempts := 0, afterReply := Active)
  }

  function Started(x: Session, s: Store, peer: seq<SyncCursor>, now: uint32, lastSequence: uint32, saved: bool)
    : (Session, Store, SyncEngine.Status)
  {
    var (t, status) := SyncEngine.Reconcile(s, peer, saved);
    if status != SyncEngine.Ok then (Cleared(x), t, status)
    else
      (Cleared(x).(peer := peer, status := Active, lastSequence := lastSequence,
                      progressDeadline := Plus(now, PROGRESS_TIMEOUT_MS)), t, status)
  }

  predicate IsReply(h: FrameHeader) { h.messageClass == CONTROL_CLASS && h.messageType == REPLY_TYPE }
  predicate IsState(h: FrameHeader) { h.messageClass == DURABLE_CLASS && h.messageType == STATE_TYPE }

  predicate WellFormed(h: FrameHeader, payload: seq<byte>) {
    h.flags == (if IsReply(h) then REPLY_FLAGS else STATE_FLAGS) && h.sequence != 0 && h.requestId == h.sequence &&
    |payload| <= MAXIMUM_SYNC_PAYLOAD && DecodedBody(payload, IsReply(h)).Some?
  }

  ghost function Received(x: Session, s: Store, h: FrameHeader, payload: seq<byte>, saved: bool): (Session, Store, bool) {
    if x.status != Active || !(IsReply(h) || IsState(h)) then (x, s, false)
    else if !WellFormed(h, payload) then (x.(status := ProtocolError), s, true)
    else if IsReply(h) then
      DecodedBodiesAreSendable(payload, true);
      ReceiveReply(x, s, h.sequence, DecodedBody(payload, true).value, saved)
    else ReceiveState(x, s, h.sequence, payload, DecodedBody(payload, false).value, saved)
  }

  /** Only the reply to the value in flight can retire it. */
  function ReceiveReply(x: Session, s: Store, sequence: uint32, b: Body, saved: bool): (Session, Store, bool)
    requires |b.content| == 1
  {
    if x.outbound == [] || x.attempts == 0 || sequence != x.outboundSequence || b.key != x.outboundKey ||
       b.revision != x.outboundRevision then (x, s, true)
    else if b.content[0] != ACCEPTED then
      (x.(status := if b.content[0] == STORE_ERROR then StoreError else ProtocolError), s, true)
    else
      var (t, status) := SyncEngine.Acknowledge(s, b.key, b.revision, saved);
      if status != SyncEngine.Ok && status != SyncEngine.Duplicate then (x.(status := StoreError), t, true)
      else (x.(outbound := [], progressPending := true), t, true)
  }

  function ResultOf(accepted: SyncEngine.Status): (r: byte)
    ensures r <= CAPACITY
  {
    if accepted == SyncEngine.Ok || accepted == SyncEngine.Duplicate then ACCEPTED
    else if accepted == SyncEngine.StoreError then STORE_ERROR
    else if accepted == SyncEngine.OutboxFull then CAPACITY
    else INVALID
  }

  function AfterReply(result: byte): SessionStatus {
    if result == ACCEPTED then Active else if result == STORE_ERROR then StoreError else ProtocolError
  }

  ghost function ReceiveState(x: Session, s: Store, sequence: uint32, payload: seq<byte>, b: Body, saved: bool)
    : (Session, Store, bool)
  {
    if sequence < x.lastSequence || (sequence == x.lastSequence && payload != x.lastPayload) then
      (x.(status := ProtocolError), s, true)
    else if x.reply != [] && sequence != x.lastSequence then (x.(status := ProtocolError), s, true)
    else if x.reply != [] then (x, s, true)
    else StoredState(x, s, sequence, payload, b, saved)
  }

  /** The value goes to the engine, and the reply says what became of it. */
  ghost function StoredState(x: Session, s: Store, sequence: uint32, payload: seq<byte>, b: Body, saved: bool)
    : (Session, Store, bool)
  {
    var (t, accepted) := SyncEngine.AcceptIncoming(s, b.key, b.revision, b.content, saved);
    var result := ResultOf(accepted);
    (x.(progressPending := x.progressPending || accepted == SyncEngine.Ok,
        afterReply := AfterReply(result), lastSequence := sequence, lastPayload := payload,
        reply := SyncFrame(sequence, Body(b.key, b.revision, [result]), true)), t, true)
  }

  predicate Delivered(s: Store, e: SyncCursor) {
    e.pending == 0 || SyncEngine.Inspect(s, e.key, e.pending) == SyncEngine.Duplicate
  }

  predicate Converged(x: Session, s: Store) {
    x.status == Active && x.outbound == [] && x.reply == [] && SyncEngine.PendingCount(s.outbox) == 0 &&
    forall i :: 0 <= i < |x.peer| ==> Delivered(s, x.peer[i])
  }

  /** What a poll leaves behind; `handed` is the frame given to the sender, if any. */
  datatype Polled = Polled(session: Session, next: uint32, admitted: bool, handed: seq<byte>)

  /** `sent` is the answer of the sender, should a frame be given to it. */
  ghost function PolledWith(x: Session, s: Store, next: uint32, now: uint32, allow: bool, sent: bool): Polled
    requires SyncEngine.ValidStore(s)
  {
    if x.status != Active then Polled(x, next, false, [])
    else if Converged(x, s) || (!allow && x.outbound == [] && x.reply == []) then
      Polled(x.(idle := true), next, false, [])
    else Resume(x, s, next, now, sent)
  }

  ghost function Resume(x: Session, s: Store, next: uint32, now: uint32, sent: bool): Polled
    requires SyncEngine.ValidStore(s)
  {
    var y := Progressed(x, now);
    if Remaining(now, y.progressDeadline) == 0 then Polled(y.(status := Timeout), next, false, [])
    else Proceed(y, s, next, now, sent)
  }

  /** A reply goes first, then the value in flight, then a new value. */
  ghost function Proceed(y: Session, s: Store, next: uint32, now: uint32, sent: bool): Polled
    requires SyncEngine.ValidStore(s)
  {
    if y.reply != [] then
      Polled(if sent then y.(reply := [], status := y.afterReply) else y, next, false, y.reply)
    else if y.outbound != [] then SendOutbound(y, next, now, false, sent)
    else Admit(y, s, next, now, sent)
  }

  /** Any progress, and any pause, starts the progress deadline again. */
  function Progressed(x: Session, now: uint32): Session {
    x.(progressDeadline := if x.idle || x.progressPending then Plus(now, PROGRESS_TIMEOUT_MS) else x.progressDeadline,
       idle := false, progressPending := false)
  }

  ghost function Admit(x: Session, s: Store, next: uint32, now: uint32, sent: bool): Polled
    requires SyncEngine.ValidStore(s)
  {
    var i := SyncEngine.FirstPending(s.outbox);
    if i == |s.outbox| then Polled(x, next, false, [])
    else if next == 0 || next == NEVER then Polled(x.(status := ProtocolError), next, false, [])
    else SendOutbound(Admitted(x, s, next, now), Plus(next, 1), now, true, sent)
  }

  ghost function Admitted(x: Session, s: Store, next: uint32, now: uint32): Session
    requires SyncEngine.ValidStore(s) && SyncEngine.FirstPending(s.outbox) < |s.outbox|
  {
    var i := SyncEngine.FirstPending(s.outbox);
    var e := s.outbox[i];
    SyncEngine.PendingIsBounded(s);
    x.(outbound := SyncFrame(next, Body(e.key, e.revision, e.value), false), outboundKey := e.key,
       outboundRevision := e.revision, outboundSequence := next, attempts := 0, retryAt := now,
       progressDeadline := Plus(now, PROGRESS_TIMEOUT_MS))
  }

  function SendOutbound(x: Session, next: uint32, now: uint32, admitted: bool, sent: bool): Polled {
    if Remaining(now, x.retryAt) != 0 then Polled(x, next, admitted, [])
    else if x.attempts == MAXIMUM_ATTEMPTS then Polled(x.(status := Timeout), next, admitted, [])
    else
      Polled(if sent then x.(attempts := x.attempts + 1, retryAt := Plus(now, RETRY_MS)) else x, next, admitted,
             x.outbound)
  }

  function NextWakeMs(x: Session, s: Store, now: uint32, allow: bool): uint32 {
    if x.status != Active || Converged(x, s) then NEVER
    else if !allow && x.outbound == [] && x.reply == [] then NEVER
    else if x.reply != [] || (x.outbound == [] && SyncEngine.PendingCount(s.outbox) != 0) then 20
    else
      var deadline := Remaining(now, x.progressDeadline);
      if x.outbound == [] then deadline
      else
        var retry := Remaining(now, x.retryAt);
        var wait := if retry < 20 then 20 else retry;
        if deadline < wait then deadline else wait
  }

  // --- when the next poll is due -----------------------------------------------------------

  /** No wake-up is announced exactly for a session that no poll, at any time, would send, admit or time out. */
  lemma NeverExactlyWhenNothingToDo(x: Session, s: Store, next: uint32, now: uint32, time: uint32, allow: bool, sent: bool)
    requires SyncEngine.ValidStore(s)
    ensures NextWakeMs(x, s, now, allow) == NEVER <==>
            x.status != Active || Converged(x, s) || (!allow && x.outbound == [] && x.reply == [])
    ensures NextWakeMs(x, s, now, allow) == NEVER ==>
              PolledWith(x, s, next, time, allow, sent) ==
              Polled(if x.status == Active then x.(idle := true) else x, next, false, [])
  {
    hide Converged, Resume;
  }

  /** A reply or a new value waits: the next poll is due at once, and a timely one hands a frame over. */
  predicate Busy(x: Session, s: Store, allow: bool) {
    x.reply != [] || (x.outbound == [] && allow && SyncEngine.PendingCount(s.outbox) != 0)
  }

  /** A poll now is not too late for the progress deadline. */
  predicate Timely(x: Session, now: uint32) {
    x.idle || x.progressPending || Remaining(now, x.progressDeadline) != 0
  }

  lemma BusyIsPolledSoon(x: Session, s: Store, next: uint32, now: uint32, time: uint32, allow: bool, sent: bool)
    requires SyncEngine.ValidStore(s) && x.status == Active && Busy(x, s, allow)
    ensures NextWakeMs(x, s, now, allow) == 20
    ensures Timely(x, time) && next != 0 && next != NEVER ==>
              var r := PolledWith(x, s, next, time, allow, sent);
              r.handed != [] && (r.handed == x.reply || r.admitted)
  {
    RemainingWhole(time, PROGRESS_TIMEOUT_MS);
    RemainingWhole(time, 0);
    assert Plus(time, 0) == time;
    hide SyncFrame, Remaining, Plus, SyncEngine.ValidStore;
  }

  /** Nothing waits, and a retry is not due within twenty milliseconds. */
  predicate Steady(x: Session, s: Store, now: uint32) {
    x.reply == [] &&
    if x.outbound == [] then SyncEngine.PendingCount(s.outbox) == 0 else Remaining(now, x.retryAt) >= 20
  }

  /**
   * Until the announced wake-up, no poll hands over or admits anything, and none times out; at it, the frame in flight
   * is handed over again or the session times out, unless progress has just restarted its deadline.
   */
  lemma QuietUntilWake(x: Session, s: Store, next: uint32, now: uint32, later: uint32, allow: bool, sent: bool)
    requires SyncEngine.ValidStore(s) && x.status == Active && !Converged(x, s) && Steady(x, s, now)
    requires (allow || x.outbound != []) && later <= NextWakeMs(x, s, now, allow)
    ensures var at := Plus(now, later);
            var r := PolledWith(x, s, next, at, allow, sent);
            if later < NextWakeMs(x, s, now, allow) then r == Polled(Progressed(x, at), next, false, [])
            else x.idle || x.progressPending || r.session.status == Timeout || (r.handed == x.outbound && r.handed != [])
  {
    var at := Plus(now, later);
    RemainingLater(now, x.progressDeadline, later);
    if x.outbound != [] {
      RemainingLater(now, x.retryAt, later);
    }
    RemainingWhole(at, PROGRESS_TIMEOUT_MS);
    hide SyncFrame, Remaining, Plus, SyncEngine.ValidStore, Converged;
  }

  /** A retry that is due, or nearly, waits at most twenty milliseconds more. */
  lemma DueRetryIsPolledSoon(x: Session, s: Store, next: uint32, now: uint32, allow: bool, sent: bool)
    requires SyncEngine.ValidStore(s) && x.status == Active && x.reply == [] && x.outbound != []
    requires Remaining(now, x.retryAt) < 20 && Remaining(now, x.progressDeadline) > 20
    requires Minus(Plus(now, 20), x.retryAt) < 0x8000_0000
    ensures NextWakeMs(x, s, now, allow) == 20
    ensures var r := PolledWith(x, s, next, Plus(now, 20), allow, sent);
            r.session.status == Timeout || (r.handed == x.outbound && r.handed != [])
  {
    RemainingLater(now, x.progressDeadline, 20);
    RemainingWhole(Plus(now, 20), PROGRESS_TIMEOUT_MS);
    PastIsOver(Plus(now, 20), x.retryAt);
    hide SyncFrame, Remaining, Plus, Minus, SyncEngine.ValidStore, Converged;
  }

  lemma PastIsOver(now: uint32, deadline: uint32)
    requires Minus(now, deadline) < 0x8000_0000
    ensures Remaining(now, deadline) == 0
  {
    var d := now as int - deadline as int;
    assert (-d) % WORD == if d % WORD == 0 then 0 else WORD - d % WORD;
  }

  // --- the session object ----------------------------------------------------------------

  class SyncSession {
    const engine: SyncEngine.SyncEngine
    var peer: seq<SyncCursor>
    var status: SessionStatus
    var idle: bool
    var progressPending: bool
    const outbound: array<byte>
    var outboundSize: nat
    var outboundSequence: uint32
    var outboundKey: uint16
    var outboundRevision: uint32
    var retryAt: uint32
    var progressDeadline: uint32
    var attempts: nat
    const reply: array<byte>
    var replySize: nat
    var afterReply: SessionStatus
    var lastSequence: uint32
    const lastPayload: array<byte>
    var lastPayloadSize: nat

    ghost predicate Valid()
      reads this, engine, engine.outbox, engine.inbox, engine.cursors
    {
      engine.Valid() &&
      outbound.Length == FRAME_HEADER_SIZE + MAXIMUM_SYNC_PAYLOAD && outboundSize <= outbound.Length &&
      reply.Length == FRAME_HEADER_SIZE + REPLY_PAYLOAD && replySize <= reply.Length &&
      lastPayload.Length == MAXIMUM_SYNC_PAYLOAD && lastPayloadSize <= lastPayload.Length &&
      outbound != reply && outbound != lastPayload && reply != lastPayload
    }

    ghost function View(): Session
      requires outboundSize <= outbound.Length && replySize <= reply.Length && lastPayloadSize <= lastPayload.Length
      reads this, outbound, reply, lastPayload
    {
      Session(status, idle, progressPending, peer, outbound[..outboundSize], outboundSequence, outboundKey,
              outboundRevision, retryAt, progressDeadline, attempts, reply[..replySize], afterReply, lastSequence,
              lastPayload[..lastPayloadSize])
    }

    constructor (engine: SyncEngine.SyncEngine)
      requires engine.Valid()
      ensures Valid() && this.engine == engine && View() == NEW_SESSION
      ensures fresh(outbound) && fresh(reply) && fresh(lastPayload)
    {
      this.engine := engine;
      peer, status, idle, progressPending := [], Disconnected, false, false;
      outbound := new byte[FRAME_HEADER_SIZE + MAXIMUM_SYNC_PAYLOAD](_ => 0);
      reply := new byte[FRAME_HEADER_SIZE + REPLY_PAYLOAD](_ => 0);
      lastPayload := new byte[MAXIMUM_SYNC_PAYLOAD](_ => 0);
      outboundSize, replySize, lastPayloadSize := 0, 0, 0;
      outboundSequence, outboundKey, outboundRevision, retryAt, progressDeadline := 0, 0, 0, 0, 0;
      attempts, afterReply, lastSequence := 0, Active, 0;
    }

    method Start(peer: seq<SyncCursor>, now: uint32, lastIncomingSequence: uint32, saved: bool)
      returns (r: SyncEngine.Status)
      requires Valid()
      modifies this, engine.outbox, engine.cursors
      ensures Valid()
      ensures (View(), engine.View(), r) ==
              Started(old(View()), old(engine.View()), peer, now, lastIncomingSequence, saved)
    {
      hide SyncEngine.SyncEngine.Valid, SyncEngine.SyncEngine.View, View, SyncEngine.Reconcile, Plus;
      Disconnect();
      r := engine.ReconcilePeerCursors(peer, saved);
      if r != SyncEngine.Ok {
        return;
      }
      Activate(peer, now, lastIncomingSequence);
    }

    method Activate(peer: seq<SyncCursor>, now: uint32, lastIncomingSequence: uint32)
      requires Valid()
      modifies this`peer, this`status, this`lastSequence, this`progressDeadline
      ensures Valid()
      ensures View() == old(View()).(peer := peer, status := Active, lastSequence := lastIncomingSequence,
                                     progressDeadline := Plus(now, PROGRESS_TIMEOUT_MS))
    {
      hide SyncEngine.SyncEngine.Valid, Plus;
      this.peer := peer;
      status := Active;
      lastSequence := lastIncomingSequence;
      progressDeadline := Plus(now, PROGRESS_TIMEOUT_MS);
    }

    method Disconnect()
      requires Valid()
      modifies this
      ensures Valid() && View() == Cleared(old(View()))
    {
      hide SyncEngine.SyncEngine.Valid, SyncEngine.SyncEngine.View;
      Clear();
    }

    /** Forgets the connection: what is in flight, the reply, the peer and the sequences. */
    method Clear()
      modifies this`peer, this`status, this`idle, this`progressPending, this`outboundSize, this`outboundSequence,
               this`attempts, this`replySize, this`afterReply, this`lastSequence, this`lastPayloadSize
      ensures status == Disconnected && !idle && !progressPending && peer == []
      ensures outboundSize == replySize == lastPayloadSize == 0
      ensures outboundSequence == 0 && lastSequence == 0 && attempts == 0 && afterReply == Active
    {
      status, idle, progressPending, peer := Disconnected, false, false, [];
      outboundSize, replySize, lastPayloadSize := 0, 0, 0;
      outboundSequence, lastSequence, attempts, afterReply := 0, 0, 0, Active;
    }

    /** True when the frame was one of this protocol. */
    method Receive(h: FrameHeader, payload: seq<byte>, saved: bool) returns (consumed: bool)
      requires Valid()
      modifies this, reply, lastPayload, engine.outbox, engine.inbox, engine.cursors
      ensures Valid()
      ensures (View(), engine.View(), consumed) ==
              Received(old(View()), old(engine.View()), h, payload, saved)
    {
      if status != Active || !(IsReply(h) || IsState(h)) {
        return false;
      }
      var isReply := IsReply(h);
      var body := None;
      if |payload| <= MAXIMUM_SYNC_PAYLOAD {
        body := DecodeState(payload, isReply);
      }
      if h.flags != (if isReply then REPLY_FLAGS else STATE_FLAGS) || h.sequence == 0 || h.requestId != h.sequence ||
         body.None? {
        status := ProtocolError;
        return true;
      }
      DecodedBodiesAreSendable(payload, isReply);
      if isReply {
        AcceptReply(h.sequence, body.value, saved);
      } else {
        AcceptState(h.sequence, payload, body.value, saved);
      }
      consumed := true;
    }

    method AcceptReply(sequence: uint32, b: Body, saved: bool)
      requires Valid() && |b.content| == 1
      modifies this, engine.outbox, engine.cursors
      ensures Valid()
      ensures (View(), engine.View(), true) == ReceiveReply(old(View()), old(engine.View()), sequence, b, saved)
    {
      hide SyncEngine.SyncEngine.Valid, SyncEngine.SyncEngine.View;
      if outboundSize == 0 || attempts == 0 || sequence != outboundSequence || b.key != outboundKey ||
         b.revision != outboundRevision {
        return;
      }
      if b.content[0] != ACCEPTED {
        status := if b.content[0] == STORE_ERROR then StoreError else ProtocolError;
        return;
      }
      var acknowledged := engine.AcknowledgeDurableState(b.key, b.revision, saved);
      if acknowledged != SyncEngine.Ok && acknowledged != SyncEngine.Duplicate {
        status := StoreError;
      } else {
        outboundSize := 0;
        progressPending := true;
      }
    }

    method AcceptState(sequence: uint32, payload: seq<byte>, b: Body, saved: bool)
      requires Valid() && |payload| <= MAXIMUM_SYNC_PAYLOAD
      modifies this, reply, lastPayload, engine.inbox, engine.cursors
      ensures Valid()
      ensures (View(), engine.View(), true) ==
              ReceiveState(old(View()), old(engine.View()), sequence, payload, b, saved)
    {
      hide SyncEngine.SyncEngine.Valid, SyncEngine.SyncEngine.View, StoredState;
      if sequence < lastSequence || (sequence == lastSequence && payload != lastPayload[..lastPayloadSize]) {
        status := ProtocolError;
        return;
      }
      if replySize != 0 && sequence != lastSequence {
        status := ProtocolError;
        return;
      }
      if replySize != 0 {
        return;
      }
      StoreState(sequence, payload, b, saved);
    }

    method StoreState(sequence: uint32, payload: seq<byte>, b: Body, saved: bool)
      requires Valid() && |payload| <= MAXIMUM_SYNC_PAYLOAD
      modifies this, reply, lastPayload, engine.inbox, engine.cursors
      ensures Valid()
      ensures (View(), engine.View(), true) ==
              StoredState(old(View()), old(engine.View()), sequence, payload, b, saved)
    {
      hide SyncEngine.SyncEngine.Valid, SyncEngine.SyncEngine.View, SyncEngine.AcceptIncoming, SyncFrame, ResultOf, AfterReply;
      var accepted := engine.AcceptIncomingState(b.key, b.revision, b.content, saved);
      var result := ResultOf(accepted);
      ghost var before := View();
      Remember(sequence, payload, accepted == SyncEngine.Ok, AfterReply(result));
      var size := WriteFrame(sequence, Body(b.key, b.revision, [result]), true, reply);
      replySize := size;
    }

    method Remember(sequence: uint32, payload: seq<byte>, progress: bool, after: SessionStatus)
      requires |payload| <= lastPayload.Length
      modifies this`progressPending, this`afterReply, this`lastSequence, this`lastPayloadSize, lastPayload
      ensures progressPending == (old(progressPending) || progress) && afterReply == after && lastSequence == sequence
      ensures lastPayloadSize == |payload| && lastPayload[..lastPayloadSize] == payload
    {
      if progress {
        progressPending := true;
      }
      afterReply := after;
      lastSequence := sequence;
      lastPayloadSize := |payload|;
      Put(lastPayload, 0, payload);
      assert lastPayload[..|payload|] == payload;
    }

    /** Encodes a state or a reply into one of the two frame buffers. */
    method WriteFrame(sequence: uint32, b: Body, isReply: bool, buffer: array<byte>) returns (size: nat)
      requires |b.content| <= SyncEngine.VALUE_CAPACITY
      requires buffer.Length >= FRAME_HEADER_SIZE + 18 + |b.content|
      modifies buffer
      ensures size <= buffer.Length && buffer[..size] == SyncFrame(sequence, b, isReply)
    {
      var payload := new byte[18 + |b.content|];
      var n := EncodePayload(b, isReply, payload);
      BodyImage(b, isReply);
      var ok;
      ok, size := EncodeFrame(SyncHeader(sequence, isReply), payload[..n], buffer);
    }

    method Poll(next: uint32, now: uint32, allow: bool, sent: bool)
      returns (admitted: bool, following: uint32, handed: seq<byte>)
      requires Valid()
      modifies this, outbound
      ensures Valid()
      ensures Polled(View(), following, admitted, handed) ==
              PolledWith(old(View()), engine.View(), next, now, allow, sent)
    {
      assert SyncEngine.ValidStore(engine.View());
      hide SyncEngine.SyncEngine.Valid, SyncEngine.SyncEngine.View, SyncEngine.ValidStore, Converged, Resume;
      admitted, following, handed := false, next, [];
      if status != Active {
        return;
      }
      var done := IsConverged();
      if done || (!allow && outboundSize == 0 && replySize == 0) {
        idle := true;
        return;
      }
      admitted, following, handed := Continue(next, now, allow, sent);
    }

    /** Gives up when the progress deadline has passed. */
    method Continue(next: uint32, now: uint32, allow: bool, sent: bool)
      returns (admitted: bool, following: uint32, handed: seq<byte>)
      requires Valid() && (replySize != 0 || outboundSize != 0 || allow)
      modifies this, outbound
      ensures Valid()
      ensures Polled(View(), following, admitted, handed) ==
              Resume(old(View()), engine.View(), next, now, sent)
    {
      assert SyncEngine.ValidStore(engine.View());
      hide SyncEngine.SyncEngine.Valid, SyncEngine.SyncEngine.View, SyncEngine.ValidStore, Remaining, Plus, Proceed;
      admitted, following, handed := false, next, [];
      Progress(now);
      if Remaining(now, progressDeadline) == 0 {
        status := Timeout;
        return;
      }
      admitted, following, handed := Advance(next, now, allow, sent);
    }

    method Advance(next: uint32, now: uint32, allow: bool, sent: bool)
      returns (admitted: bool, following: uint32, handed: seq<byte>)
      requires Valid() && (replySize != 0 || outboundSize != 0 || allow)
      modifies this, outbound
      ensures Valid()
      ensures Polled(View(), following, admitted, handed) ==
              Proceed(old(View()), engine.View(), next, now, sent)
    {
      hide SyncEngine.SyncEngine.View, SyncFrame, Remaining, Plus, SendOutbound, Admitted;
      admitted, following, handed := false, next, [];
      ghost var x := View();
      if replySize != 0 {
        handed := reply[..replySize];
        if sent {
          replySize := 0;
          status := afterReply;
        }
        return;
      }
      if outboundSize == 0 && allow {
        admitted, following := AdmitNext(next, now);
        if !admitted {
          return;
        }
      }
      ghost var y := View();
      handed := TrySend(now, sent);
      assert Polled(View(), following, admitted, handed) == SendOutbound(y, following, now, admitted, sent);
    }

    /** Puts the first pending value in flight, when there is one and a sequence for it. */
    method AdmitNext(next: uint32, now: uint32) returns (admitted: bool, following: uint32)
      requires Valid()
      modifies this, outbound
      ensures Valid()
      ensures admitted <==> SyncEngine.FirstPending(engine.View().outbox) < |engine.View().outbox| &&
                            next != 0 && next != NEVER
      ensures admitted ==> outboundSize != 0
      ensures admitted ==> View() == Admitted(old(View()), engine.View(), next, now) && following == Plus(next, 1)
      ensures !admitted ==>
        following == next &&
        View() == if SyncEngine.FirstPending(engine.View().outbox) < |engine.View().outbox|
                  then old(View()).(status := ProtocolError) else old(View())
    {
      hide SyncEngine.SyncEngine.View, SyncEngine.ValidStore, SyncFrame, Plus;
      admitted, following := false, next;
      var found, state := engine.NextDurableState();
      if found != SyncEngine.Ok {
        return;
      }
      if next == 0 || next == NEVER {
        status := ProtocolError;
        return;
      }
      following := Plus(next, 1);
      Load(next, state, now);
      admitted := true;
    }

    /** Gives the frame in flight to the sender when its retry is due, three times at most. */
    method TrySend(now: uint32, sent: bool) returns (handed: seq<byte>)
      requires Valid()
      modifies this`status, this`attempts, this`retryAt
      ensures Valid()
      ensures forall next, admitted ::
        Polled(View(), next, admitted, handed) == SendOutbound(old(View()), next, now, admitted, sent)
    {
      hide SyncEngine.SyncEngine.Valid, SyncEngine.SyncEngine.View, Remaining, Plus;
      handed := [];
      if Remaining(now, retryAt) != 0 {
        return;
      }
      if attempts == MAXIMUM_ATTEMPTS {
        status := Timeout;
        return;
      }
      handed := outbound[..outboundSize];
      if sent {
        attempts := attempts + 1;
        retryAt := Plus(now, RETRY_MS);
      }
    }

    method Progress(now: uint32)
      modifies this`progressDeadline, this`idle, this`progressPending
      ensures progressDeadline ==
              if old(idle || progressPending) then Plus(now, PROGRESS_TIMEOUT_MS) else old(progressDeadline)
      ensures !idle && !progressPending
    {
      if idle || progressPending {
        progressDeadline := Plus(now, PROGRESS_TIMEOUT_MS);
      }
      idle, progressPending := false, false;
    }

    /** Puts a pending value in flight under a sequence of its own. */
    method Load(next: uint32, state: SyncEngine.Entry, now: uint32)
      requires |state.value| <= SyncEngine.VALUE_CAPACITY
      requires outbound.Length == FRAME_HEADER_SIZE + MAXIMUM_SYNC_PAYLOAD
      modifies outbound, this`outboundSize, this`outboundKey, this`outboundRevision, this`outboundSequence,
               this`attempts, this`retryAt, this`progressDeadline
      ensures outboundSize <= outbound.Length
      ensures outbound[..outboundSize] == SyncFrame(next, Body(state.key, state.revision, state.value), false)
      ensures outboundKey == state.key && outboundRevision == state.revision && outboundSequence == next
      ensures attempts == 0 && retryAt == now && progressDeadline == Plus(now, PROGRESS_TIMEOUT_MS)
    {
      hide SyncFrame, Plus;
      var size := WriteFrame(next, Body(state.key, state.revision, state.value), false, outbound);
      outboundSize := size;
      outboundKey, outboundRevision, outboundSequence := state.key, state.revision, next;
      attempts := 0;
      retryAt := now;
      progressDeadline := Plus(now, PROGRESS_TIMEOUT_MS);
    }

    method IsConverged() returns (yes: bool)
      requires Valid()
      ensures yes == Converged(View(), engine.View())
    {
      var pending := engine.PendingDurableCount();
      if status != Active || outboundSize != 0 || replySize != 0 || pending != 0 {
        return false;
      }
      for i := 0 to |peer|
        invariant forall j :: 0 <= j < i ==> Delivered(engine.View(), peer[j])
      {
        if peer[i].pending != 0 {
          var inspection := engine.InspectIncomingState(peer[i].key, peer[i].pending);
          if inspection != SyncEngine.Duplicate {
            return false;
          }
        }
      }
      yes := true;
    }

    method NextWake(now: uint32, allow: bool) returns (wake: uint32)
      requires Valid()
      ensures wake == NextWakeMs(View(), engine.View(), now, allow)
    {
      var done := IsConverged();
      if status != Active || done {
        return NEVER;
      }
      if !allow && outboundSize == 0 && replySize == 0 {
        return NEVER;
      }
      var pending := engine.PendingDurableCount();
      if replySize != 0 || (outboundSize == 0 && pending != 0) {
        return 20;
      }
      var deadline := Remaining(now, progressDeadline);
      if outboundSize == 0 {
        return deadline;
      }
      var retry := Remaining(now, retryAt);
      var wait := if retry < 20 then 20 else retry;
      wake := if deadline < wait then deadline else wait;
    }
  }
}
