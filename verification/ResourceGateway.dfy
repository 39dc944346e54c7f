/** Resource requests and responses as lists of fields. */
module ResourceGateway {
  import opened Bytes
  import opened Wrappers
  import opened Frame
  import opened Tlv

  const MAXIMUM_BODY_SIZE: nat := 2048
  const MINIMUM_TIMEOUT_MS: uint32 := 1000
  const MAXIMUM_TIMEOUT_MS: uint32 := 15000
  const SUCCESS: byte := 0
  const LAST_STATUS: byte := 8
  const NO_CONTENT: byte := 0
  const LAST_CONTENT_TYPE: byte := 1

  datatype Request = Request(capability: uint16, maximumBytes: uint16, timeoutMs: uint32, cacheMaxAgeSeconds: uint32,
                             durable: bool)

  datatype Response = Response(status: byte, contentType: byte, body: seq<byte>, retryAfterMs: uint32)

  type Table = map<uint16, seq<byte>>

  // --- requests ---------------------------------------------------------------

  predicate ValidRequest(r: Request) {
    0 < r.maximumBytes as nat <= MAXIMUM_BODY_SIZE && MINIMUM_TIMEOUT_MS <= r.timeoutMs <= MAXIMUM_TIMEOUT_MS
  }

  function RequestFields(r: Request): (fs: seq<Field>)
    ensures AllLegal(fs)
  {
    [Field(1, true, Le16(r.capability)), Field(2, true, Le16(r.maximumBytes)), Field(3, true, Le32(r.timeoutMs)),
     Field(4, false, Le32(r.cacheMaxAgeSeconds)), Field(5, true, [if r.durable then 1 else 0])]
  }

  function RequestRule(f: Field): Verdict {
    if f.kind == 1 || f.kind == 2 then (if |f.value| == 2 then Take else Refuse)
    else if f.kind == 3 || f.kind == 4 then (if |f.value| == 4 then Take else Refuse)
    else if f.kind == 5 then (if |f.value| == 1 && f.value[0] <= 1 then Take else Refuse)
    else if f.required then Refuse
    else Skip
  }

  function Short(m: Table, kind: uint16, otherwise: uint16): uint16 {
    if kind in m && |m[kind]| == 2 then Get16(m[kind]) else otherwise
  }

  function Long(m: Table, kind: uint16, otherwise: uint32): uint32 {
    if kind in m && |m[kind]| == 4 then Get32(m[kind]) else otherwise
  }

  function Single(m: Table, kind: uint16, otherwise: byte): byte {
    if kind in m && |m[kind]| == 1 then m[kind][0] else otherwise
  }

  /** The request a table stands for, with the defaults of a fresh request message. */
  function RequestFrom(m: Table): Request {
    Request(Short(m, 1, 1), Short(m, 2, MAXIMUM_BODY_SIZE as uint16), Long(m, 3, 10000), Long(m, 4, 0),
            Single(m, 5, 1) != 0)
  }

  function FinishRequest(m: Table): Option<Request> {
    if 1 in m && 2 in m && 3 in m && 5 in m && ValidRequest(RequestFrom(m)) then Some(RequestFrom(m)) else None
  }

  function DecodedRequest(payload: seq<byte>): Option<Request> {
    match Parse(payload)
    case None => None
    case Some(fs) =>
      match Collect(fs, RequestRule)
      case None => None
      case Some(m) => FinishRequest(m)
  }

  method EncodeResourceRequestPayload(r: Request, output: array<byte>) returns (status: ProtocolStatus, size: nat)
    modifies output
    ensures status == (if !ValidRequest(r) then InvalidArgument
                       else if output.Length < |ListBytes(RequestFields(r))| then BufferTooSmall
                       else Ok)
    ensures status == Ok ==> size <= output.Length && output[..size] == ListBytes(RequestFields(r))
    ensures status != Ok ==> size == 0
  {
    hide RawField, ListBytes, RequestFields, Le16, Le32, TlvWriter.Written, TlvWriter.Untouched;
    size := 0;
    if !ValidRequest(r) {
      return InvalidArgument, 0;
    }
    RequestImage(r);
    ghost var a, b := RawField(0x8001, Le16(r.capability)), RawField(0x8002, Le16(r.maximumBytes));
    ghost var c := RawField(0x8003, Le32(r.timeoutMs));
    ghost var d, e := RawField(4, Le32(r.cacheMaxAgeSeconds)), RawField(0x8005, [if r.durable then 1 else 0]);
    var writer := new TlvWriter(output);
    assert [] + a == a;
    status := writer.Add(0x8001, Le16(r.capability));
    if status != Ok { return; }
    status := writer.Add(0x8002, Le16(r.maximumBytes));
    if status != Ok { return; }
    status := writer.AddUInt32(0x8003, r.timeoutMs);
    if status != Ok { return; }
    status := writer.AddUInt32(4, r.cacheMaxAgeSeconds);
    if status != Ok { return; }
    status := writer.Add(0x8005, [if r.durable then 1 else 0]);
    if status != Ok { return; }
    assert writer.Written() == a + b + c + d + e;
    size := writer.Size();
  }

  lemma RequestImage(r: Request)
    ensures ListBytes(RequestFields(r)) ==
            RawField(0x8001, Le16(r.capability)) + RawField(0x8002, Le16(r.maximumBytes)) +
            RawField(0x8003, Le32(r.timeoutMs)) + RawField(4, Le32(r.cacheMaxAgeSeconds)) +
            RawField(0x8005, [if r.durable then 1 else 0])
    ensures |ListBytes(RequestFields(r))| == 33
  {
    hide RawField;
    var fs := RequestFields(r);
    assert fs[1..][1..] == fs[2..] && fs[2..][1..] == fs[3..] && fs[3..][1..] == fs[4..] && fs[4..][1..] == [];
    assert ListBytes(fs[4..]) == FieldBytes(fs[4]);
    assert ListBytes(fs[3..]) == FieldBytes(fs[3]) + FieldBytes(fs[4]);
    assert ListBytes(fs[2..]) == FieldBytes(fs[2]) + (FieldBytes(fs[3]) + FieldBytes(fs[4]));
  }

  /** Taking one more field sets exactly the member that field carries. */
  lemma RequestTakes(m: Table, f: Field)
    ensures Absorb(m, f, RequestRule).None? <==>
            RequestRule(f) == Refuse || (RequestRule(f) == Take && f.kind in m)
    ensures Absorb(m, f, RequestRule).Some? ==>
              var t := Absorb(m, f, RequestRule).value;
              (forall k :: k in t <==> k in m || (k == f.kind && RequestRule(f) == Take)) &&
              RequestFrom(t) == var r := RequestFrom(m);
                   if RequestRule(f) == Skip then r
                   else if f.kind == 1 then r.(capability := Get16(f.value))
                   else if f.kind == 2 then r.(maximumBytes := Get16(f.value))
                   else if f.kind == 3 then r.(timeoutMs := Get32(f.value))
                   else if f.kind == 4 then r.(cacheMaxAgeSeconds := Get32(f.value))
                   else r.(durable := f.value[0] != 0)
  {
  }

  /** One more field decides the request, or is taken into the table. */
  lemma RequestAdvance(payload: seq<byte>, offset: nat, seen: seq<Field>, m: Table)
    requires Midway(payload, offset, seen, m, RequestRule)
    ensures var next := First(payload[offset..]);
            match next
            case Malformed => DecodedRequest(payload).None?
            case End => DecodedRequest(payload) == FinishRequest(m)
            case Present(f, n) =>
              if Absorb(m, f, RequestRule).None? then DecodedRequest(payload).None?
              else Midway(payload, offset + n, seen + [f], Absorb(m, f, RequestRule).value, RequestRule)
  {
    hide Collect, First, Parse, Midway, Absorb, FinishRequest;
    Advance(payload, offset, seen, m, RequestRule);
  }

  method DecodeResourceRequestPayload(payload: seq<byte>) returns (status: ProtocolStatus, request: Request)
    ensures status == if DecodedRequest(payload).Some? then Ok else MalformedTlv
    ensures status == Ok ==> DecodedRequest(payload) == Some(request)
  {
    request := RequestFrom(map[]);
    hide DecodedRequest, First, Midway, Get16, Get32, RequestFrom, ValidRequest, Absorb;
    var capabilitySeen, maximumSeen, timeoutSeen, cacheSeen, durableSeen := false, false, false, false, false;
    var reader := new TlvReader(payload);
    ghost var seen: seq<Field> := [];
    ghost var m: Table := map[];
    NothingSeen(payload, RequestRule);
    while true
      invariant reader.Valid() && reader.input == payload
      invariant Midway(payload, reader.offset, seen, m, RequestRule)
      invariant capabilitySeen == (1 in m) && maximumSeen == (2 in m) && timeoutSeen == (3 in m)
      invariant cacheSeen == (4 in m) && durableSeen == (5 in m)
      invariant request == RequestFrom(m)
      decreases |payload| - reader.offset
    {
      ghost var offset := reader.offset;
      var next := reader.Next();
      RequestAdvance(payload, offset, seen, m);
      if next.Malformed? {
        return MalformedTlv, request;
      }
      if next.End? {
        break;
      }
      var field := next.field;
      RequestTakes(m, field);
      if field.kind == 1 {
        if capabilitySeen || |field.value| != 2 { return MalformedTlv, request; }
        capabilitySeen := true;
        request := request.(capability := Get16(field.value));
      } else if field.kind == 2 {
        if maximumSeen || |field.value| != 2 { return MalformedTlv, request; }
        maximumSeen := true;
        request := request.(maximumBytes := Get16(field.value));
      } else if field.kind == 3 {
        if timeoutSeen || |field.value| != 4 { return MalformedTlv, request; }
        timeoutSeen := true;
        request := request.(timeoutMs := Get32(field.value));
      } else if field.kind == 4 {
        if cacheSeen || |field.value| != 4 { return MalformedTlv, request; }
        cacheSeen := true;
        request := request.(cacheMaxAgeSeconds := Get32(field.value));
      } else if field.kind == 5 {
        if durableSeen || |field.value| != 1 || field.value[0] > 1 { return MalformedTlv, request; }
        durableSeen := true;
        request := request.(durable := field.value[0] != 0);
      } else if field.required {
        return MalformedTlv, request;
      }
      seen := seen + [field];
      m := Absorb(m, field, RequestRule).value;
    }
    if !capabilitySeen || !maximumSeen || !timeoutSeen || !durableSeen || !ValidRequest(request) {
      return MalformedTlv, request;
    }
    status := Ok;
  }

  // --- responses --------------------------------------------------------------

  predicate ValidResponse(r: Response) {
    r.status <= LAST_STATUS && r.contentType <= LAST_CONTENT_TYPE && |r.body| <= MAXIMUM_BODY_SIZE &&
    if r.status == SUCCESS then r.contentType != NO_CONTENT && r.body != [] else r.contentType == NO_CONTENT && r.body == []
  }

  function ResponseFields(r: Response): (fs: seq<Field>)
    requires ValidResponse(r)
    ensures AllLegal(fs)
  {
    [Field(1, true, [r.status])] +
    (if r.status == SUCCESS then [Field(2, true, [r.contentType]), Field(3, true, r.body)] else []) +
    (if r.retryAfterMs != 0 then [Field(4, false, Le32(r.retryAfterMs))] else [])
  }

  function ResponseRule(f: Field): Verdict {
    if f.kind == 1 then (if |f.value| == 1 && f.value[0] <= LAST_STATUS then Take else Refuse)
    else if f.kind == 2 then (if |f.value| == 1 && f.value[0] <= LAST_CONTENT_TYPE then Take else Refuse)
    else if f.kind == 3 then (if 0 < |f.value| <= MAXIMUM_BODY_SIZE then Take else Refuse)
    else if f.kind == 4 then (if |f.value| == 4 then Take else Refuse)
    else if f.required then Refuse
    else Skip
  }

  function ResponseFrom(m: Table): Response {
    Response(Single(m, 1, 6), Single(m, 2, NO_CONTENT), if 3 in m then m[3] else [], Long(m, 4, 0))
  }

  function FinishResponse(m: Table): Option<Response> {
    var r := ResponseFrom(m);
    if 1 !in m then None
    else if r.status == SUCCESS && (2 !in m || 3 !in m || r.contentType == NO_CONTENT) then None
    else if r.status != SUCCESS && (2 in m || 3 in m) then None
    else Some(r)
  }

  function DecodedResponse(payload: seq<byte>): Option<Response> {
    match Parse(payload)
    case None => None
    case Some(fs) =>
      match Collect(fs, ResponseRule)
      case None => None
      case Some(m) => FinishResponse(m)
  }

  method EncodeResourceResponsePayload(r: Response, output: array<byte>) returns (status: ProtocolStatus, size: nat)
    requires r.status <= LAST_STATUS && r.contentType <= LAST_CONTENT_TYPE
    modifies output
    ensures status == (if !ValidResponse(r) then InvalidArgument
                       else if output.Length < |ListBytes(ResponseFields(r))| then BufferTooSmall
                       else Ok)
    ensures status == Ok ==> size <= output.Length && output[..size] == ListBytes(ResponseFields(r))
    ensures status != Ok ==> size == 0
  {
    hide RawField, ListBytes, ResponseFields, Le16, Le32, TlvWriter.Written, TlvWriter.Untouched;
    size := 0;
    if |r.body| > MAXIMUM_BODY_SIZE {
      return InvalidArgument, 0;
    }
    var success := r.status == SUCCESS;
    if (success && (r.contentType == NO_CONTENT || |r.body| == 0)) ||
       (!success && (r.contentType != NO_CONTENT || |r.body| != 0)) {
      return InvalidArgument, 0;
    }
    ResponseImage(r);
    ghost var head := RawField(0x8001, [r.status]);
    ghost var front := if success then head + RawField(0x8002, [r.contentType]) + RawField(0x8003, r.body) else head;
    var writer := new TlvWriter(output);
    assert [] + head == head;
    status := writer.Add(0x8001, [r.status]);
    if status != Ok { return; }
    if success {
      status := writer.Add(0x8002, [r.contentType]);
      if status != Ok { return; }
      status := writer.Add(0x8003, r.body);
      if status != Ok { return; }
    }
    assert writer.Written() == front;
    if r.retryAfterMs != 0 {
      status := writer.AddUInt32(4, r.retryAfterMs);
      if status != Ok { return; }
    }
    assert writer.Written() == if r.retryAfterMs != 0 then front + RawField(4, Le32(r.retryAfterMs)) else front;
    size := writer.Size();
  }

  lemma ResponseImage(r: Response)
    requires ValidResponse(r)
    ensures var head := RawField(0x8001, [r.status]);
            var front := if r.status == SUCCESS then
                           head + RawField(0x8002, [r.contentType]) + RawField(0x8003, r.body)
                         else head;
            ListBytes(ResponseFields(r)) ==
            if r.retryAfterMs != 0 then front + RawField(4, Le32(r.retryAfterMs)) else front
  {
    hide RawField;
    var head := [Field(1, true, [r.status])];
    assert head[1..] == [];
    assert ListBytes(head) == RawField(0x8001, [r.status]);
    var middle := head;
    if r.status == SUCCESS {
      ListPush(head, Field(2, true, [r.contentType]));
      middle := head + [Field(2, true, [r.contentType])];
      ListPush(middle, Field(3, true, r.body));
      middle := middle + [Field(3, true, r.body)];
    }
    if r.retryAfterMs != 0 {
      ListPush(middle, Field(4, false, Le32(r.retryAfterMs)));
      assert ResponseFields(r) == middle + [Field(4, false, Le32(r.retryAfterMs))];
    } else {
      assert ResponseFields(r) == middle;
    }
  }

  /** One more field decides the response, or is taken into the table. */
  lemma ResponseAdvance(payload: seq<byte>, offset: nat, seen: seq<Field>, m: Table)
    requires Midway(payload, offset, seen, m, ResponseRule)
    ensures var next := First(payload[offset..]);
            match next
            case Malformed => DecodedResponse(payload).None?
            case End => DecodedResponse(payload) == FinishResponse(m)
            case Present(f, n) =>
              if Absorb(m, f, ResponseRule).None? then DecodedResponse(payload).None?
              else Midway(payload, offset + n, seen + [f], Absorb(m, f, ResponseRule).value, ResponseRule)
  {
    hide Collect, First, Parse, Midway, Absorb, FinishResponse;
    Advance(payload, offset, seen, m, ResponseRule);
  }

  /** Taking one more field sets exactly the member that field carries. */
  lemma ResponseTakes(m: Table, f: Field)
    ensures Absorb(m, f, ResponseRule).None? <==>
            ResponseRule(f) == Refuse || (ResponseRule(f) == Take && f.kind in m)
    ensures Absorb(m, f, ResponseRule).Some? ==>
              var t := Absorb(m, f, ResponseRule).value;
              (forall k :: k in t <==> k in m || (k == f.kind && ResponseRule(f) == Take)) &&
              ResponseFrom(t) == var r := ResponseFrom(m);
                   if ResponseRule(f) == Skip then r
                   else if f.kind == 1 then r.(status := f.value[0])
                   else if f.kind == 2 then r.(contentType := f.value[0])
                   else if f.kind == 3 then r.(body := f.value)
                   else r.(retryAfterMs := Get32(f.value))
  {
  }

  method DecodeResourceResponsePayload(payload: seq<byte>) returns (status: ProtocolStatus, response: Response)
    ensures status == if DecodedResponse(payload).Some? then Ok else MalformedTlv
    ensures status == Ok ==> DecodedResponse(payload) == Some(response)
  {
    response := ResponseFrom(map[]);
    hide DecodedResponse, First, Midway, Get32, ResponseFrom, Absorb;
    var statusSeen, contentSeen, bodySeen, retrySeen := false, false, false, false;
    var reader := new TlvReader(payload);
    ghost var seen: seq<Field> := [];
    ghost var m: Table := map[];
    NothingSeen(payload, ResponseRule);
    while true
      invariant reader.Valid() && reader.input == payload
      invariant Midway(payload, reader.offset, seen, m, ResponseRule)
      invariant statusSeen == (1 in m) && contentSeen == (2 in m) && bodySeen == (3 in m) && retrySeen == (4 in m)
      invariant response == ResponseFrom(m)
      decreases |payload| - reader.offset
    {
      ghost var offset := reader.offset;
      var next := reader.Next();
      ResponseAdvance(payload, offset, seen, m);
      if next.Malformed? {
        return MalformedTlv, response;
      }
      if next.End? {
        break;
      }
      var field := next.field;
      ResponseTakes(m, field);
      if field.kind == 1 {
        if statusSeen || |field.value| != 1 || field.value[0] > LAST_STATUS { return MalformedTlv, response; }
        statusSeen := true;
        response := response.(status := field.value[0]);
      } else if field.kind == 2 {
        if contentSeen || |field.value| != 1 || field.value[0] > LAST_CONTENT_TYPE { return MalformedTlv, response; }
        contentSeen := true;
        response := response.(contentType := field.value[0]);
      } else if field.kind == 3 {
        if bodySeen || |field.value| == 0 || |field.value| > MAXIMUM_BODY_SIZE { return MalformedTlv, response; }
        bodySeen := true;
        response := response.(body := field.value);
      } else if field.kind == 4 {
        if retrySeen || |field.value| != 4 { return MalformedTlv, response; }
        retrySeen := true;
        response := response.(retryAfterMs := Get32(field.value));
      } else if field.required {
        return MalformedTlv, response;
      }
      seen := seen + [field];
      m := Absorb(m, field, ResponseRule).value;
    }
    if !statusSeen {
      return MalformedTlv, response;
    }
    var success := response.status == SUCCESS;
    if (success && (!contentSeen || !bodySeen || response.contentType == NO_CONTENT)) ||
       (!success && (contentSeen || bodySeen)) {
      return MalformedTlv, response;
    }
    status := Ok;
  }

  // --- round trips and independence of order ----------------------------------

  lemma RequestFieldsAreTaken(r: Request)
    ensures var fs := RequestFields(r);
            |fs| == 5 && (forall i :: 0 <= i < 5 ==> fs[i].kind as int == i + 1 && RequestRule(fs[i]) == Take)
  {
  }

  lemma RequestFromTable(r: Request, m: Table)
    requires 1 in m && 2 in m && 3 in m && 4 in m && 5 in m
    requires m[1] == Le16(r.capability) && m[2] == Le16(r.maximumBytes) && m[3] == Le32(r.timeoutMs)
    requires m[4] == Le32(r.cacheMaxAgeSeconds) && m[5] == [if r.durable then 1 else 0]
    ensures RequestFrom(m) == r
  {
    hide Le16, Le32, Get16, Get32;
    Get16Le16(r.capability);
    Get16Le16(r.maximumBytes);
    Get32Le32(r.timeoutMs);
    Get32Le32(r.cacheMaxAgeSeconds);
  }

  lemma RequestRoundTrip(r: Request)
    requires ValidRequest(r)
    ensures DecodedRequest(ListBytes(RequestFields(r))) == Some(r)
  {
    hide ListBytes, Parse, Collect, Le16, Le32, RequestRule, RequestFrom;
    var fs := RequestFields(r);
    ParseInvertsList(fs);
    RequestFieldsAreTaken(r);
    CollectAll(fs, RequestRule);
    assert fs[0].kind == 1 && fs[1].kind == 2 && fs[2].kind == 3 && fs[3].kind == 4 && fs[4].kind == 5;
    RequestFromTable(r, Collect(fs, RequestRule).value);
  }

  lemma ResponseRoundTrip(r: Response)
    requires ValidResponse(r)
    ensures DecodedResponse(ListBytes(ResponseFields(r))) == Some(r)
  {
    hide ListBytes, Parse, Collect, Le32, Get32;
    var fs := ResponseFields(r);
    ParseInvertsList(fs);
    CollectAll(fs, ResponseRule);
    Get32Le32(r.retryAfterMs);
    assert fs[0].kind == 1;
    assert r.status == SUCCESS ==> fs[1].kind == 2 && fs[2].kind == 3;
    assert r.retryAfterMs != 0 ==> fs[|fs| - 1].kind == 4;
  }

  /** Only requests that can be encoded are ever decoded. */
  lemma DecodedRequestsAreValid(payload: seq<byte>)
    requires DecodedRequest(payload).Some?
    ensures ValidRequest(DecodedRequest(payload).value)
    ensures DecodedRequest(ListBytes(RequestFields(DecodedRequest(payload).value))) == DecodedRequest(payload)
  {
    RequestRoundTrip(DecodedRequest(payload).value);
  }

  lemma DecodedResponsesAreValid(payload: seq<byte>)
    requires DecodedResponse(payload).Some?
    ensures ValidResponse(DecodedResponse(payload).value)
    ensures DecodedResponse(ListBytes(ResponseFields(DecodedResponse(payload).value))) == DecodedResponse(payload)
  {
    hide Parse, Collect, ListBytes;
    var fs := Parse(payload).value;
    var m := Collect(fs, ResponseRule).value;
    var one := TakenFrom(fs, ResponseRule, 1);
    if 2 in m {
      var two := TakenFrom(fs, ResponseRule, 2);
    }
    if 3 in m {
      var three := TakenFrom(fs, ResponseRule, 3);
    }
    ResponseRoundTrip(DecodedResponse(payload).value);
  }

  // --- what is accepted, in terms of the fields alone ---------------------------

  ghost predicate Has(fs: multiset<Field>, kind: uint16, value: seq<byte>) {
    Field(kind, true, value) in fs || Field(kind, false, value) in fs
  }

  ghost predicate Lacks(fs: multiset<Field>, kind: uint16) {
    forall f <- fs :: f.kind != kind
  }

  /** No two fields are of the same known kind. */
  ghost predicate Distinct(fs: multiset<Field>, last: uint16) {
    (forall f <- fs :: 1 <= f.kind <= last ==> fs[f] == 1) &&
    (forall f <- fs, g <- fs :: 1 <= f.kind <= last && f.kind == g.kind ==> f == g)
  }

  ghost predicate FitsRequest(f: Field) {
    match f.kind
    case 1 => |f.value| == 2
    case 2 => |f.value| == 2
    case 3 => |f.value| == 4
    case 4 => |f.value| == 4
    case 5 => f.value == [0] || f.value == [1]
    case _ => !f.required
  }

  ghost predicate FitsResponse(f: Field) {
    match f.kind
    case 1 => |f.value| == 1 && f.value[0] <= 8
    case 2 => f.value == [0] || f.value == [1]
    case 3 => 1 <= |f.value| <= 2048
    case 4 => |f.value| == 4
    case _ => !f.required
  }

  /** The fields say exactly this request: all but the age once, in bounds, and nothing they do not know is required. */
  ghost predicate SaysRequest(fs: multiset<Field>, r: Request) {
    && (forall f <- fs :: FitsRequest(f)) && Distinct(fs, 5)
    && 1 <= r.maximumBytes <= 2048 && 1000 <= r.timeoutMs <= 15000
    && Has(fs, 1, Le16(r.capability)) && Has(fs, 2, Le16(r.maximumBytes)) && Has(fs, 3, Le32(r.timeoutMs))
    && (Has(fs, 4, Le32(r.cacheMaxAgeSeconds)) || (Lacks(fs, 4) && r.cacheMaxAgeSeconds == 0))
    && Has(fs, 5, [if r.durable then 1 else 0])
  }

  /** The same of a response: a body and its kind exactly when it is a success. */
  ghost predicate SaysResponse(fs: multiset<Field>, r: Response) {
    && (forall f <- fs :: FitsResponse(f)) && Distinct(fs, 4)
    && Has(fs, 1, [r.status])
    && (if r.status == 0 then Has(fs, 2, [r.contentType]) && r.contentType == 1 && Has(fs, 3, r.body)
        else Lacks(fs, 2) && Lacks(fs, 3) && r.contentType == 0 && r.body == [])
    && (Has(fs, 4, Le32(r.retryAfterMs)) || (Lacks(fs, 4) && r.retryAfterMs == 0))
  }

  /** The table has the value of each taken kind. */
  lemma TabledValue(m: Table, fs: multiset<Field>, rule: Rule, kind: uint16, value: seq<byte>)
    requires Acceptable(fs, rule) && Tabulates(m, fs, rule)
    requires forall f <- fs :: f.kind == kind ==> rule(f) == Take
    ensures Has(fs, kind, value) <==> kind in m && m[kind] == value
    ensures Lacks(fs, kind) <==> kind !in m
  {
    if kind in m {
      var f :| f in fs && rule(f) == Take && f.kind == kind;
      assert m[kind] == f.value && f == Field(kind, f.required, f.value);
    }
  }

  lemma RequestRuleFits(fs: multiset<Field>)
    ensures Acceptable(fs, RequestRule) <==> (forall f <- fs :: FitsRequest(f)) && Distinct(fs, 5)
  {
    forall f <- fs
      ensures FitsRequest(f) <==> RequestRule(f) != Refuse
      ensures RequestRule(f) == Take ==> 1 <= f.kind <= 5
      ensures FitsRequest(f) ==> (RequestRule(f) == Take <==> 1 <= f.kind <= 5)
    {
      RequestRuleOf(f);
    }
    hide RequestRule, FitsRequest;
  }

  lemma RequestRuleOf(f: Field)
    ensures FitsRequest(f) <==> RequestRule(f) != Refuse
    ensures RequestRule(f) == Take ==> 1 <= f.kind <= 5
    ensures FitsRequest(f) ==> (RequestRule(f) == Take <==> 1 <= f.kind <= 5)
  {
    assert f.kind == 5 && |f.value| == 1 ==> f.value == [f.value[0]];
  }

  /** A field of a fixed size is read back and forth. */
  lemma FieldReads(v: seq<byte>, s: uint16, l: uint32)
    ensures |v| == 2 ==> (Get16(v) == s <==> v == Le16(s))
    ensures |v| == 4 ==> (Get32(v) == l <==> v == Le32(l))
  {
    Get16Le16(s);
    Get32Le32(l);
    if |v| == 2 {
      Le16Get16(v);
    }
    if |v| == 4 {
      Le32Get32(v);
    }
    hide Get16, Get32, Le16, Le32;
  }

  lemma TabledRequest(m: Table, fs: multiset<Field>, r: Request)
    requires Acceptable(fs, RequestRule) && Tabulates(m, fs, RequestRule)
    ensures FinishRequest(m) == Some(r) <==> SaysRequest(fs, r)
  {
    hide Get16, Get32, Le16, Le32, Acceptable, Tabulates, Has, Lacks, Distinct;
    RequestRuleFits(fs);
    forall f <- fs
      ensures FitsRequest(f) ==> (RequestRule(f) == Take <==> 1 <= f.kind <= 5)
    {
      RequestRuleOf(f);
    }
    TabledValue(m, fs, RequestRule, 1, Le16(r.capability));
    TabledValue(m, fs, RequestRule, 2, Le16(r.maximumBytes));
    TabledValue(m, fs, RequestRule, 3, Le32(r.timeoutMs));
    TabledValue(m, fs, RequestRule, 4, Le32(r.cacheMaxAgeSeconds));
    TabledValue(m, fs, RequestRule, 5, [if r.durable then 1 else 0]);
    RequestSizesInTable(m, fs);
    if 1 in m { FieldReads(m[1], r.capability, 0); }
    if 2 in m { FieldReads(m[2], r.maximumBytes, 0); }
    if 3 in m { FieldReads(m[3], 0, r.timeoutMs); }
    if 4 in m { FieldReads(m[4], 0, r.cacheMaxAgeSeconds); }
    hide RequestRule, FitsRequest;
  }

  lemma RequestSizesInTable(m: Table, fs: multiset<Field>)
    requires Tabulates(m, fs, RequestRule)
    ensures (1 in m ==> |m[1]| == 2) && (2 in m ==> |m[2]| == 2)
    ensures (3 in m ==> |m[3]| == 4) && (4 in m ==> |m[4]| == 4)
    ensures 5 in m ==> m[5] == [0] || m[5] == [1]
  {
    forall k: uint16 | k in m
      ensures exists f :: f in fs && FitsRequest(f) && f.kind == k && f.value == m[k]
    {
      var f :| f in fs && RequestRule(f) == Take && f.kind == k;
      RequestRuleOf(f);
    }
    hide RequestRule;
  }

  /** A list of fields is accepted for exactly the request it says. */
  lemma RequestAcceptedExactly(fs: seq<Field>, r: Request)
    requires AllLegal(fs)
    ensures DecodedRequest(ListBytes(fs)) == Some(r) <==> SaysRequest(multiset(fs), r)
  {
    RequestRuleFits(multiset(fs));
    assert SaysRequest(multiset(fs), r) ==> Acceptable(multiset(fs), RequestRule);
    hide ListBytes, Parse, Collect, SaysRequest, FinishRequest;
    ParseInvertsList(fs);
    CollectExact(fs, RequestRule);
    if Collect(fs, RequestRule).Some? {
      TabledRequest(Collect(fs, RequestRule).value, multiset(fs), r);
    }
  }

  lemma ResponseRuleOf(f: Field)
    ensures FitsResponse(f) <==> ResponseRule(f) != Refuse
    ensures ResponseRule(f) == Take ==> 1 <= f.kind <= 4
    ensures FitsResponse(f) ==> (ResponseRule(f) == Take <==> 1 <= f.kind <= 4)
  {
    assert f.kind == 2 && |f.value| == 1 ==> f.value == [f.value[0]];
  }

  lemma ResponseRuleFits(fs: multiset<Field>)
    ensures Acceptable(fs, ResponseRule) <==> (forall f <- fs :: FitsResponse(f)) && Distinct(fs, 4)
  {
    forall f <- fs
      ensures FitsResponse(f) <==> ResponseRule(f) != Refuse
      ensures ResponseRule(f) == Take ==> 1 <= f.kind <= 4
      ensures FitsResponse(f) ==> (ResponseRule(f) == Take <==> 1 <= f.kind <= 4)
    {
      ResponseRuleOf(f);
    }
    hide ResponseRule, FitsResponse;
  }

  lemma ResponseSizesInTable(m: Table, fs: multiset<Field>)
    requires Tabulates(m, fs, ResponseRule)
    ensures (1 in m ==> |m[1]| == 1) && (2 in m ==> m[2] == [0] || m[2] == [1])
    ensures 3 in m ==> m[3] != []
    ensures 4 in m ==> |m[4]| == 4
  {
    forall k: uint16 | k in m
      ensures exists f :: f in fs && FitsResponse(f) && f.kind == k && f.value == m[k]
    {
      var f :| f in fs && ResponseRule(f) == Take && f.kind == k;
      ResponseRuleOf(f);
    }
    hide ResponseRule;
  }

  lemma TabledResponse(m: Table, fs: multiset<Field>, r: Response)
    requires Acceptable(fs, ResponseRule) && Tabulates(m, fs, ResponseRule)
    ensures FinishResponse(m) == Some(r) <==> SaysResponse(fs, r)
  {
    hide Get32, Le32, Acceptable, Tabulates, Has, Lacks, Distinct;
    ResponseRuleFits(fs);
    forall f <- fs
      ensures FitsResponse(f) ==> (ResponseRule(f) == Take <==> 1 <= f.kind <= 4)
    {
      ResponseRuleOf(f);
    }
    TabledValue(m, fs, ResponseRule, 1, [r.status]);
    TabledValue(m, fs, ResponseRule, 2, [r.contentType]);
    TabledValue(m, fs, ResponseRule, 3, r.body);
    TabledValue(m, fs, ResponseRule, 4, Le32(r.retryAfterMs));
    ResponseSizesInTable(m, fs);
    if 4 in m { FieldReads(m[4], 0, r.retryAfterMs); }
    assert 1 in m ==> m[1] == [m[1][0]];
    hide ResponseRule, FitsResponse;
  }

  /** A list of fields is accepted for exactly the response it says. */
  lemma ResponseAcceptedExactly(fs: seq<Field>, r: Response)
    requires AllLegal(fs)
    ensures DecodedResponse(ListBytes(fs)) == Some(r) <==> SaysResponse(multiset(fs), r)
  {
    ResponseRuleFits(multiset(fs));
    assert SaysResponse(multiset(fs), r) ==> Acceptable(multiset(fs), ResponseRule);
    hide ListBytes, Parse, Collect, SaysResponse, FinishResponse;
    ParseInvertsList(fs);
    CollectExact(fs, ResponseRule);
    if Collect(fs, ResponseRule).Some? {
      TabledResponse(Collect(fs, ResponseRule).value, multiset(fs), r);
    }
  }

  /** Optional fields of kinds a request does not know. */
  ghost predicate UnknownToRequests(fs: multiset<Field>) {
    forall f <- fs :: !f.required && (f.kind == 0 || f.kind > 5)
  }

  ghost predicate UnknownToResponses(fs: multiset<Field>) {
    forall f <- fs :: !f.required && (f.kind == 0 || f.kind > 4)
  }

  lemma RequestIgnoresOrderAndUnknownFields(fs: seq<Field>, gs: seq<Field>, unknown: multiset<Field>)
    requires AllLegal(fs) && AllLegal(gs)
    requires UnknownToRequests(unknown) && multiset(gs) == multiset(fs) + unknown
    ensures DecodedRequest(ListBytes(gs)) == DecodedRequest(ListBytes(fs))
  {
    hide ListBytes, Parse, Collect;
    ParseInvertsList(fs);
    ParseInvertsList(gs);
    OrderAndSkippedFieldsDoNotMatter(fs, gs, unknown, RequestRule);
  }

  lemma ResponseIgnoresOrderAndUnknownFields(fs: seq<Field>, gs: seq<Field>, unknown: multiset<Field>)
    requires AllLegal(fs) && AllLegal(gs)
    requires UnknownToResponses(unknown) && multiset(gs) == multiset(fs) + unknown
    ensures DecodedResponse(ListBytes(gs)) == DecodedResponse(ListBytes(fs))
  {
    hide ListBytes, Parse, Collect;
    ParseInvertsList(fs);
    ParseInvertsList(gs);
    OrderAndSkippedFieldsDoNotMatter(fs, gs, unknown, ResponseRule);
  }
}
