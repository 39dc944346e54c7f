/** Byte stuffing of USB packets, and their recovery from a stream read in pieces. */
module Cobs {
  import opened Bytes
  import opened Arithmetic
  import opened Wrappers

  const HEADER_SIZE: nat := 16
  const PAYLOAD_SIZE: nat := 1024
  const WIRE_SIZE: nat := 1046

  datatype HostError = MalformedFrame | InvalidDelimiter | OversizedFrame | OversizedResponse | TimedOut

  // --- the encoding ---------------------------------------------------------

  /** Length of the block at the front: the bytes before the first zero, at most 254. */
  function BlockLength(data: seq<byte>): (k: nat)
    ensures k <= |data| && k <= 254
    ensures forall i | 0 <= i < k :: data[i] != 0
    ensures k < 254 && k < |data| ==> data[k] == 0
  {
    BlockFrom(data, 0)
  }

  function BlockFrom(data: seq<byte>, k: nat): (n: nat)
    requires k <= |data| && k <= 254
    requires forall i | 0 <= i < k :: data[i] != 0
    ensures k <= n <= |data| && n <= 254
    ensures forall i | 0 <= i < n :: data[i] != 0
    ensures n < 254 && n < |data| ==> data[n] == 0
    decreases |data| - k
  {
    if k == |data| || k == 254 || data[k] == 0 then k else BlockFrom(data, k + 1)
  }

  /** The encoding without its delimiter: blocks, each led by its length plus one. */
  function Stuff(data: seq<byte>): seq<byte> {
    var k := BlockLength(data);
    if k == 254 then [255] + data[..k] + Stuff(data[k..])
    else if k == |data| then [(k + 1) as byte] + data
    else [(k + 1) as byte] + data[..k] + Stuff(data[k + 1..])
  }

  /** The block length of data whose first block is known. */
  lemma BlockIs(data: seq<byte>, k: nat)
    requires k <= |data| && k <= 254
    requires forall i | 0 <= i < k :: data[i] != 0
    requires k < 254 && k < |data| ==> data[k] == 0
    ensures BlockLength(data) == k
  {
  }

  /** `done` holds the closed blocks of the data before `start`. */
  ghost predicate ClosedUpTo(data: seq<byte>, start: nat, done: seq<byte>) {
    start <= |data| && done + Stuff(data[start..]) == Stuff(data)
  }

  lemma Associates(a: seq<byte>, b: seq<byte>, c: seq<byte>)
    ensures a + (b + c) == a + b + c
  {
  }

  lemma CloseBlock(data: seq<byte>, start: nat, i: nat, next: nat, done: seq<byte>)
    requires ClosedUpTo(data, start, done)
    requires start <= i <= |data| && i - start <= 254 && forall j | start <= j < i :: data[j] != 0
    requires if i - start == 254 then next == i else i < |data| && data[i] == 0 && next == i + 1
    ensures ClosedUpTo(data, next, done + [(i - start + 1) as byte] + data[start..i])
  {
    var rest, k := data[start..], i - start;
    BlockIs(rest, k);
    StuffSplit(rest);
    hide Stuff, BlockLength;
    var code, block, after := [(k + 1) as byte], data[start..i], Stuff(data[next..]);
    assert rest[..k] == block && rest[next - start..] == data[next..];
    if k < 254 {
      assert rest[k + 1..] == data[next..];
    }
    Associates(code, block, after);
    Associates(done, code, block + after);
    Associates(done + code, block, after);
  }

  lemma CloseLast(data: seq<byte>, start: nat, done: seq<byte>)
    requires ClosedUpTo(data, start, done)
    requires |data| - start < 254 && forall j | start <= j < |data| :: data[j] != 0
    ensures Stuff(data) == done + [(|data| - start + 1) as byte] + data[start..]
  {
    var rest := data[start..];
    BlockIs(rest, |rest|);
    StuffSplit(rest);
    hide Stuff, BlockLength;
    var code := [(|rest| + 1) as byte];
    assert rest[..|rest|] == rest;
    Associates(done, code, rest);
  }

  method Encode(data: seq<byte>) returns (output: seq<byte>)
    ensures output == Stuff(data) + [0]
  {
    hide ClosedUpTo, Stuff;
    output := [0];
    var codeAt: nat, code: nat := 0, 1;
    ghost var start: nat := 0;
    NothingClosed(data);
    for i := 0 to |data|
      invariant 0 <= start <= i && code == i - start + 1 <= 254
      invariant |output| == codeAt + code
      invariant output[codeAt + 1..] == data[start..i]
      invariant forall j | start <= j < i :: data[j] != 0
      invariant ClosedUpTo(data, start, output[..codeAt])
    {
      var value := data[i];
      ghost var done := output[..codeAt];
      if value == 0 {
        CloseBlock(data, start, i, i + 1, done);
        output := output[codeAt := code as byte];
        assert output == done + [code as byte] + data[start..i];
        codeAt, code := |output|, 1;
        output := output + [0];
        start := i + 1;
      } else {
        ghost var block := output[codeAt + 1..];
        output := output + [value];
        code := code + 1;
        assert output[codeAt + 1..] == block + [value] == data[start..i + 1];
        assert output[codeAt + 1..] == data[start..i + 1] && output[..codeAt] == done;
        if code == 255 {
          CloseBlock(data, start, i + 1, i + 1, done);
          output := output[codeAt := code as byte];
          assert output == done + [code as byte] + data[start..i + 1];
          codeAt, code := |output|, 1;
          output := output + [0];
          start := i + 1;
        }
      }
    }
    CloseLast(data, start, output[..codeAt]);
    output := output[codeAt := code as byte];
    output := output + [0];
  }

  lemma NothingClosed(data: seq<byte>)
    ensures ClosedUpTo(data, 0, [])
  {
    assert data[0..] == data;
  }

  // --- the decoding ---------------------------------------------------------

  function Unstuff(data: seq<byte>): Result<seq<byte>, HostError> {
    if data == [] then Success([])
    else if data[0] == 0 || data[0] as nat > |data| then Failure(MalformedFrame)
    else
      var code := data[0] as nat;
      if 0 in data[1..code] then Failure(InvalidDelimiter)
      else match Unstuff(data[code..])
        case Failure(e) => Failure(e)
        case Success(rest) => Success(data[1..code] + (if code < 255 && code < |data| then [0] else []) + rest)
  }

  function Decoded(data: seq<byte>): Result<seq<byte>, HostError> {
    match Unstuff(data)
    case Failure(e) => Failure(e)
    case Success(value) => if |value| > HEADER_SIZE + PAYLOAD_SIZE then Failure(OversizedFrame) else Success(value)
  }

  lemma SliceOfTail(data: seq<byte>, from: nat, a: nat, b: nat)
    requires a <= b && from + b <= |data|
    ensures data[from..][a..b] == data[from + a..from + b]
  {
  }

  method Decode(data: seq<byte>) returns (r: Result<seq<byte>, HostError>)
    ensures r == Decoded(data)
  {
    var output: seq<byte> := [];
    var cursor: nat := 0;
    assert data[0..] == data;
    assert forall rest: seq<byte> :: [] + rest == rest;
    while cursor < |data|
      invariant cursor <= |data|
      invariant Unstuff(data) == match Unstuff(data[cursor..]) case Failure(e) => Failure(e) case Success(rest) => Success(output + rest)
    {
      ghost var before, from := output, cursor;
      ghost var tail := data[from..];
      var code := data[cursor] as nat;
      cursor := cursor + 1;
      if code == 0 || cursor + code - 1 > |data| {
        return Failure(MalformedFrame);
      }
      var block := data[cursor..cursor + code - 1];
      SliceOfTail(data, from, 1, code);
      if 0 in block {
        return Failure(InvalidDelimiter);
      }
      output := output + block;
      cursor := cursor + code - 1;
      assert data[cursor..] == tail[code..];
      if code < 255 && cursor < |data| {
        output := output + [0];
      }
      assert forall rest :: before + (block + (if code < 255 && code < |tail| then [0] else []) + rest) == output + rest;
    }
    assert data[cursor..] == [] && output + [] == output;
    if |output| > HEADER_SIZE + PAYLOAD_SIZE {
      return Failure(OversizedFrame);
    }
    return Success(output);
  }

  // --- what the pair guarantees ---------------------------------------------

  lemma {:induction false} UnstuffInvertsStuff(data: seq<byte>)
    ensures Unstuff(Stuff(data)) == Success(data)
  {
    StuffSplit(data);
    hide Unstuff, Stuff, BlockLength;
    var k := BlockLength(data);
    if k == 254 {
      UnstuffInvertsStuff(data[k..]);
      FullBlock(data[..k], data[k..]);
      assert data[..k] + data[k..] == data;
    } else if k == |data| {
      LastBlock(data);
      assert data[..k] == data;
    } else {
      UnstuffInvertsStuff(data[k + 1..]);
      InnerBlock(data[..k], data[k + 1..]);
      assert data[..k] + [0] + data[k + 1..] == data;
    }
  }

  lemma FullBlock(block: seq<byte>, rest: seq<byte>)
    requires |block| == 254 && 0 !in block && Unstuff(Stuff(rest)) == Success(rest)
    ensures Unstuff([255] + block + Stuff(rest)) == Success(block + rest)
  {
    hide Unstuff, Stuff;
    UnstuffBlock(block, Stuff(rest));
    assert block + [] == block;
  }

  lemma LastBlock(block: seq<byte>)
    requires |block| < 254 && 0 !in block
    ensures Unstuff([(|block| + 1) as byte] + block) == Success(block)
  {
    assert Unstuff([]) == Success([]);
    hide Unstuff;
    UnstuffBlock(block, []);
    var s := [(|block| + 1) as byte] + block;
    assert s + [] == s && block + [] == block;
  }

  lemma InnerBlock(block: seq<byte>, rest: seq<byte>)
    requires |block| < 254 && 0 !in block && Unstuff(Stuff(rest)) == Success(rest) && Stuff(rest) != []
    ensures Unstuff([(|block| + 1) as byte] + block + Stuff(rest)) == Success(block + [0] + rest)
  {
    hide Unstuff, Stuff;
    UnstuffBlock(block, Stuff(rest));
  }

  /** One block of an encoding. */
  lemma StuffSplit(data: seq<byte>)
    ensures var k := BlockLength(data);
            k <= 254 && k <= |data| && 0 !in data[..k] &&
            if k == 254 then Stuff(data) == [(k + 1) as byte] + data[..k] + Stuff(data[k..])
            else if k == |data| then Stuff(data) == [(k + 1) as byte] + data[..k]
            else data[k] == 0 && Stuff(data) == [(k + 1) as byte] + data[..k] + Stuff(data[k + 1..]) &&
                 Stuff(data[k + 1..]) != []
  {
  }

  lemma UnstuffBlock(block: seq<byte>, after: seq<byte>)
    requires |block| <= 254 && 0 !in block
    ensures Unstuff([(|block| + 1) as byte] + block + after) ==
      match Unstuff(after)
      case Failure(e) => Failure(e)
      case Success(rest) => Success(block + (if |block| < 254 && after != [] then [0] else []) + rest)
  {
    var s := [(|block| + 1) as byte] + block + after;
    assert s[1..|block| + 1] == block && s[|block| + 1..] == after;
  }

  /** Decoding returns what was encoded, for exactly the packets the link allows. */
  lemma DecodeInvertsEncode(data: seq<byte>)
    ensures Decoded(Stuff(data)) == if |data| <= HEADER_SIZE + PAYLOAD_SIZE then Success(data) else Failure(OversizedFrame)
  {
    UnstuffInvertsStuff(data);
  }

  /** No zero before the delimiter. */
  lemma {:induction false} StuffHasNoZero(data: seq<byte>)
    ensures 0 !in Stuff(data)
  {
    var k := BlockLength(data);
    if k == 254 {
      StuffHasNoZero(data[k..]);
    } else if k < |data| {
      StuffHasNoZero(data[k + 1..]);
    }
  }

  /** At most one byte in 254 is added, besides the leading code. */
  lemma {:induction false} StuffSize(data: seq<byte>)
    ensures |data| + 1 <= |Stuff(data)| <= |data| + |data| / 254 + 1
  {
    var k := BlockLength(data);
    if k == 254 {
      StuffSize(data[k..]);
    } else if k < |data| {
      StuffSize(data[k + 1..]);
    }
  }

  /** The longest packet fits the wire limit with its delimiter, and the limit is reached. */
  lemma PacketsFitTheWire(data: seq<byte>)
    ensures |data| <= HEADER_SIZE + PAYLOAD_SIZE ==> |Stuff(data) + [0]| <= WIRE_SIZE
    ensures |data| == HEADER_SIZE + PAYLOAD_SIZE && 0 !in data ==> |Stuff(data) + [0]| == WIRE_SIZE
  {
    StuffSize(data);
    if |data| == HEADER_SIZE + PAYLOAD_SIZE && 0 !in data {
      StuffNonZeroSize(data);
    }
  }

  lemma {:induction false} StuffNonZeroSize(data: seq<byte>)
    requires 0 !in data
    ensures |Stuff(data)| == |data| + |data| / 254 + 1
  {
    if BlockLength(data) == 254 {
      StuffNonZeroSize(data[254..]);
    }
  }

  // --- recovery from the stream ---------------------------------------------

  predicate OccursAt(s: seq<byte>, delimiter: seq<byte>, i: nat) {
    i + |delimiter| <= |s| && s[i..i + |delimiter|] == delimiter
  }

  /** Index of the first occurrence at or after `from`, or the length when there is none. */
  function Find(s: seq<byte>, delimiter: seq<byte>, from: nat): (i: nat)
    requires from <= |s|
    ensures from <= i <= |s|
    ensures i < |s| ==> OccursAt(s, delimiter, i)
    ensures forall j: nat | from <= j < i :: !OccursAt(s, delimiter, j)
    decreases |s| - from
  {
    if from == |s| then from
    else if OccursAt(s, delimiter, from) then from
    else Find(s, delimiter, from + 1)
  }

  /** No whole delimiter lies in the first `limit` bytes. */
  ghost predicate Absent(s: seq<byte>, delimiter: seq<byte>, limit: nat) {
    forall j: nat :: !OccursAt(s[..Min(limit, |s|)], delimiter, j)
  }

  lemma SliceOfPrefix(s: seq<byte>, limit: nat, a: nat, b: nat)
    requires a <= b <= limit <= |s|
    ensures s[..limit][a..b] == s[a..b]
  {
  }

  lemma AbsentFromPrefix(s: seq<byte>, more: seq<byte>, delimiter: seq<byte>, limit: nat)
    requires delimiter != [] && limit <= |s|
    requires forall j: nat | j < limit :: !OccursAt(s, delimiter, j)
    ensures Absent(s + more, delimiter, limit)
  {
    var seen := (s + more)[..Min(limit, |s + more|)];
    assert seen == s[..limit];
    forall j: nat ensures !OccursAt(seen, delimiter, j) {
      if j < limit && j + |delimiter| <= limit {
        assert !OccursAt(s, delimiter, j);
        SliceOfPrefix(s, limit, j, j + |delimiter|);
      }
    }
  }

  class Client {
    var buffer: seq<byte>    // bytes read and not yet consumed
    var incoming: seq<byte>  // bytes the device has sent and the client has not read

    constructor (incoming: seq<byte>)
      ensures buffer == [] && this.incoming == incoming
    {
      buffer := [];
      this.incoming := incoming;
    }

    // The transport hands over any number of waiting bytes, possibly none, up to the size asked for.
    method Read(size: nat) returns (chunk: seq<byte>)
      modifies this`incoming
      ensures |chunk| <= size && old(incoming) == chunk + incoming
    {
      var n: nat :| n <= size && n <= |incoming|;
      chunk := incoming[..n];
      incoming := incoming[n..];
    }

    /** Consumes the stream up to the delimiter. `turns` is how often the loop runs before the deadline. */
    method Until(delimiter: seq<byte>, limit: nat, turns: nat) returns (r: Result<seq<byte>, HostError>)
      requires delimiter != []
      modifies this
      ensures r.Failure? ==> buffer + incoming == old(buffer + incoming)
      ensures r.Success? ==> old(buffer + incoming) == r.value + delimiter + buffer + incoming && |r.value| < limit
      ensures r.Success? ==> forall j: nat | j < |r.value| :: !OccursAt(r.value + delimiter, delimiter, j)
      ensures r == Failure(OversizedResponse) ==> Absent(old(buffer + incoming), delimiter, limit)
      ensures r.Failure? ==> r.error in {OversizedResponse, TimedOut}
    {
      ghost var stream := buffer + incoming;
      var left := turns;
      while true
        invariant buffer + incoming == stream
        decreases left
      {
        var index := Find(buffer, delimiter, 0);
        if index < |buffer| {
          if index >= limit {
            AbsentFromPrefix(buffer, incoming, delimiter, limit);
            return Failure(OversizedResponse);
          }
          var result := buffer[..index];
          assert buffer == result + delimiter + buffer[index + |delimiter|..];
          forall j: nat | j < |result| ensures !OccursAt(result + delimiter, delimiter, j) {
            assert !OccursAt(buffer, delimiter, j);
            if j + |delimiter| <= |result + delimiter| {
              assert buffer[j..j + |delimiter|] == (result + delimiter)[j..j + |delimiter|];
            }
          }
          buffer := buffer[index + |delimiter|..];
          return Success(result);
        }
        if |buffer| >= limit {
          AbsentFromPrefix(buffer, incoming, delimiter, limit);
          return Failure(OversizedResponse);
        }
        if left == 0 {
          return Failure(TimedOut);
        }
        left := left - 1;
        var chunk := Read(4096);
        buffer := buffer + chunk;
      }
    }

    /** The next packet of the stream, however the transport cut it into reads. */
    method NextPacket(ghost packets: seq<seq<byte>>, ghost tail: seq<byte>, turns: nat) returns (r: Result<seq<byte>, HostError>)
      requires packets != [] && forall p | p in packets :: |p| <= HEADER_SIZE + PAYLOAD_SIZE
      requires buffer + incoming == Wire(packets) + tail
      modifies this
      ensures r == Success(packets[0]) || r == Failure(TimedOut)
      ensures buffer + incoming == Wire(if r.Success? then packets[1..] else packets) + tail
    {
      hide Stuff, Decoded, OccursAt;
      ghost var body, rest := Stuff(packets[0]), Wire(packets[1..]) + tail;
      ghost var stream := buffer + incoming;
      assert stream == body + [0] + rest;
      StuffHasNoZero(packets[0]);
      PacketsFitTheWire(packets[0]);
      var raw := Until([0], WIRE_SIZE, turns);
      if raw.Failure? {
        if raw.error == OversizedResponse {
          ZeroOccurs(stream[..Min(WIRE_SIZE, |stream|)], stream, |body|);
        }
        return raw;
      }
      FirstZero(raw.value, body, buffer + incoming, rest);
      DecodeInvertsEncode(packets[0]);
      r := Decode(raw.value);
    }
  }

  /** A stream of encoded packets. */
  function Wire(packets: seq<seq<byte>>): seq<byte> {
    if packets == [] then [] else Stuff(packets[0]) + [0] + Wire(packets[1..])
  }

  // Two ways to cut the same stream at its first zero are the same cut.
  lemma FirstZero(a: seq<byte>, b: seq<byte>, after: seq<byte>, rest: seq<byte>)
    requires a + [0] + after == b + [0] + rest && 0 !in b
    requires forall j: nat | j < |a| :: !OccursAt(a + [0], [0], j)
    ensures a == b && after == rest
  {
    var s := a + [0] + after;
    assert s[|a|] == 0 && s[|b|] == 0 && b <= s;
    ZeroInside(s, b, |a|);
    if |b| < |a| {
      assert s[..|a| + 1] == a + [0];
      ZeroOccurs(a + [0], s, |b|);
    }
    assert s[..|a|] == a && s[..|b|] == b;
    assert s[|a| + 1..] == after && s[|b| + 1..] == rest;
  }

  lemma ZeroInside(s: seq<byte>, b: seq<byte>, i: nat)
    requires b <= s && i < |s| && s[i] == 0
    ensures i < |b| ==> 0 in b
  {
    if i < |b| {
      assert b[i] == 0;
    }
  }

  lemma ZeroOccurs(front: seq<byte>, s: seq<byte>, i: nat)
    requires front <= s && i < |front| && s[i] == 0
    ensures OccursAt(front, [0], i)
  {
  }

  /** Two packet lists with the same wire image are the same list: nothing is lost, merged or reordered. */
  lemma {:induction false} WireDeterminesPackets(p: seq<seq<byte>>, q: seq<seq<byte>>)
    requires Wire(p) == Wire(q)
    ensures p == q
  {
    if p == [] || q == [] {
      assert p == q;
    } else {
      var a, b := Stuff(p[0]), Stuff(q[0]);
      StuffHasNoZero(p[0]);
      StuffHasNoZero(q[0]);
      FirstZeroOf(a, b, Wire(p[1..]), Wire(q[1..]));
      UnstuffInvertsStuff(p[0]);
      UnstuffInvertsStuff(q[0]);
      WireDeterminesPackets(p[1..], q[1..]);
      assert p == [p[0]] + p[1..] && q == [q[0]] + q[1..];
    }
  }

  lemma FirstZeroOf(a: seq<byte>, b: seq<byte>, after: seq<byte>, rest: seq<byte>)
    requires a + [0] + after == b + [0] + rest && 0 !in a && 0 !in b
    ensures a == b && after == rest
  {
    forall j: nat | j < |a| ensures !OccursAt(a + [0], [0], j) {
      assert (a + [0])[j..j + 1][0] == a[j];
    }
    FirstZero(a, b, after, rest);
  }
}
