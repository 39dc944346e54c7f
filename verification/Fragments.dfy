/** Fragmentation of frames into link packets, and their reassembly. */
module Fragments {
  import opened Bytes
  import opened Arithmetic
  import opened Frame

  const FRAGMENT_MAGIC: byte := 0xa7
  const FRAGMENT_VERSION: byte := 1
  const FRAGMENT_HEADER_SIZE: nat := 8
  // Flag byte: bit 0 marks the first fragment, bit 1 the last; no other bit is allowed.
  const FLAGS_LIMIT: byte := 4

  function FragmentCount(frameSize: nat, packetCapacity: nat): nat {
    if frameSize == 0 || frameSize > MAXIMUM_FRAME_SIZE || packetCapacity <= FRAGMENT_HEADER_SIZE then 0
    else
      var dataCapacity := packetCapacity - FRAGMENT_HEADER_SIZE;
      (frameSize + dataCapacity - 1) / dataCapacity
  }

  lemma CountCovers(frameSize: nat, d: nat, index: nat)
    requires d > 0 && frameSize > 0
    ensures var count := (frameSize + d - 1) / d;
      && count > 0 && (index < count <==> index * d < frameSize)
      && (index + 1 == count <==> index * d < frameSize <= index * d + d)
  {
    var count := (frameSize + d - 1) / d;
    assert count * d <= frameSize + d - 1 < count * d + d;
    assert (index + 1) * d == index * d + d;
    if index < count {
      MultiplyMonotone(index + 1, count, d);
      if index + 1 < count {
        assert (index + 2) * d == index * d + d + d;
        MultiplyMonotone(index + 2, count, d);
      }
    } else {
      MultiplyMonotone(count, index, d);
    }
  }

  /** The packet that carries `data` at `offset` of frame `id`. */
  function Packet(id: uint16, offset: uint16, first: bool, last: bool, data: seq<byte>): (packet: seq<byte>)
    ensures |packet| == FRAGMENT_HEADER_SIZE + |data|
  {
    [FRAGMENT_MAGIC, FRAGMENT_VERSION, (if first then 1 else 0) + (if last then 2 else 0), 0] +
    Le16(id) + Le16(offset) + data
  }

  /** A packet is eight bytes of header, with the frame and the offset in it, and its part of the frame. */
  lemma PacketLayout(frame: seq<byte>, id: uint16, index: nat, packetCapacity: nat)
    requires index < FragmentCount(|frame|, packetCapacity)
    ensures var p, at := Fragment(frame, id, index, packetCapacity), index * (packetCapacity - 8);
      && 8 < |p| <= packetCapacity && at + (|p| - 8) <= |frame| < 0x1_0000
      && p[0] == 0xa7 && p[1] == 1 && p[3] == 0
      && p[2] == (if at == 0 then 1 else 0) + (if at + (|p| - 8) == |frame| then 2 else 0)
      && Little(p, 4, 2) == id as nat && Little(p, 6, 2) == at && p[8..] == frame[at..at + (|p| - 8)]
  {
    hide Le16, Little;
    var d := packetCapacity - FRAGMENT_HEADER_SIZE;
    CountCovers(|frame|, d, index);
    var p := Fragment(frame, id, index, packetCapacity);
    if index > 0 {
      MultiplyMonotone(1, index, d);
    }
    Le16Stands(p, 4, id);
    Le16Stands(p, 6, (index * d) as uint16);
  }

  function Fragment(frame: seq<byte>, id: uint16, index: nat, packetCapacity: nat): seq<byte>
    requires index < FragmentCount(|frame|, packetCapacity)
  {
    var d := packetCapacity - FRAGMENT_HEADER_SIZE;
    var count := FragmentCount(|frame|, packetCapacity);
    CountCovers(|frame|, d, index);
    Packet(id, (index * d) as uint16, index == 0, index + 1 == count, frame[index * d..index * d + Min(d, |frame| - index * d)])
  }

  method WriteFragment(id: uint16, offset: uint16, first: bool, last: bool, data: seq<byte>, output: array<byte>)
    requires FRAGMENT_HEADER_SIZE + |data| <= output.Length
    modifies output
    ensures output[..] == Packet(id, offset, first, last, data) + old(output[FRAGMENT_HEADER_SIZE + |data|..])
  {
    hide Le16;
    var size := FRAGMENT_HEADER_SIZE + |data|;
    ghost var rest := output[size..];
    output[0], output[1], output[2] := FRAGMENT_MAGIC, FRAGMENT_VERSION, 0;
    if first {
      output[2] := output[2] + 1;
    }
    if last {
      output[2] := output[2] + 2;
    }
    output[3] := 0;
    ghost var start := [FRAGMENT_MAGIC, FRAGMENT_VERSION, (if first then 1 else 0) + (if last then 2 else 0), 0];
    assert output[..4] == start && output[size..] == rest;
    WriteTail(id, offset, data, output);
    assert output[..] == output[..4] + output[4..];
    Regroup(start, Le16(id), Le16(offset), data, rest);
  }

  lemma Regroup(a: seq<byte>, b: seq<byte>, c: seq<byte>, d: seq<byte>, e: seq<byte>)
    ensures a + (b + c + d + e) == a + b + c + d + e
  {
  }

  method WriteTail(id: uint16, offset: uint16, data: seq<byte>, output: array<byte>)
    requires FRAGMENT_HEADER_SIZE + |data| <= output.Length
    modifies output
    ensures output[..4] == old(output[..4])
    ensures output[4..] == Le16(id) + Le16(offset) + data + old(output[FRAGMENT_HEADER_SIZE + |data|..])
  {
    hide Le16;
    ghost var size := FRAGMENT_HEADER_SIZE + |data|;
    ghost var start, rest := output[..4], output[size..];
    Put(output, 4, Le16(id));
    Put(output, 6, Le16(offset));
    assert output[..8] == start + Le16(id) + Le16(offset) && output[size..] == rest;
    Put(output, FRAGMENT_HEADER_SIZE, data);
    assert output[..] == start + Le16(id) + Le16(offset) + data + rest;
  }

  method EncodeFragment(frame: seq<byte>, id: uint16, index: nat, packetCapacity: nat, output: array<byte>)
    returns (status: ProtocolStatus, size: nat)
    modifies output
    ensures index >= FragmentCount(|frame|, packetCapacity) ==> status == InvalidArgument
    ensures index < FragmentCount(|frame|, packetCapacity) ==>
      var packet := Fragment(frame, id, index, packetCapacity);
      if output.Length < |packet| then status == BufferTooSmall
      else status == Ok && size == |packet| && output[..] == packet + old(output[|packet|..])
    ensures status != Ok ==> size == 0 && output[..] == old(output[..])
  {
    hide Packet;
    size := 0;
    var count := FragmentCount(|frame|, packetCapacity);
    if count == 0 || index >= count {
      return InvalidArgument, 0;
    }
    var dataCapacity := packetCapacity - FRAGMENT_HEADER_SIZE;
    var offset := index * dataCapacity;
    CountCovers(|frame|, dataCapacity, index);
    assert offset <= 0xffff;  // the overflow check of the source never fires
    var dataSize := Min(dataCapacity, |frame| - offset);
    var packetSize := FRAGMENT_HEADER_SIZE + dataSize;
    if output.Length < packetSize {
      return BufferTooSmall, 0;
    }
    WriteFragment(id, offset as uint16, index == 0, index + 1 == count, frame[offset..offset + dataSize], output);
    return Ok, packetSize;
  }

  // --- reassembly -----------------------------------------------------------

  /** The reassembler's state; `expected` is zero until the frame header is complete. */
  datatype Assembly = Assembly(data: seq<byte>, expected: nat, frameId: uint16, active: bool)

  const EMPTY: Assembly := Assembly([], 0, 0, false)

  predicate WellFormedPacket(packet: seq<byte>) {
    |packet| > FRAGMENT_HEADER_SIZE && packet[0] == FRAGMENT_MAGIC && packet[1] == FRAGMENT_VERSION &&
    packet[3] == 0 && packet[2] < FLAGS_LIMIT
  }

  predicate IsStart(packet: seq<byte>) requires WellFormedPacket(packet) { packet[2] % 2 == 1 }
  predicate IsEnd(packet: seq<byte>) requires WellFormedPacket(packet) { packet[2] / 2 == 1 }
  function IdOf(packet: seq<byte>): uint16 requires WellFormedPacket(packet) { Get16(packet[4..6]) }
  function OffsetOf(packet: seq<byte>): nat requires WellFormedPacket(packet) { Get16(packet[6..8]) as nat }
  function DataOf(packet: seq<byte>): seq<byte> requires WellFormedPacket(packet) { packet[FRAGMENT_HEADER_SIZE..] }

  /** What the reassembler does with a packet, checks in their order. */
  function Accept(a: Assembly, packet: seq<byte>): (r: (Assembly, ProtocolStatus)) {
    if !WellFormedPacket(packet) then (a, UnexpectedFragment)
    else if IsStart(packet) && OffsetOf(packet) != 0 then (a, OutOfOrderFragment)
    else if !IsStart(packet) && (!a.active || IdOf(packet) != a.frameId) then (a, UnexpectedFragment)
    else Append(if IsStart(packet) then Assembly([], 0, IdOf(packet), true) else a, packet)
  }

  function Append(a: Assembly, packet: seq<byte>): (r: (Assembly, ProtocolStatus))
    requires WellFormedPacket(packet)
  {
    if OffsetOf(packet) != |a.data| then (a, OutOfOrderFragment)
    else if |a.data + DataOf(packet)| > MAXIMUM_FRAME_SIZE then (EMPTY, Oversized)
    else
      var data := a.data + DataOf(packet);
      if a.expected == 0 && |data| >= FRAME_HEADER_SIZE && Get16(data[0..2]) != FRAME_MAGIC then (EMPTY, BadMagic)
      else if a.expected == 0 && |data| >= FRAME_HEADER_SIZE && Get16(data[16..18]) as nat > MAXIMUM_PAYLOAD_SIZE then
        (EMPTY, Oversized)
      else
        var expected := if a.expected == 0 && |data| >= FRAME_HEADER_SIZE
                        then FRAME_HEADER_SIZE + Get16(data[16..18]) as nat else a.expected;
        if expected != 0 && |data| > expected then (EMPTY, Oversized)
        else if IsEnd(packet) then
          if |data| != expected then (EMPTY, Truncated)
          else (Assembly(data, expected, a.frameId, false), FrameComplete)
        else if expected != 0 && |data| == expected then (EMPTY, UnexpectedFragment)
        else (Assembly(data, expected, a.frameId, a.active), FragmentAccepted)
  }

  class FragmentReassembler {
    const buffer: array<byte>
    var size: nat
    var expectedSize: nat
    var frameId: uint16
    var active: bool

    ghost predicate Valid() reads this, buffer {
      buffer.Length == MAXIMUM_FRAME_SIZE && size <= buffer.Length
    }

    ghost function State(): Assembly
      requires Valid()
      reads this, buffer
    {
      Assembly(buffer[..size], expectedSize, frameId, active)
    }

    constructor ()
      ensures Valid() && State() == EMPTY && fresh(buffer)
    {
      buffer := new byte[MAXIMUM_FRAME_SIZE];
      size, expectedSize, frameId, active := 0, 0, 0, false;
    }

    method Reset()
      requires Valid()
      modifies this
      ensures Valid() && State() == EMPTY
    {
      size, expectedSize, frameId, active := 0, 0, 0, false;
    }

    method AcceptPacket(packet: seq<byte>) returns (status: ProtocolStatus)
      requires Valid()
      modifies this, buffer
      ensures Valid() && (State(), status) == Accept(old(State()), packet)
    {
      if |packet| <= FRAGMENT_HEADER_SIZE {
        return UnexpectedFragment;
      }
      if packet[0] != FRAGMENT_MAGIC || packet[1] != FRAGMENT_VERSION || packet[3] != 0 || packet[2] >= FLAGS_LIMIT {
        return UnexpectedFragment;
      }
      var start := packet[2] % 2 == 1;
      var id := Get16(packet[4..6]);
      var offset := Get16(packet[6..8]) as nat;
      if start {
        if offset != 0 {
          return OutOfOrderFragment;
        }
        Reset();
        active := true;
        frameId := id;
      } else if !active || id != frameId {
        return UnexpectedFragment;
      }
      status := AppendPacket(packet);
    }

    // The second half of the same call: the packet belongs to the frame being collected.
    method AppendPacket(packet: seq<byte>) returns (status: ProtocolStatus)
      requires Valid() && WellFormedPacket(packet)
      modifies this, buffer
      ensures Valid() && (State(), status) == Append(old(State()), packet)
    {
      ghost var before := State();
      var end := packet[2] / 2 == 1;
      var offset := Get16(packet[6..8]) as nat;
      var dataSize := |packet| - FRAGMENT_HEADER_SIZE;
      if offset != size {
        return OutOfOrderFragment;
      }
      if dataSize > buffer.Length - size {
        Reset();
        return Oversized;
      }
      Put(buffer, size, packet[FRAGMENT_HEADER_SIZE..]);
      size := size + dataSize;
      assert buffer[..size] == before.data + DataOf(packet);
      assert size >= FRAME_HEADER_SIZE ==>
        buffer[0..2] == buffer[..size][0..2] && buffer[16..18] == buffer[..size][16..18];
      if expectedSize == 0 && size >= FRAME_HEADER_SIZE {
        if Get16(buffer[0..2]) != FRAME_MAGIC {
          Reset();
          return BadMagic;
        }
        var payloadSize := Get16(buffer[16..18]) as nat;
        if payloadSize > MAXIMUM_PAYLOAD_SIZE {
          Reset();
          return Oversized;
        }
        expectedSize := FRAME_HEADER_SIZE + payloadSize;
      }
      if expectedSize != 0 && size > expectedSize {
        Reset();
        return Oversized;
      }
      if end {
        if expectedSize == 0 || size != expectedSize {
          Reset();
          return Truncated;
        }
        active := false;
        return FrameComplete;
      }
      if expectedSize != 0 && size == expectedSize {
        Reset();
        return UnexpectedFragment;
      }
      return FragmentAccepted;
    }
  }

  // --- what a complete frame is made of, over every run ----------------------

  /** The reassembler after a run of packets. */
  function Run(packets: seq<seq<byte>>): Assembly {
    if packets == [] then EMPTY else Accept(Run(packets[..|packets| - 1]), packets[|packets| - 1]).0
  }

  /** What the reassembler answered to the last packet of a run. */
  function LastStatus(packets: seq<seq<byte>>): ProtocolStatus
    requires packets != []
  {
    Accept(Run(packets[..|packets| - 1]), packets[|packets| - 1]).1
  }

  /** The packets of a run that were accepted, from the latest accepted start fragment on. */
  ghost function SinceStart(packets: seq<seq<byte>>): seq<seq<byte>> {
    if packets == [] then []
    else
      var last := packets[|packets| - 1];
      var earlier := SinceStart(packets[..|packets| - 1]);
      if LastStatus(packets) != FragmentAccepted && LastStatus(packets) != FrameComplete then earlier
      else if WellFormedPacket(last) && IsStart(last) then [last]
      else earlier + [last]
  }

  ghost predicate AllWellFormed(chain: seq<seq<byte>>) {
    forall i | 0 <= i < |chain| :: WellFormedPacket(chain[i])
  }

  ghost function Joined(chain: seq<seq<byte>>): seq<byte>
    requires AllWellFormed(chain)
  {
    if chain == [] then [] else Joined(chain[..|chain| - 1]) + DataOf(chain[|chain| - 1])
  }

  /** Packets of one frame, each at the offset where the ones before it stop, the first alone marked as start. */
  ghost predicate Contiguous(chain: seq<seq<byte>>, id: uint16) {
    && AllWellFormed(chain) && chain != []
    && (forall i | 0 <= i < |chain| :: IdOf(chain[i]) == id && (IsStart(chain[i]) <==> i == 0))
    && (forall i | 0 <= i < |chain| :: OffsetOf(chain[i]) == |Joined(chain[..i])|)
  }

  ghost predicate OnlyLastEnds(chain: seq<seq<byte>>, ended: bool)
    requires AllWellFormed(chain)
  {
    forall i | 0 <= i < |chain| :: IsEnd(chain[i]) <==> ended && i == |chain| - 1
  }

  ghost predicate HeaderKnown(a: Assembly) {
    if |a.data| < FRAME_HEADER_SIZE then a.expected == 0
    else a.expected == FRAME_HEADER_SIZE + Get16(a.data[16..18]) as nat <= MAXIMUM_FRAME_SIZE &&
         Get16(a.data[0..2]) == FRAME_MAGIC
  }

  ghost predicate Collecting(a: Assembly, chain: seq<seq<byte>>) {
    a.active ==>
      Contiguous(chain, a.frameId) && OnlyLastEnds(chain, false) && a.data == Joined(chain) && HeaderKnown(a) &&
      (a.expected != 0 ==> |a.data| < a.expected)
  }

  lemma ContiguousExtends(chain: seq<seq<byte>>, id: uint16, packet: seq<byte>)
    requires Contiguous(chain, id) && OnlyLastEnds(chain, false)
    requires WellFormedPacket(packet) && !IsStart(packet) && IdOf(packet) == id
    requires OffsetOf(packet) == |Joined(chain)|
    ensures Contiguous(chain + [packet], id) && Joined(chain + [packet]) == Joined(chain) + DataOf(packet)
    ensures OnlyLastEnds(chain + [packet], IsEnd(packet))
  {
    var longer := chain + [packet];
    assert longer[..|chain|] == chain;
    forall i | 0 <= i < |longer| ensures OffsetOf(longer[i]) == |Joined(longer[..i])| {
      if i < |chain| {
        assert longer[..i] == chain[..i];
      }
    }
  }

  lemma StartIsContiguous(packet: seq<byte>)
    requires WellFormedPacket(packet) && IsStart(packet) && OffsetOf(packet) == 0
    ensures Contiguous([packet], IdOf(packet)) && Joined([packet]) == DataOf(packet)
    ensures OnlyLastEnds([packet], IsEnd(packet))
  {
    assert [packet][..0] == [];
  }

  ghost predicate Completed(a: Assembly, chain: seq<seq<byte>>) {
    Contiguous(chain, a.frameId) && OnlyLastEnds(chain, true) && a.data == Joined(chain) && HeaderKnown(a) &&
    |a.data| == a.expected
  }

  // One append, given the chain the packet would extend.
  lemma AppendCollects(a: Assembly, packet: seq<byte>, chain: seq<seq<byte>>)
    requires a.active && HeaderKnown(a) && WellFormedPacket(packet)
    requires OffsetOf(packet) == |a.data| ==>
      Contiguous(chain, a.frameId) && OnlyLastEnds(chain, IsEnd(packet)) && Joined(chain) == a.data + DataOf(packet)
    ensures var (next, status) := Append(a, packet);
      match status
      case FragmentAccepted => next.active && Collecting(next, chain)
      case FrameComplete => !next.active && Completed(next, chain)
      case _ => next == a || next == EMPTY
  {
    hide Contiguous, Joined, OnlyLastEnds;
    assert |a.data| >= FRAME_HEADER_SIZE ==>
      (a.data + DataOf(packet))[16..18] == a.data[16..18] && (a.data + DataOf(packet))[0..2] == a.data[0..2];
  }

  lemma StepCollects(a: Assembly, packet: seq<byte>, chain: seq<seq<byte>>)
    requires Collecting(a, chain)
    ensures var (next, status) := Accept(a, packet);
      var longer := if WellFormedPacket(packet) && IsStart(packet) then [packet] else chain + [packet];
      match status
      case FragmentAccepted => Collecting(next, longer)
      case FrameComplete => !next.active && Completed(next, longer)
      case _ => Collecting(next, chain)
  {
    hide Append, OnlyLastEnds, Contiguous, Joined;
    if WellFormedPacket(packet) {
      if IsStart(packet) {
        if OffsetOf(packet) == 0 {
          StartIsContiguous(packet);
          assert [] + DataOf(packet) == DataOf(packet);
          AppendCollects(Assembly([], 0, IdOf(packet), true), packet, [packet]);
          StartNeverKept(packet);
        }
      } else if a.active && IdOf(packet) == a.frameId {
        if OffsetOf(packet) == |a.data| {
          ContiguousExtends(chain, a.frameId, packet);
        }
        AppendCollects(a, packet, chain + [packet]);
      }
    }
  }

  // A start fragment is either taken or clears the buffer.
  lemma StartNeverKept(packet: seq<byte>)
    requires WellFormedPacket(packet) && OffsetOf(packet) == 0
    ensures var (next, status) := Append(Assembly([], 0, IdOf(packet), true), packet);
      status == FragmentAccepted || status == FrameComplete || next == EMPTY
  {
  }

  lemma {:induction false} RunCollects(packets: seq<seq<byte>>)
    ensures Collecting(Run(packets), SinceStart(packets))
    ensures packets != [] && LastStatus(packets) == FrameComplete ==> Completed(Run(packets), SinceStart(packets))
  {
    hide Accept, Collecting, Completed;
    if packets == [] {
      NothingCollected();
    } else {
      var n := |packets| - 1;
      RunCollects(packets[..n]);
      StepCollects(Run(packets[..n]), packets[n], SinceStart(packets[..n]));
      if LastStatus(packets) == FrameComplete {
        CompletedCollects(Run(packets), SinceStart(packets));
      }
    }
  }

  lemma NothingCollected()
    ensures Collecting(EMPTY, [])
  {
  }

  lemma CompletedCollects(a: Assembly, chain: seq<seq<byte>>)
    requires !a.active
    ensures Collecting(a, chain)
  {
  }

  /** Whenever a run of arbitrary packets ends in a complete frame, the buffer is the joined data of the
      packets accepted since the latest start, in order and of one frame, and has the declared length. */
  lemma CompleteFrameIsJoinedFragments(packets: seq<seq<byte>>)
    requires packets != [] && LastStatus(packets) == FrameComplete
    ensures var a, chain := Run(packets), SinceStart(packets);
      && Contiguous(chain, a.frameId) && OnlyLastEnds(chain, true)
      && a.data == Joined(chain) && |a.data| >= FRAME_HEADER_SIZE
      && |a.data| == FRAME_HEADER_SIZE + Get16(a.data[16..18]) as nat && Get16(a.data[0..2]) == FRAME_MAGIC
  {
    RunCollects(packets);
  }

  // --- fragments fed in order rebuild the frame -------------------------------

  lemma PacketFields(id: uint16, offset: uint16, first: bool, last: bool, data: seq<byte>)
    requires data != []
    ensures var p := Packet(id, offset, first, last, data);
      && WellFormedPacket(p) && (IsStart(p) <==> first) && (IsEnd(p) <==> last)
      && IdOf(p) == id && OffsetOf(p) == offset as nat && DataOf(p) == data
  {
    var p := Packet(id, offset, first, last, data);
    assert p[4..6] == Le16(id) && p[6..8] == Le16(offset);
    Get16Le16(id);
    Get16Le16(offset);
  }

  /** A byte string that declares its own length, as every encoded frame does. */
  ghost predicate SelfSized(frame: seq<byte>) {
    FRAME_HEADER_SIZE <= |frame| <= MAXIMUM_FRAME_SIZE && Get16(frame[0..2]) == FRAME_MAGIC &&
    |frame| == FRAME_HEADER_SIZE + Get16(frame[16..18]) as nat
  }

  lemma FramesAreSelfSized(h: FrameHeader, payload: seq<byte>)
    requires |payload| <= MAXIMUM_PAYLOAD_SIZE
    ensures SelfSized(FrameBytes(h, payload))
  {
    FrameParts(h, payload);
    Get16Le16(FRAME_MAGIC);
    Get16Le16(|payload| as uint16);
  }

  /** The reassembler after fragments 0 .. n-1 of a frame, whatever state it was in before. */
  function Feed(a: Assembly, frame: seq<byte>, id: uint16, packetCapacity: nat, n: nat): Assembly
    requires n <= FragmentCount(|frame|, packetCapacity)
  {
    if n == 0 then a
    else Accept(Feed(a, frame, id, packetCapacity, n - 1), Fragment(frame, id, n - 1, packetCapacity)).0
  }

  // The fragment that carries bytes o .. o+size of a frame, arriving when the bytes before o are held.
  lemma FragmentAdvances(a: Assembly, frame: seq<byte>, o: nat, size: nat, id: uint16)
    requires SelfSized(frame) && size > 0 && o + size <= |frame|
    requires o > 0 ==> a.active && a.frameId == id && a.data == frame[..o] && HeaderKnown(a)
    ensures var packet := Packet(id, o as uint16, o == 0, o + size == |frame|, frame[o..o + size]);
      var (next, status) := Accept(a, packet);
      && next.data == frame[..o + size] && next.frameId == id
      && (if o + size < |frame| then status == FragmentAccepted && next.active && HeaderKnown(next)
          else status == FrameComplete)
  {
    PacketFields(id, o as uint16, o == 0, o + size == |frame|, frame[o..o + size]);
    hide Packet, Get16;
    var data := frame[..o + size];
    assert frame[..o] + frame[o..o + size] == data;
    assert |data| >= FRAME_HEADER_SIZE ==> data[16..18] == frame[16..18] && data[0..2] == frame[0..2];
    assert o >= FRAME_HEADER_SIZE ==> frame[..o][16..18] == frame[16..18];
  }

  /** The first `o` bytes of the frame are held, and more are expected. */
  ghost predicate Holds(a: Assembly, frame: seq<byte>, id: uint16, o: nat) {
    o <= |frame| && (o > 0 ==> a.active && a.frameId == id && a.data == frame[..o] && HeaderKnown(a))
  }

  /** The bytes from `o` on, as many as a fragment carries, arriving when the bytes before them are held. */
  lemma PieceAdvances(a: Assembly, frame: seq<byte>, id: uint16, o: nat, d: nat)
    requires SelfSized(frame) && o < |frame| && d > 0 && Holds(a, frame, id, o)
    ensures var size := Min(d, |frame| - o);
      var (next, status) := Accept(a, Packet(id, o as uint16, o == 0, o + d >= |frame|, frame[o..o + size]));
      if o + d < |frame| then status == FragmentAccepted && Holds(next, frame, id, o + d)
      else status == FrameComplete && next.data == frame && next.frameId == id
  {
    hide Accept, HeaderKnown, Packet, SelfSized;
    var size := Min(d, |frame| - o);
    assert (o + size == |frame|) == (o + d >= |frame|);
    FragmentAdvances(a, frame, o, size, id);
    assert frame[..|frame|] == frame;
  }

  lemma NthAdvances(a: Assembly, frame: seq<byte>, id: uint16, packetCapacity: nat, n: nat, d: nat, o: nat)
    requires SelfSized(frame) && n < FragmentCount(|frame|, packetCapacity)
    requires d == packetCapacity - FRAGMENT_HEADER_SIZE && o == n * d && Holds(a, frame, id, o)
    ensures o < |frame|
    ensures var (next, status) := Accept(a, Fragment(frame, id, n, packetCapacity));
      if o + d < |frame| then
        status == FragmentAccepted && Holds(next, frame, id, o + d) && n + 1 < FragmentCount(|frame|, packetCapacity)
      else
        status == FrameComplete && next.data == frame && next.frameId == id && n + 1 == FragmentCount(|frame|, packetCapacity)
  {
    NthFragment(frame, id, packetCapacity, n, d, o);
    hide Accept, Holds, Packet, Fragment, FragmentCount, SelfSized, Min;
    PieceAdvances(a, frame, id, o, d);
  }

  lemma FeedsOne(a: Assembly, frame: seq<byte>, id: uint16, packetCapacity: nat, n: nat)
    requires n < FragmentCount(|frame|, packetCapacity)
    ensures Feed(a, frame, id, packetCapacity, 0) == a
    ensures Feed(a, frame, id, packetCapacity, n + 1) ==
            Accept(Feed(a, frame, id, packetCapacity, n), Fragment(frame, id, n, packetCapacity)).0
  {
    hide Accept, Fragment, FragmentCount;
  }

  lemma NothingHeld(a: Assembly, frame: seq<byte>, id: uint16)
    ensures Holds(a, frame, id, 0)
  {
  }

  lemma OneLess(n: nat, d: nat)
    requires n > 0
    ensures (n - 1) * d == n * d - d
  {
  }

  /** The first `n` fragments are held, which reach up to `o`. */
  lemma {:induction false} FeedHolds(a: Assembly, frame: seq<byte>, id: uint16, packetCapacity: nat, n: nat, d: nat, o: nat)
    requires SelfSized(frame) && n < FragmentCount(|frame|, packetCapacity)
    requires d == packetCapacity - FRAGMENT_HEADER_SIZE && o == n * d
    ensures Holds(Feed(a, frame, id, packetCapacity, n), frame, id, o)
    decreases n
  {
    hide Accept, Holds, Fragment, FragmentCount, SelfSized, Feed;
    if n == 0 {
      NothingHeld(a, frame, id);
      FeedsOne(a, frame, id, packetCapacity, 0);
    } else {
      OneLess(n, d);
      MultiplyMonotone(0, n - 1, d);
      FeedHolds(a, frame, id, packetCapacity, n - 1, d, o - d);
      FeedsOne(a, frame, id, packetCapacity, n - 1);
      NthAdvances(Feed(a, frame, id, packetCapacity, n - 1), frame, id, packetCapacity, n - 1, d, o - d);
    }
  }

  lemma FeedStep(a: Assembly, frame: seq<byte>, id: uint16, packetCapacity: nat, n: nat)
    requires SelfSized(frame) && n < FragmentCount(|frame|, packetCapacity)
    ensures var (next, status) := Accept(Feed(a, frame, id, packetCapacity, n), Fragment(frame, id, n, packetCapacity));
      if n + 1 < FragmentCount(|frame|, packetCapacity) then status == FragmentAccepted
      else status == FrameComplete && next.data == frame
  {
    hide Accept, Fragment, SelfSized, Feed, Holds;
    var d: nat := packetCapacity - FRAGMENT_HEADER_SIZE;
    MultiplyMonotone(0, n, d);
    FeedHolds(a, frame, id, packetCapacity, n, d, n * d);
    NthAdvances(Feed(a, frame, id, packetCapacity, n), frame, id, packetCapacity, n, d, n * d);
  }

  /** Fragment `n` carries the bytes from its offset on, and is the last when it reaches the end. */
  lemma NthFragment(frame: seq<byte>, id: uint16, packetCapacity: nat, n: nat, d: nat, o: nat)
    requires n < FragmentCount(|frame|, packetCapacity)
    requires d == packetCapacity - FRAGMENT_HEADER_SIZE && o == n * d
    ensures d > 0 && o < |frame| < 0x1_0000 && (o == 0 <==> n == 0)
    ensures n + 1 < FragmentCount(|frame|, packetCapacity) <==> o + d < |frame|
    ensures Fragment(frame, id, n, packetCapacity) ==
            Packet(id, o as uint16, o == 0, o + d >= |frame|, frame[o..o + Min(d, |frame| - o)])
  {
    hide Packet;
    CountCovers(|frame|, d, n);
    CountCovers(|frame|, d, n + 1);
    if n > 0 {
      MultiplyMonotone(1, n, d);
    }
    assert (n + 1) * d == o + d;
  }

  lemma FrameHasFragments(frame: seq<byte>, packetCapacity: nat)
    requires SelfSized(frame) && packetCapacity > FRAGMENT_HEADER_SIZE
    ensures FragmentCount(|frame|, packetCapacity) > 0
  {
    CountCovers(|frame|, packetCapacity - FRAGMENT_HEADER_SIZE, 0);
  }

  lemma AllFragments(a: Assembly, frame: seq<byte>, id: uint16, packetCapacity: nat)
    requires SelfSized(frame) && packetCapacity > FRAGMENT_HEADER_SIZE
    ensures Feed(a, frame, id, packetCapacity, FragmentCount(|frame|, packetCapacity)).data == frame
  {
    hide Accept, Fragment, HeaderKnown;
    FrameHasFragments(frame, packetCapacity);
    var count := FragmentCount(|frame|, packetCapacity);
    FeedStep(a, frame, id, packetCapacity, count - 1);
  }

  /** From any earlier state, the fragments of an encoded frame are accepted one by one and the last completes it;
      decoding what was reassembled then returns the header and payload that were sent. */
  lemma FragmentsRebuildFrame(a: Assembly, h: FrameHeader, payload: seq<byte>, id: uint16, packetCapacity: nat)
    requires Encodable(h, payload) && packetCapacity > FRAGMENT_HEADER_SIZE
    ensures var frame := FrameBytes(h, payload);
      var count := FragmentCount(|frame|, packetCapacity);
      && count > 0
      && (forall n | 0 <= n < count ::
            Accept(Feed(a, frame, id, packetCapacity, n), Fragment(frame, id, n, packetCapacity)).1 ==
            if n + 1 < count then FragmentAccepted else FrameComplete)
      && Feed(a, frame, id, packetCapacity, count).data == frame
      && DecodeFrame(Feed(a, frame, id, packetCapacity, count).data, h.major, h.minor) == View(h, payload)
  {
    hide FrameBytes, DecodeFrame, Accept, Fragment, SelfSized;
    var frame := FrameBytes(h, payload);
    FramesAreSelfSized(h, payload);
    FrameHasFragments(frame, packetCapacity);
    var count := FragmentCount(|frame|, packetCapacity);
    forall n | 0 <= n < count
      ensures Accept(Feed(a, frame, id, packetCapacity, n), Fragment(frame, id, n, packetCapacity)).1 ==
              if n + 1 < count then FragmentAccepted else FrameComplete
    {
      FeedStep(a, frame, id, packetCapacity, n);
    }
    AllFragments(a, frame, id, packetCapacity);
    DecodeInvertsEncode(h, payload, h.major, h.minor);
  }
}
