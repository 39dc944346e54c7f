/** Checksummed companion frames: a 24-byte header and up to 4096 bytes of payload. */
module Frame {
  import opened Bytes
  import opened Crc32

  const FRAME_MAGIC: uint16 := 0x435a
  const FRAME_HEADER_SIZE: nat := 24
  const MAXIMUM_PAYLOAD_SIZE: nat := 4096
  const MAXIMUM_FRAME_SIZE: nat := FRAME_HEADER_SIZE + MAXIMUM_PAYLOAD_SIZE
  const LAST_MESSAGE_CLASS: byte := 3
  // kAckRequested | kResponse | kRetriable: any other bit makes the value 8 or more.
  const FLAG_LIMIT: byte := 8

  datatype ProtocolStatus =
    | Ok
    | InvalidArgument
    | BufferTooSmall
    | BadMagic
    | UnsupportedVersion
    | InvalidMessageClass
    | InvalidFlags
    | InvalidReservedField
    | Oversized
    | Truncated
    | CrcMismatch
    | MalformedTlv
    | UnexpectedFragment
    | OutOfOrderFragment
    | FragmentAccepted
    | FrameComplete

  datatype FrameHeader = FrameHeader(
    major: byte,
    minor: byte,
    messageClass: byte,
    flags: byte,
    messageType: uint16,
    requestId: uint32,
    sequence: uint32)

  datatype Decoded = View(header: FrameHeader, payload: seq<byte>) | Rejected(status: ProtocolStatus)

  predicate Encodable(h: FrameHeader, payload: seq<byte>) {
    h.messageClass <= LAST_MESSAGE_CLASS && h.flags < FLAG_LIMIT && |payload| <= MAXIMUM_PAYLOAD_SIZE
  }

  /** The twenty bytes in front of the checksum. */
  function HeaderBytes(h: FrameHeader, payloadSize: uint16): (s: seq<byte>)
    ensures |s| == 20
  {
    Le16(FRAME_MAGIC) + [h.major, h.minor, h.messageClass, h.flags] + Le16(h.messageType) +
    Le32(h.requestId) + Le32(h.sequence) + Le16(payloadSize) + Le16(0)
  }

  /** The frame of a header and a payload. */
  function FrameBytes(h: FrameHeader, payload: seq<byte>): (f: seq<byte>)
    requires |payload| <= MAXIMUM_PAYLOAD_SIZE
    ensures |f| == FRAME_HEADER_SIZE + |payload|
  {
    var head := HeaderBytes(h, |payload| as uint16);
    head + WordBytes(Checksum(payload, Checksum(head, 0))) + payload
  }

  /** The bytes the checksum covers. */
  function Covered(frame: seq<byte>): seq<byte>
    requires |frame| >= FRAME_HEADER_SIZE
  {
    frame[..20] + frame[FRAME_HEADER_SIZE..]
  }

  function DecodeFrame(frame: seq<byte>, supportedMajor: byte, maximumMinor: byte): Decoded {
    if |frame| < FRAME_HEADER_SIZE then Rejected(Truncated)
    else if Get16(frame[0..2]) != FRAME_MAGIC then Rejected(BadMagic)
    else if frame[2] != supportedMajor || frame[3] > maximumMinor then Rejected(UnsupportedVersion)
    else if frame[4] > LAST_MESSAGE_CLASS then Rejected(InvalidMessageClass)
    else if frame[5] >= FLAG_LIMIT then Rejected(InvalidFlags)
    else if Get16(frame[18..20]) != 0 then Rejected(InvalidReservedField)
    else
      var payloadSize := Get16(frame[16..18]) as nat;
      if payloadSize > MAXIMUM_PAYLOAD_SIZE then Rejected(Oversized)
      else if |frame| < FRAME_HEADER_SIZE + payloadSize then Rejected(Truncated)
      else if |frame| > FRAME_HEADER_SIZE + payloadSize then Rejected(Oversized)
      else if Checksum(frame[FRAME_HEADER_SIZE..], Checksum(frame[..20], 0)) != Word(frame[20..24]) then
        Rejected(CrcMismatch)
      else
        View(FrameHeader(frame[2], frame[3], frame[4], frame[5], Get16(frame[6..8]),
                         Get32(frame[8..12]), Get32(frame[12..16])),
             frame[FRAME_HEADER_SIZE..])
  }

  function EncodeStatus(h: FrameHeader, payload: seq<byte>, capacity: nat): ProtocolStatus {
    if h.messageClass > LAST_MESSAGE_CLASS then InvalidMessageClass
    else if h.flags >= FLAG_LIMIT then InvalidFlags
    else if |payload| > MAXIMUM_PAYLOAD_SIZE then Oversized
    else if capacity < FRAME_HEADER_SIZE + |payload| then BufferTooSmall
    else Ok
  }

  method Put(output: array<byte>, at: nat, data: seq<byte>)
    requires at + |data| <= output.Length
    modifies output
    ensures output[..] == old(output[..at]) + data + old(output[at + |data|..])
  {
    for i := 0 to |data|
      invariant output[..] == old(output[..at]) + data[..i] + old(output[at + i..])
    {
      output[at + i] := data[i];
    }
  }

  method EncodeFrame(h: FrameHeader, payload: seq<byte>, output: array<byte>)
    returns (status: ProtocolStatus, size: nat)
    modifies output
    ensures status == EncodeStatus(h, payload, output.Length)
    ensures status == Ok ==>
      Encodable(h, payload) && size == FRAME_HEADER_SIZE + |payload| <= output.Length &&
      output[..] == FrameBytes(h, payload) + old(output[size..])
    ensures status != Ok ==> size == 0 && output[..] == old(output[..])
  {
    hide Checksum;
    size := 0;
    status := EncodeStatus(h, payload, output.Length);
    if status != Ok {
      return;
    }
    var frameSize := FRAME_HEADER_SIZE + |payload|;
    ghost var rest := output[frameSize..];
    var head := HeaderBytes(h, |payload| as uint16);
    Put(output, 0, head);
    Put(output, 20, Le32(0));
    Put(output, FRAME_HEADER_SIZE, payload);
    assert output[..20] == head && output[FRAME_HEADER_SIZE..frameSize] == payload && output[frameSize..] == rest;
    var crc := Crc(output[..20], 0);
    crc := Crc(output[FRAME_HEADER_SIZE..frameSize], crc);
    Put(output, 20, WordBytes(crc));
    assert output[..] == FrameBytes(h, payload) + rest;
    size := frameSize;
  }

  // --- decoding inverts encoding, and accepts nothing else -------------------

  lemma HeaderFields(h: FrameHeader, n: uint16)
    ensures var s := HeaderBytes(h, n);
      && s[0..2] == Le16(FRAME_MAGIC) && s[2..6] == [h.major, h.minor, h.messageClass, h.flags]
      && s[6..8] == Le16(h.messageType) && s[8..12] == Le32(h.requestId)
      && s[12..16] == Le32(h.sequence) && s[16..18] == Le16(n) && s[18..20] == Le16(0)
  {
  }

  lemma FrameParts(h: FrameHeader, payload: seq<byte>)
    requires |payload| <= MAXIMUM_PAYLOAD_SIZE
    ensures var f := FrameBytes(h, payload);
      && f[..20] == HeaderBytes(h, |payload| as uint16) && f[FRAME_HEADER_SIZE..] == payload
      && f[20..24] == WordBytes(Checksum(payload, Checksum(f[..20], 0)))
      && f[0..2] == Le16(FRAME_MAGIC)
      && f[2] == h.major && f[3] == h.minor && f[4] == h.messageClass && f[5] == h.flags
      && f[6..8] == Le16(h.messageType) && f[8..12] == Le32(h.requestId)
      && f[12..16] == Le32(h.sequence) && f[16..18] == Le16(|payload| as uint16) && f[18..20] == Le16(0)
  {
    hide Checksum, WordBytes, Le16, Le32, HeaderBytes;
    var f := FrameBytes(h, payload);
    var n := |payload| as uint16;
    var head := HeaderBytes(h, n);
    HeaderFields(h, n);
    assert f[..20] == head;
    assert f[0..2] == head[0..2] && f[2..6] == head[2..6] && f[6..8] == head[6..8] && f[8..12] == head[8..12];
    assert f[12..16] == head[12..16] && f[16..18] == head[16..18] && f[18..20] == head[18..20];
    assert f[2] == f[2..6][0] && f[3] == f[2..6][1] && f[4] == f[2..6][2] && f[5] == f[2..6][3];
  }

  /** Where each part of a frame stands, byte by byte. */
  lemma FrameLayout(h: FrameHeader, payload: seq<byte>)
    requires |payload| <= MAXIMUM_PAYLOAD_SIZE
    ensures var f := FrameBytes(h, payload);
      && |f| == 24 + |payload|
      && f[0] == 0x5a && f[1] == 0x43 && f[2] == h.major && f[3] == h.minor && f[4] == h.messageClass && f[5] == h.flags
      && Little(f, 6, 2) == h.messageType as nat && Little(f, 8, 4) == h.requestId as nat
      && Little(f, 12, 4) == h.sequence as nat && Little(f, 16, 2) == |payload| && Little(f, 18, 2) == 0
      && f[24..] == payload
  {
    hide Le32, HeaderBytes, FrameBytes, Little;
    FrameParts(h, payload);
    var f := FrameBytes(h, payload);
    assert f[0] == f[0..2][0] && f[1] == f[0..2][1];
    hide Le16;
    Le16Stands(f, 6, h.messageType);
    Le32Stands(f, 8, h.requestId);
    Le32Stands(f, 12, h.sequence);
    Le16Stands(f, 16, |payload| as uint16);
    Le16Stands(f, 18, 0);
  }

  /** A frame is refused to be made exactly for an unknown class or flag, a large payload or a small buffer. */
  lemma EncodedExactly(h: FrameHeader, payload: seq<byte>, capacity: nat)
    ensures var status := EncodeStatus(h, payload, capacity);
      && (status == InvalidMessageClass <==> h.messageClass > 3)
      && (status == InvalidFlags ==> h.flags > 7)
      && (status == Ok <==> Encodable(h, payload) && |FrameBytes(h, payload)| <= capacity)
      && (Encodable(h, payload) && status != Ok ==> status == BufferTooSmall)
  {
  }

  /** A frame that is cut short, or has anything behind it, is told by its length. */
  lemma WrongLengthIsRejected(h: FrameHeader, payload: seq<byte>, k: nat, behind: seq<byte>)
    requires Encodable(h, payload) && behind != []
    ensures k < |FrameBytes(h, payload)| ==>
              DecodeFrame(FrameBytes(h, payload)[..k], h.major, h.minor) == Rejected(Truncated)
    ensures DecodeFrame(FrameBytes(h, payload) + behind, h.major, h.minor) == Rejected(Oversized)
  {
    hide Checksum, WordBytes, Le16, Le32, HeaderBytes, FrameBytes, Get16, Get32, Word;
    FrameParts(h, payload);
    Get16Le16(FRAME_MAGIC);
    Get16Le16(0);
    Get16Le16(|payload| as uint16);
    var f := FrameBytes(h, payload);
    if FRAME_HEADER_SIZE <= k < |f| {
      assert f[..k][0..2] == f[0..2] && f[..k][16..18] == f[16..18] && f[..k][18..20] == f[18..20];
    }
    var g := f + behind;
    assert g[0..2] == f[0..2] && g[16..18] == f[16..18] && g[18..20] == f[18..20];
  }

  /** Decoding a frame returns the header and payload it was made of, unless its version is refused. */
  lemma DecodeInvertsEncode(h: FrameHeader, payload: seq<byte>, supportedMajor: byte, maximumMinor: byte)
    requires Encodable(h, payload)
    ensures DecodeFrame(FrameBytes(h, payload), supportedMajor, maximumMinor) ==
            if h.major == supportedMajor && h.minor <= maximumMinor then View(h, payload)
            else Rejected(UnsupportedVersion)
  {
    hide Checksum, WordBytes, Le16, Le32, HeaderBytes, FrameBytes, Get16, Get32, Word;
    FrameParts(h, payload);
    Get16Le16(FRAME_MAGIC);
    Get16Le16(0);
    Get16Le16(h.messageType);
    Get16Le16(|payload| as uint16);
    Get32Le32(h.requestId);
    Get32Le32(h.sequence);
    var f := FrameBytes(h, payload);
    WordOfWordBytes(Checksum(payload, Checksum(f[..20], 0)));
  }

  /** Every accepted byte string is exactly the frame of what decoding returned. */
  lemma DecodeAcceptsOnlyFrames(frame: seq<byte>, supportedMajor: byte, maximumMinor: byte)
    requires DecodeFrame(frame, supportedMajor, maximumMinor).View?
    ensures var v := DecodeFrame(frame, supportedMajor, maximumMinor);
      && Encodable(v.header, v.payload) && frame == FrameBytes(v.header, v.payload)
      && v.header.major == supportedMajor && v.header.minor <= maximumMinor
  {
    hide Checksum, WordBytes, Le16, Le32, Get16, Get32, Word;
    var v := DecodeFrame(frame, supportedMajor, maximumMinor);
    Le16Get16(frame[0..2]);
    Le16Get16(frame[6..8]);
    Le32Get32(frame[8..12]);
    Le32Get32(frame[12..16]);
    Le16Get16(frame[16..18]);
    Le16Get16(frame[18..20]);
    var head := HeaderBytes(v.header, |v.payload| as uint16);
    assert frame[2..6] == [v.header.major, v.header.minor, v.header.messageClass, v.header.flags];
    assert frame[..20] == frame[0..2] + frame[2..6] + frame[6..8] + frame[8..12] + frame[12..16] + frame[16..18] + frame[18..20];
    assert frame[..20] == head;
    var c := Checksum(v.payload, Checksum(head, 0));
    WordOfWordBytes(c);
    WordInjective(frame[20..24], WordBytes(c));
    assert frame == frame[..20] + frame[20..24] + frame[FRAME_HEADER_SIZE..];
  }

  // --- error detection ------------------------------------------------------

  lemma FrameChecksum(h: FrameHeader, payload: seq<byte>)
    requires |payload| <= MAXIMUM_PAYLOAD_SIZE
    ensures FrameBytes(h, payload)[20..24] == WordBytes(Checksum(Covered(FrameBytes(h, payload)), 0))
  {
    hide Checksum, WordBytes, HeaderBytes;
    FrameParts(h, payload);
    var f := FrameBytes(h, payload);
    ChecksumChains(f[..20], payload);
  }

  /** A frame and its corruption agree outside four consecutive covered bytes, or outside the checksum. */
  ghost predicate Corruption(frame: seq<byte>, received: seq<byte>) {
    && |frame| == |received| >= FRAME_HEADER_SIZE
    && ((frame[20..24] == received[20..24] &&
         exists at: nat, size: nat :: BurstError(Covered(frame), Covered(received), at, size))
        || (frame[20..24] != received[20..24] && Covered(frame) == Covered(received)))
  }

  /** No burst of up to four bytes, in what the checksum covers or in the checksum, goes unnoticed. */
  lemma CorruptionIsRejected(h: FrameHeader, payload: seq<byte>, received: seq<byte>, supportedMajor: byte, maximumMinor: byte)
    requires Encodable(h, payload)
    requires Corruption(FrameBytes(h, payload), received)
    ensures DecodeFrame(received, supportedMajor, maximumMinor).Rejected?
  {
    hide Checksum, DecodeFrame, FrameBytes, WordBytes, HeaderBytes;
    var frame := FrameBytes(h, payload);
    if DecodeFrame(received, supportedMajor, maximumMinor).View? {
      DecodeAcceptsOnlyFrames(received, supportedMajor, maximumMinor);
      var v := DecodeFrame(received, supportedMajor, maximumMinor);
      FrameChecksum(h, payload);
      FrameChecksum(v.header, v.payload);
      WordOfWordBytes(Checksum(Covered(frame), 0));
      WordOfWordBytes(Checksum(Covered(received), 0));
      if frame[20..24] == received[20..24] {
        var at: nat, size: nat :| BurstError(Covered(frame), Covered(received), at, size);
        BurstChangesChecksum(Covered(frame), Covered(received), at, size);
      }
    }
  }

  /** A frame with any one byte changed is rejected. */
  lemma OneChangedByteIsRejected(h: FrameHeader, payload: seq<byte>, at: nat, b: byte, supportedMajor: byte, maximumMinor: byte)
    requires Encodable(h, payload)
    requires at < |FrameBytes(h, payload)| && FrameBytes(h, payload)[at] != b
    ensures DecodeFrame(FrameBytes(h, payload)[at := b], supportedMajor, maximumMinor).Rejected?
  {
    hide Checksum, DecodeFrame, FrameBytes, WordBytes, HeaderBytes;
    var frame := FrameBytes(h, payload);
    var received := frame[at := b];
    var x, y := Covered(frame), Covered(received);
    if 20 <= at < 24 {
      assert frame[20..24][at - 20] != received[20..24][at - 20];
      assert x == y;
    } else {
      var k: nat := if at < 20 then at else at - 4;
      assert x[k] == frame[at] && y[k] == b;
      assert forall i | 0 <= i < |x| && i != k :: x[i] == y[i];
      assert x[k..k + 1][0] != y[k..k + 1][0];
      assert BurstError(x, y, k, 1);
      assert frame[20..24] == received[20..24];
    }
    CorruptionIsRejected(h, payload, received, supportedMajor, maximumMinor);
  }
}
