/** The user memory of the NFC tag, written and read in blocks of sixteen bytes, and the NDEF message it holds. */
module Nfc {
  import opened Bytes
  import opened Arithmetic

  const BLOCK_SIZE: nat := 16
  const USER_START_BLOCK: nat := 0x01
  const USER_END_BLOCK: nat := 0x37
  const USER_CAPACITY: nat := (USER_END_BLOCK - USER_START_BLOCK + 1) * BLOCK_SIZE
  const USER_BASE: nat := USER_START_BLOCK * BLOCK_SIZE
  const CHIP_SIZE: nat := (USER_END_BLOCK + 1) * BLOCK_SIZE

  const NULL_TLV: byte := 0x00
  const NDEF_TLV: byte := 0x03
  const TERMINATOR_TLV: byte := 0xfe
  const LONG_LENGTH: byte := 0xff

  datatype Status = Ok | InvalidArgument | InvalidSize | NotReady | TransferFailed | InvalidResponse | NotFound

  function Zeros(n: nat): (s: seq<byte>)
    ensures |s| == n && forall i :: 0 <= i < n ==> s[i] == 0
  {
    seq(n, _ => 0)
  }

  predicate IsValidUserRange(offset: nat, size: nat) { offset <= USER_CAPACITY && size <= USER_CAPACITY - offset }

  /** The zeros that fill the last block behind `size` bytes. */
  function Padding(size: nat): (s: seq<byte>)
  {
    Zeros((BLOCK_SIZE - size % BLOCK_SIZE) % BLOCK_SIZE)
  }

  /** Memory in which `data` replaced its slice and zeros fill the rest of its last block. */
  function Written(memory: seq<byte>, offset: nat, data: seq<byte>): (r: seq<byte>)
    requires offset + |data| + |Padding(|data|)| <= |memory|
    ensures |r| == |memory|
  {
    memory[..offset] + data + Padding(|data|) + memory[offset + |data| + |Padding(|data|)|..]
  }

  lemma PaddingFits(offset: nat, size: nat)
    requires offset % BLOCK_SIZE == 0 && offset + size <= USER_CAPACITY
    ensures offset + size + |Padding(size)| <= USER_CAPACITY
  {
  }

  /** Sending the next block of a write. */
  lemma WriteContinues(memory: seq<byte>, base: nat, data: seq<byte>, sent: nat, chunk: nat)
    requires base + |data| + |Padding(|data|)| <= |memory|
    requires sent % BLOCK_SIZE == 0 && sent < |data| && chunk == Min(|data| - sent, BLOCK_SIZE)
    ensures base + sent + BLOCK_SIZE <= base + |data| + |Padding(|data|)| && Padding(sent) == []
    ensures |Padding(sent + chunk)| == BLOCK_SIZE - chunk
    ensures var now := Written(memory, base, data[..sent]);
            now[..base + sent] + (data[sent..sent + chunk] + Zeros(BLOCK_SIZE - chunk)) + now[base + sent + BLOCK_SIZE..] ==
            Written(memory, base, data[..sent + chunk])
  {
    PaddedBlocks(|data|, sent);
    hide Padding;
    var front, block, end := data[..sent], data[sent..sent + chunk], base + sent + BLOCK_SIZE;
    assert data[..sent + chunk] == front + block;
    var now := Written(memory, base, front);
    assert now == memory[..base] + front + memory[base + sent..];
    assert now[..base + sent] == memory[..base] + front;
    assert now[end..] == memory[end..];
    var zeros := Zeros(BLOCK_SIZE - chunk);
    assert Padding(sent + chunk) == zeros;
    assert memory[base + |front + block| + |zeros|..] == memory[end..];
    Regroup(memory[..base], front, block, zeros, memory[end..]);
  }

  lemma Regroup(a: seq<byte>, b: seq<byte>, c: seq<byte>, d: seq<byte>, e: seq<byte>)
    ensures a + b + (c + d) + e == a + (b + c) + d + e
  {
  }

  lemma PaddedBlocks(size: nat, sent: nat)
    requires sent % BLOCK_SIZE == 0 && sent < size
    ensures Padding(sent) == [] && sent + BLOCK_SIZE <= size + |Padding(size)|
    ensures var chunk := Min(size - sent, BLOCK_SIZE);
            Padding(sent + chunk) == Zeros(BLOCK_SIZE - chunk)
  {
  }

  lemma WrittenUser(chip: seq<byte>, offset: nat, data: seq<byte>)
    requires |chip| == CHIP_SIZE && offset + |data| + |Padding(|data|)| <= USER_CAPACITY
    ensures var now := Written(chip, USER_BASE + offset, data);
            now[..USER_BASE] == chip[..USER_BASE] && now[USER_BASE..] == Written(chip[USER_BASE..], offset, data)
  {
  }

  lemma SlicesJoin(s: seq<byte>, a: nat, b: nat, c: nat)
    requires a <= b <= c <= |s|
    ensures s[a..b] + s[b..c] == s[a..c]
  {
  }

  /** What the block around `current` has of the bytes that remain to be read. */
  lemma BlockPart(chip: seq<byte>, current: nat, remaining: nat, block: seq<byte>)
    requires |chip| == CHIP_SIZE && 0 < remaining && current + remaining <= USER_CAPACITY
    requires var at := (USER_START_BLOCK + current / BLOCK_SIZE) * BLOCK_SIZE;
             at + BLOCK_SIZE <= CHIP_SIZE && block == chip[at..at + BLOCK_SIZE]
    ensures var inBlock := current % BLOCK_SIZE;
            var chunk := Min(remaining, BLOCK_SIZE - inBlock);
            0 < chunk && inBlock + chunk <= |block| &&
            block[inBlock..inBlock + chunk] == chip[USER_BASE + current..USER_BASE + current + chunk]
  {
    var inBlock := current % BLOCK_SIZE;
    var chunk := Min(remaining, BLOCK_SIZE - inBlock);
    var at := (USER_START_BLOCK + current / BLOCK_SIZE) * BLOCK_SIZE;
    assert at + inBlock == USER_BASE + current;
    SliceOfSlice(chip, at, BLOCK_SIZE, inBlock, chunk);
  }

  lemma UserSlice(chip: seq<byte>, offset: nat, size: nat)
    requires |chip| == CHIP_SIZE && offset + size <= USER_CAPACITY
    ensures chip[USER_BASE..][offset..offset + size] == chip[USER_BASE + offset..USER_BASE + offset + size]
  {
  }

  // --- the tag -----------------------------------------------------------------------

  class Nfc {
    const chip: array<byte>
    var initialized: bool
    var powered: bool

    ghost predicate Valid()
      reads this
    {
      chip.Length == CHIP_SIZE
    }

    ghost function User(): (u: seq<byte>)
      requires Valid()
      reads this, chip
      ensures |u| == USER_CAPACITY
    {
      chip[USER_BASE..]
    }

    constructor ()
      ensures Valid() && fresh(chip)
    {
      chip := new byte[CHIP_SIZE](_ => 0);
      initialized, powered := false, false;
    }

    method ReadBlockInternal(block: nat, works: bool) returns (status: Status, data: seq<byte>)
      requires Valid()
      ensures |data| == BLOCK_SIZE
      ensures status == if block > USER_END_BLOCK then InvalidArgument else if works then Ok else TransferFailed
      ensures status == Ok ==> data == chip[block * BLOCK_SIZE..(block + 1) * BLOCK_SIZE]
    {
      data := Zeros(BLOCK_SIZE);
      if block > USER_END_BLOCK {
        return InvalidArgument, data;
      }
      if !works {
        return TransferFailed, data;
      }
      return Ok, chip[block * BLOCK_SIZE..(block + 1) * BLOCK_SIZE];
    }

    /** Sends a whole block, zeros behind the data; a failed transfer may leave anything in that block. */
    method WriteBlockInternal(block: nat, data: seq<byte>, works: bool, left: seq<byte>) returns (status: Status)
      requires Valid() && |left| == BLOCK_SIZE
      modifies chip
      ensures status == if |data| > BLOCK_SIZE || block > USER_END_BLOCK then InvalidArgument
                        else if works then Ok else TransferFailed
      ensures status == InvalidArgument ==> chip[..] == old(chip[..])
      ensures status != InvalidArgument ==>
        chip[..] == old(chip[..block * BLOCK_SIZE]) +
                    (if works then data + Zeros(BLOCK_SIZE - |data|) else left) +
                    old(chip[(block + 1) * BLOCK_SIZE..])
    {
      if |data| > BLOCK_SIZE || block > USER_END_BLOCK {
        return InvalidArgument;
      }
      var buffer := data + Zeros(BLOCK_SIZE - |data|);
      var stored := if works then buffer else left;
      forall i | 0 <= i < BLOCK_SIZE {
        chip[block * BLOCK_SIZE + i] := stored[i];
      }
      status := if works then Ok else TransferFailed;
    }

    /** `works` tells of each block transfer whether it succeeds. */
    method ReadUserData(offset: nat, size: nat, works: seq<bool>) returns (status: Status, data: seq<byte>)
      requires Valid() && |works| > size
      ensures status == Ok && size > 0 ==> IsValidUserRange(offset, size) && data == User()[offset..offset + size]
      ensures status == Ok && size == 0 ==> data == []
      ensures status == InvalidSize <==> size > 0 && !IsValidUserRange(offset, size)
      ensures status == NotReady <==> size > 0 && IsValidUserRange(offset, size) && !(initialized && powered)
      ensures AllWork(works) && initialized && powered && (size == 0 || IsValidUserRange(offset, size)) ==>
        status == Ok
    {
      data := [];
      if size == 0 {
        return Ok, [];
      }
      if !IsValidUserRange(offset, size) {
        return InvalidSize, [];
      }
      if !initialized || !powered {
        return NotReady, [];
      }
      status, data := ReadBlocks(offset, size, works);
    }

    method ReadBlocks(offset: nat, size: nat, works: seq<bool>) returns (status: Status, data: seq<byte>)
      requires Valid() && |works| > size && size > 0 && IsValidUserRange(offset, size)
      ensures status == Ok || status == TransferFailed
      ensures status == Ok ==> data == User()[offset..offset + size]
      ensures AllWork(works) ==> status == Ok
    {
      ghost var memory := chip[..];
      data := [];
      status := Ok;
      var remaining, current := size, offset;
      while remaining > 0
        invariant 0 <= remaining <= size && current == offset + size - remaining
        invariant data == memory[USER_BASE + offset..USER_BASE + current]
        invariant AllWork(works) ==> status == Ok
      {
        var part;
        status, part := ReadPart(current, remaining, works[size - remaining]);
        if status != Ok {
          return status, data;
        }
        SlicesJoin(memory, USER_BASE + offset, USER_BASE + current, USER_BASE + current + |part|);
        data := data + part;
        current := current + |part|;
        remaining := remaining - |part|;
      }
      UserSlice(memory, offset, size);
      status := Ok;
    }

    // What the block around `current` has of the bytes that remain.
    method ReadPart(current: nat, remaining: nat, works: bool) returns (status: Status, part: seq<byte>)
      requires Valid() && remaining > 0 && current + remaining <= USER_CAPACITY
      ensures status == if works then Ok else TransferFailed
      ensures status == Ok ==>
        |part| == Min(remaining, BLOCK_SIZE - current % BLOCK_SIZE) && 0 < |part| <= remaining &&
        part == chip[..][USER_BASE + current..USER_BASE + current + |part|]
    {
      var inBlock := current % BLOCK_SIZE;
      var chunk := Min(remaining, BLOCK_SIZE - inBlock);
      var address := USER_START_BLOCK + current / BLOCK_SIZE;
      var block;
      status, block := ReadBlockInternal(address, works);
      BlockPart(chip[..], current, remaining, chip[..][address * BLOCK_SIZE..address * BLOCK_SIZE + BLOCK_SIZE]);
      part := block[inBlock..inBlock + chunk];
    }

    /** Writing is whole blocks; `left` is what a failed transfer leaves in its block. */
    method WriteUserData(offset: nat, data: seq<byte>, works: seq<bool>, left: seq<byte>) returns (status: Status)
      requires Valid() && |works| > |data| && |left| == BLOCK_SIZE
      modifies chip
      ensures status == InvalidArgument <==> offset % BLOCK_SIZE != 0
      ensures status == InvalidSize <==> offset % BLOCK_SIZE == 0 && data != [] && !IsValidUserRange(offset, |data|)
      ensures status == NotReady <==>
        offset % BLOCK_SIZE == 0 && data != [] && IsValidUserRange(offset, |data|) && !(initialized && powered)
      ensures AllWork(works) && initialized && powered && offset % BLOCK_SIZE == 0 &&
              (data == [] || IsValidUserRange(offset, |data|)) ==>
        status == Ok
      ensures status in {InvalidArgument, InvalidSize, NotReady} || data == [] ==> chip[..] == old(chip[..])
      ensures status == Ok && data != [] ==>
        offset + |data| + |Padding(|data|)| <= USER_CAPACITY && User() == Written(old(User()), offset, data)
      ensures chip[..USER_BASE] == old(chip[..USER_BASE])
      ensures status == TransferFailed ==>
        offset + |data| + |Padding(|data|)| <= USER_CAPACITY && User()[..offset] == old(User()[..offset]) &&
        User()[offset + |data| + |Padding(|data|)|..] == old(User()[offset + |data| + |Padding(|data|)|..])
    {
      if offset % BLOCK_SIZE != 0 {
        return InvalidArgument;
      }
      if data == [] {
        return Ok;
      }
      if !IsValidUserRange(offset, |data|) {
        return InvalidSize;
      }
      if !initialized || !powered {
        return NotReady;
      }
      PaddingFits(offset, |data|);
      ghost var before := chip[..];
      ghost var base := USER_BASE + offset;
      status := WriteBlocks(offset, data, works, left, before);
      if status == Ok {
        WrittenUser(before, offset, data);
      }
    }

    method WriteBlocks(offset: nat, data: seq<byte>, works: seq<bool>, left: seq<byte>, ghost before: seq<byte>)
      returns (status: Status)
      requires Valid() && |works| > |data| && |left| == BLOCK_SIZE && before == chip[..]
      requires offset % BLOCK_SIZE == 0 && offset + |data| + |Padding(|data|)| <= USER_CAPACITY
      modifies chip
      ensures status == Ok || status == TransferFailed
      ensures AllWork(works) ==> status == Ok
      ensures status == Ok ==> chip[..] == Written(before, USER_BASE + offset, data)
      ensures status == TransferFailed ==> OnlyInside(chip[..], before, offset, |data|)
    {
      hide Written, Padding;
      ghost var base := USER_BASE + offset;
      NothingWritten(before, base);
      var sent := 0;
      assert data[..0] == [];
      while sent < |data|
        invariant sent <= |data| && (sent < |data| ==> sent % BLOCK_SIZE == 0)
        invariant base + |data[..sent]| + |Padding(sent)| <= CHIP_SIZE
        invariant chip[..] == Written(before, base, data[..sent])
      {
        var chunk := Min(|data| - sent, BLOCK_SIZE);
        ghost var now := chip[..];
        WriteContinues(before, base, data, sent, chunk);
        var address := USER_START_BLOCK + (offset + sent) / BLOCK_SIZE;
        assert address * BLOCK_SIZE == base + sent;
        status := WriteBlockInternal(address, data[sent..sent + chunk], works[sent], left);
        if status != Ok {
          FailedInside(before, offset, data, sent, left, chip[..]);
          return;
        }
        sent := sent + chunk;
      }
      assert data[..sent] == data;
      status := Ok;
    }
  }

  predicate AllWork(works: seq<bool>) { forall i :: 0 <= i < |works| ==> works[i] }

  /** Only the blocks of a slice of user memory differ. */
  ghost predicate OnlyInside(now: seq<byte>, before: seq<byte>, offset: nat, size: nat) {
    |now| == |before| == CHIP_SIZE && USER_BASE + offset + size + |Padding(size)| <= CHIP_SIZE &&
    now[..USER_BASE + offset] == before[..USER_BASE + offset] &&
    now[USER_BASE + offset + size + |Padding(size)|..] == before[USER_BASE + offset + size + |Padding(size)|..]
  }

  lemma NothingWritten(memory: seq<byte>, base: nat)
    requires base <= |memory|
    ensures |Padding(0)| == 0 && Written(memory, base, []) == memory
  {
  }

  lemma FailedInside(before: seq<byte>, offset: nat, data: seq<byte>, sent: nat, left: seq<byte>, now: seq<byte>)
    requires |before| == CHIP_SIZE && offset + |data| + |Padding(|data|)| <= USER_CAPACITY && |left| == BLOCK_SIZE
    requires sent < |data| && sent % BLOCK_SIZE == 0 && |Padding(sent)| == 0
    requires USER_BASE + offset + sent + BLOCK_SIZE <= USER_BASE + offset + |data| + |Padding(|data|)|
    requires var base := USER_BASE + offset;
             var mid := Written(before, base, data[..sent]);
             now == mid[..base + sent] + left + mid[base + sent + BLOCK_SIZE..]
    ensures OnlyInside(now, before, offset, |data|)
  {
  }

  // --- the NDEF message --------------------------------------------------------------

  /** What scanning the user memory comes to. */
  datatype Scan = Found(message: seq<byte>) | Absent | Malformed

  /** The length field in front of a value: one byte, or a marker and two; the value begins at `at`. */
  datatype Length = Length(size: nat, at: nat) | Broken

  function LengthAt(raw: seq<byte>, cursor: nat): (l: Length)
    ensures l.Length? ==> cursor < l.at <= |raw|
  {
    if cursor >= |raw| then Broken
    else if raw[cursor] != LONG_LENGTH then Length(raw[cursor] as nat, cursor + 1)
    else if cursor + 2 >= |raw| then Broken
    else Length(256 * raw[cursor + 1] as nat + raw[cursor + 2] as nat, cursor + 3)
  }

  function ScanFrom(raw: seq<byte>, cursor: nat): Scan
    requires cursor <= |raw|
    decreases |raw| - cursor
  {
    if cursor == |raw| then Absent
    else if raw[cursor] == NULL_TLV then ScanFrom(raw, cursor + 1)
    else if raw[cursor] == TERMINATOR_TLV then Absent
    else
      match LengthAt(raw, cursor + 1)
      case Broken => Malformed
      case Length(size, at) =>
        if at + size > |raw| then Malformed
        else if raw[cursor] == NDEF_TLV then (if size == 0 then Absent else Found(raw[at..at + size]))
        else ScanFrom(raw, at + size)
  }

  function Scanned(raw: seq<byte>): Scan { ScanFrom(raw, 0) }

  /** A length above 0xfe in two bytes, which keep the low sixteen bits of it. */
  function LengthBytes(size: nat): (s: seq<byte>) {
    if size <= 0xfe then [size as byte] else [LONG_LENGTH, (size / 256 % 256) as byte, (size % 256) as byte]
  }

  function Type2Tlv(message: seq<byte>): (s: seq<byte>) {
    [NDEF_TLV] + LengthBytes(|message|) + message + [TERMINATOR_TLV]
  }

  /** The longest message leaves room for its header and the terminator. */
  predicate Fits(message: seq<byte>) {
    message != [] && |message| <= USER_CAPACITY - (if |message| <= 0xfe then 2 else 4) - 1
  }

  /** A message fits exactly when its value, with type, length and terminator, does not exceed the user memory. */
  lemma FitsExactly(message: seq<byte>)
    ensures Fits(message) <==> message != [] && IsValidUserRange(0, |Type2Tlv(message)|)
    ensures Fits(message) <==> 0 < |message| <= 875
    ensures |Type2Tlv(message)| == |message| + if |message| < 255 then 3 else 5
  {
  }

  /** A length as a reader takes it: in the long form any length, also a short one. */
  function Encoded(size: nat, long: bool): (s: seq<byte>)
    requires Encodable(size, long)
  {
    if long then [LONG_LENGTH, (size / 256) as byte, (size % 256) as byte] else [size as byte]
  }

  predicate Encodable(size: nat, long: bool) { size < if long then 0x1_0000 else 0xff }

  /** Null bytes and values of other types, which a reader steps over. */
  datatype Item = Null | Other(kind: byte, long: bool, value: seq<byte>)

  predicate SkippableItem(item: Item) {
    item.Other? ==> item.kind !in {NULL_TLV, NDEF_TLV, TERMINATOR_TLV} && Encodable(|item.value|, item.long)
  }

  ghost predicate Skippable(items: seq<Item>) {
    forall i :: 0 <= i < |items| ==> SkippableItem(items[i])
  }

  function ItemBytes(item: Item): (s: seq<byte>)
    requires SkippableItem(item)
    ensures s != []
  {
    match item
    case Null => [NULL_TLV]
    case Other(kind, long, value) => [kind] + Encoded(|value|, long) + value
  }

  ghost function ItemsBytes(items: seq<Item>): seq<byte>
    requires Skippable(items)
  {
    if items == [] then [] else ItemBytes(items[0]) + ItemsBytes(items[1..])
  }

  lemma LengthIsRead(before: seq<byte>, size: nat, long: bool, rest: seq<byte>)
    requires Encodable(size, long)
    ensures LengthAt(before + Encoded(size, long) + rest, |before|) == Length(size, |before| + |Encoded(size, long)|)
  {
    var raw := before + Encoded(size, long) + rest;
    assert raw[|before|] == Encoded(size, long)[0];
    if long {
      assert raw[|before| + 1] == Encoded(size, long)[1] && raw[|before| + 2] == Encoded(size, long)[2];
    }
  }

  /** A length that is read was encoded there. */
  lemma LengthWasEncoded(raw: seq<byte>, cursor: nat) returns (long: bool)
    requires LengthAt(raw, cursor).Length?
    ensures var l := LengthAt(raw, cursor);
            Encodable(l.size, long) && raw[cursor..l.at] == Encoded(l.size, long)
  {
    long := raw[cursor] == LONG_LENGTH;
  }

  lemma WrittenLength(size: nat)
    requires size < 0x1_0000
    ensures Encodable(size, size > 0xfe) && LengthBytes(size) == Encoded(size, size > 0xfe)
  {
  }

  /** A message is at the front, with anything behind it. */
  ghost predicate HasMessage(rest: seq<byte>, message: seq<byte>, long: bool) {
    message != [] && Encodable(|message|, long) && [NDEF_TLV] + Encoded(|message|, long) + message <= rest
  }

  /** The memory ends, or a terminator or an empty message is at the front. */
  ghost predicate HasNothing(rest: seq<byte>) {
    rest == [] || rest[0] == TERMINATOR_TLV || [NDEF_TLV, 0] <= rest || [NDEF_TLV, 0xff, 0, 0] <= rest
  }

  lemma NdefStep(raw: seq<byte>, cursor: nat, size: nat, at: nat)
    requires cursor < |raw| && raw[cursor] == NDEF_TLV && size > 0
    requires LengthAt(raw, cursor + 1) == Length(size, at) && at + size <= |raw|
    ensures ScanFrom(raw, cursor) == Found(raw[at..at + size])
  {
  }

  lemma MessageIsFound(before: seq<byte>, rest: seq<byte>, message: seq<byte>, long: bool)
    requires HasMessage(rest, message, long)
    ensures ScanFrom(before + rest, |before|) == Found(message)
  {
    hide Encoded, LengthAt, Encodable, ScanFrom;
    var raw, length := before + rest, Encoded(|message|, long);
    var head := [NDEF_TLV] + length + message;
    var behind := rest[|head|..];
    assert rest == head + behind;
    LengthIsRead(before + [NDEF_TLV], |message|, long, message + behind);
    assert raw == before + [NDEF_TLV] + length + (message + behind);
    var at := |before| + 1 + |length|;
    NdefStep(raw, |before|, |message|, at);
    assert raw[at..at + |message|] == message;
  }

  lemma NothingIsFound(before: seq<byte>, rest: seq<byte>)
    requires HasNothing(rest)
    ensures ScanFrom(before + rest, |before|) == Absent
  {
    var raw, c := before + rest, |before|;
    if rest != [] && rest[0] != TERMINATOR_TLV {
      assert raw[c] == NDEF_TLV && raw[c + 1] == rest[1];
      if [NDEF_TLV, 0xff, 0, 0] <= rest {
        assert raw[c + 2] == rest[2] && raw[c + 3] == rest[3];
      }
    }
  }

  /** A scan steps over a null byte, and over a value of another type. */
  lemma NullStep(raw: seq<byte>, cursor: nat)
    requires cursor < |raw| && raw[cursor] == NULL_TLV
    ensures ScanFrom(raw, cursor) == ScanFrom(raw, cursor + 1)
  {
  }

  lemma OtherStep(raw: seq<byte>, cursor: nat, size: nat, at: nat)
    requires cursor < |raw| && raw[cursor] !in {NULL_TLV, NDEF_TLV, TERMINATOR_TLV}
    requires LengthAt(raw, cursor + 1) == Length(size, at) && at + size <= |raw|
    ensures ScanFrom(raw, cursor) == ScanFrom(raw, at + size)
  {
  }

  lemma ItemIsSkipped(before: seq<byte>, item: Item, rest: seq<byte>)
    requires SkippableItem(item)
    ensures var raw := before + ItemBytes(item) + rest;
            ScanFrom(raw, |before|) == ScanFrom(raw, |before| + |ItemBytes(item)|)
  {
    hide Encoded, LengthAt, ScanFrom;
    match item {
      case Null =>
        NullStep(before + [NULL_TLV] + rest, |before|);
      case Other(kind, long, value) =>
        var length := Encoded(|value|, long);
        var raw := before + ([kind] + length + value) + rest;
        var tail := value + rest;
        assert raw == before + [kind] + length + tail;
        LengthIsRead(before + [kind], |value|, long, tail);
        OtherStep(raw, |before|, |value|, |before| + 1 + |length|);
    }
  }

  lemma {:induction false} ItemsAreSkipped(before: seq<byte>, items: seq<Item>, rest: seq<byte>)
    requires Skippable(items)
    ensures var raw := before + ItemsBytes(items) + rest;
            ScanFrom(raw, |before|) == ScanFrom(raw, |before| + |ItemsBytes(items)|)
    decreases |items|
  {
    hide ScanFrom, ItemBytes;
    if items == [] {
    } else {
      var first := ItemBytes(items[0]);
      ItemsAreSkipped(before + first, items[1..], rest);
      ItemIsSkipped(before, items[0], ItemsBytes(items[1..]) + rest);
      assert before + ItemsBytes(items) + rest == before + first + ItemsBytes(items[1..]) + rest;
      assert before + ItemsBytes(items) + rest == before + first + (ItemsBytes(items[1..]) + rest);
    }
  }

  lemma FrontTells(rest: seq<byte>, value: seq<byte>, long: bool, behind: seq<byte>)
    requires Encodable(|value|, long) && rest == [NDEF_TLV] + Encoded(|value|, long) + value + behind
    ensures if value == [] then HasNothing(rest) else HasMessage(rest, value, long)
  {
    hide Encodable;
    var head := [NDEF_TLV] + Encoded(|value|, long) + value;
    assert rest[..|head|] == head;
    if value == [] {
      assert head == if long then [NDEF_TLV, 0xff, 0, 0] else [NDEF_TLV, 0];
    }
  }

  lemma NdefTells(raw: seq<byte>, cursor: nat) returns (long: bool)
    requires cursor < |raw| && raw[cursor] == NDEF_TLV && LengthAt(raw, cursor + 1).Length?
    requires var l := LengthAt(raw, cursor + 1); l.at + l.size <= |raw|
    ensures var l := LengthAt(raw, cursor + 1);
            if l.size == 0 then HasNothing(raw[cursor..]) else HasMessage(raw[cursor..], raw[l.at..l.at + l.size], long)
  {
    hide LengthAt, Encodable, Encoded, HasNothing, HasMessage;
    var l := LengthAt(raw, cursor + 1);
    long := LengthWasEncoded(raw, cursor + 1);
    var value := raw[l.at..l.at + l.size];
    var head := [NDEF_TLV] + Encoded(l.size, long) + value;
    assert raw[cursor..] == [NDEF_TLV] + raw[cursor + 1..l.at] + value + raw[l.at + l.size..];
    assert raw[cursor..] == head + raw[l.at + l.size..];
    FrontTells(raw[cursor..], value, long, raw[l.at + l.size..]);
  }

  lemma OtherTells(raw: seq<byte>, cursor: nat) returns (item: Item)
    requires cursor < |raw| && raw[cursor] !in {NULL_TLV, NDEF_TLV, TERMINATOR_TLV} && LengthAt(raw, cursor + 1).Length?
    requires var l := LengthAt(raw, cursor + 1); l.at + l.size <= |raw|
    ensures var l := LengthAt(raw, cursor + 1);
            SkippableItem(item) && raw[cursor..l.at + l.size] == ItemBytes(item)
  {
    hide LengthAt, Encodable, Encoded;
    var l := LengthAt(raw, cursor + 1);
    var long := LengthWasEncoded(raw, cursor + 1);
    item := Other(raw[cursor], long, raw[l.at..l.at + l.size]);
  }

  /** A scan that comes to a message or to nothing stepped over well-formed values of other types only. */
  lemma {:induction false} ScanTells(raw: seq<byte>, cursor: nat) returns (items: seq<Item>, rest: seq<byte>)
    requires cursor <= |raw|
    ensures Skippable(items) && raw[cursor..] == ItemsBytes(items) + rest
    ensures ScanFrom(raw, cursor).Found? ==> exists long :: HasMessage(rest, ScanFrom(raw, cursor).message, long)
    ensures ScanFrom(raw, cursor).Absent? ==> HasNothing(rest)
    decreases |raw| - cursor
  {
    hide LengthAt, ItemBytes, HasMessage, SkippableItem;
    items, rest := [], raw[cursor..];
    if cursor < |raw| && raw[cursor] == NULL_TLV {
      items, rest := ScanTells(raw, cursor + 1);
      NullIsItem(raw, cursor);
      items := Prepended(Null, items, raw, cursor, cursor + 1, rest);
    } else if cursor < |raw| && raw[cursor] != TERMINATOR_TLV && LengthAt(raw, cursor + 1).Length? {
      hide HasNothing;
      var l := LengthAt(raw, cursor + 1);
      if l.at + l.size <= |raw| {
        if raw[cursor] == NDEF_TLV {
          var long := NdefTells(raw, cursor);
        } else {
          var item := OtherTells(raw, cursor);
          items, rest := ScanTells(raw, l.at + l.size);
          items := Prepended(item, items, raw, cursor, l.at + l.size, rest);
        }
      }
    }
  }

  lemma NullIsItem(raw: seq<byte>, cursor: nat)
    requires cursor < |raw| && raw[cursor] == NULL_TLV
    ensures SkippableItem(Null) && raw[cursor..cursor + 1] == ItemBytes(Null)
  {
  }

  lemma Prepended(item: Item, items: seq<Item>, raw: seq<byte>, cursor: nat, behind: nat, rest: seq<byte>)
    returns (all: seq<Item>)
    requires SkippableItem(item) && Skippable(items) && cursor <= behind <= |raw|
    requires raw[cursor..behind] == ItemBytes(item) && raw[behind..] == ItemsBytes(items) + rest
    ensures Skippable(all) && raw[cursor..] == ItemsBytes(all) + rest
  {
    hide ItemBytes, SkippableItem;
    all := [item] + items;
    assert all[0] == item && all[1..] == items;
    assert ItemsBytes(all) == ItemBytes(item) + ItemsBytes(items);
    assert raw[cursor..] == raw[cursor..behind] + raw[behind..];
    hide ItemsBytes, Skippable;
    assert ItemBytes(item) + (ItemsBytes(items) + rest) == (ItemBytes(item) + ItemsBytes(items)) + rest;
  }

  /** The memory is well-formed values of other types with `rest` behind them. */
  ghost predicate Splits(raw: seq<byte>, items: seq<Item>, rest: seq<byte>) {
    Skippable(items) && raw == ItemsBytes(items) + rest
  }

  /**
   * A scan finds exactly the message that stands first behind any well-formed values of other types, and finds nothing
   * exactly when the end, a terminator or an empty message stands there; everything else is malformed.
   */
  lemma ScannedExactly(raw: seq<byte>, message: seq<byte>)
    ensures Scanned(raw) == Found(message) <==>
            exists items, rest, long :: Splits(raw, items, rest) && HasMessage(rest, message, long)
    ensures Scanned(raw) == Absent <==> exists items, rest :: Splits(raw, items, rest) && HasNothing(rest)
  {
    hide ScanFrom, ItemsBytes, Skippable, HasMessage, HasNothing;
    var items, rest := ScanTells(raw, 0);
    assert raw[0..] == raw;
    assert Splits(raw, items, rest);
    forall items, rest | Splits(raw, items, rest)
      ensures Scanned(raw) == ScanFrom(ItemsBytes(items) + rest, |ItemsBytes(items)|)
    {
      ItemsAreSkipped([], items, rest);
      assert [] + ItemsBytes(items) + rest == raw;
    }
    forall items, rest, long | Splits(raw, items, rest) && HasMessage(rest, message, long)
      ensures Scanned(raw) == Found(message)
    {
      MessageIsFound(ItemsBytes(items), rest, message, long);
    }
    forall items, rest | Splits(raw, items, rest) && HasNothing(rest)
      ensures Scanned(raw) == Absent
    {
      NothingIsFound(ItemsBytes(items), rest);
    }
  }

  /** Whatever the tag held, a message that fits is read back after it was written. */
  lemma WrittenMessageIsFound(user: seq<byte>, message: seq<byte>)
    requires |user| == USER_CAPACITY && Fits(message)
    ensures var tlv := Type2Tlv(message);
            |tlv| + |Padding(|tlv|)| <= USER_CAPACITY && Scanned(Written(user, 0, tlv)) == Found(message)
  {
    var tlv := Type2Tlv(message);
    PaddingFits(0, |tlv|);
    var rest := Padding(|tlv|) + user[|tlv| + |Padding(|tlv|)|..];
    assert Written(user, 0, tlv) == tlv + rest;
    WrittenLength(|message|);
    assert tlv + rest == [NDEF_TLV] + LengthBytes(|message|) + message + ([TERMINATOR_TLV] + rest);
    MessageIsFound([], tlv + rest, message, |message| > 0xfe);
    assert [] + (tlv + rest) == tlv + rest;
  }

  method BuildType2NdefTlv(message: seq<byte>) returns (tlv: seq<byte>)
    ensures tlv == Type2Tlv(message)
  {
    if |message| <= 0xfe {
      tlv := [NDEF_TLV];
      tlv := tlv + [|message| as byte];
    } else {
      tlv := [NDEF_TLV];
      tlv := tlv + [LONG_LENGTH];
      tlv := tlv + [(|message| / 256 % 256) as byte];
      tlv := tlv + [(|message| % 256) as byte];
    }
    tlv := tlv + message;
    tlv := tlv + [TERMINATOR_TLV];
  }

  /** The message on a tag, or why there is none. */
  method ScanNdef(raw: seq<byte>) returns (status: Status, message: seq<byte>)
    ensures match Scanned(raw)
            case Found(m) => status == Ok && message == m
            case Absent => status == NotFound
            case Malformed => status == InvalidResponse
  {
    message := [];
    var cursor := 0;
    while cursor < |raw|
      invariant cursor <= |raw|
      invariant Scanned(raw) == ScanFrom(raw, cursor)
    {
      var kind := raw[cursor];
      cursor := cursor + 1;
      if kind == NULL_TLV {
        continue;
      }
      if kind == TERMINATOR_TLV {
        return NotFound, [];
      }
      if cursor >= |raw| {
        return InvalidResponse, [];
      }
      var length := raw[cursor] as nat;
      cursor := cursor + 1;
      if length == LONG_LENGTH as nat {
        if cursor + 1 >= |raw| {
          return InvalidResponse, [];
        }
        length := 256 * raw[cursor] as nat + raw[cursor + 1] as nat;
        cursor := cursor + 2;
      }
      if cursor + length > |raw| {
        return InvalidResponse, [];
      }
      if kind == NDEF_TLV {
        if length == 0 {
          return NotFound, [];
        }
        return Ok, raw[cursor..cursor + length];
      }
      cursor := cursor + length;
    }
    status := NotFound;
  }

  method ReadNdef(tag: Nfc, works: seq<bool>) returns (status: Status, message: seq<byte>)
    requires tag.Valid() && |works| > USER_CAPACITY
    ensures AllWork(works) && tag.initialized && tag.powered ==>
      match Scanned(tag.User())
      case Found(m) => status == Ok && message == m
      case Absent => status == NotFound
      case Malformed => status == InvalidResponse
    ensures status == Ok ==> Scanned(tag.User()) == Found(message)
    ensures status == NotReady <==> !(tag.initialized && tag.powered)
  {
    assert IsValidUserRange(0, USER_CAPACITY);
    hide AllWork, IsValidUserRange, Scanned;
    message := [];
    var raw;
    status, raw := tag.ReadUserData(0, USER_CAPACITY, works);
    if status != Ok {
      return;
    }
    assert raw == tag.User();
    status, message := ScanNdef(raw);
  }

  method WriteNdef(tag: Nfc, message: seq<byte>, works: seq<bool>, left: seq<byte>) returns (status: Status)
    requires tag.Valid() && |works| > USER_CAPACITY && |left| == BLOCK_SIZE
    modifies tag.chip
    ensures status == InvalidArgument <==> message == []
    ensures status == InvalidSize <==> message != [] && !Fits(message)
    ensures status == NotReady <==> Fits(message) && !(tag.initialized && tag.powered)
    ensures status in {InvalidArgument, InvalidSize, NotReady} ==> tag.chip[..] == old(tag.chip[..])
    ensures status == Ok ==>
      Fits(message) && |Type2Tlv(message)| + |Padding(|Type2Tlv(message)|)| <= USER_CAPACITY &&
      tag.User() == Written(old(tag.User()), 0, Type2Tlv(message)) && Scanned(tag.User()) == Found(message)
    ensures Fits(message) && AllWork(works) && tag.initialized && tag.powered ==> status == Ok
  {
    hide Scanned, Written, Padding;
    if message == [] {
      return InvalidArgument;
    }
    if !Fits(message) {
      return InvalidSize;
    }
    var tlv := BuildType2NdefTlv(message);
    WrittenMessageIsFound(tag.User(), message);
    status := tag.WriteUserData(0, tlv, works, left);
  }
}
