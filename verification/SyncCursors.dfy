/** The announcement of a peer's cursors that opens a session. */
module SyncCursors {
  import opened Bytes
  import opened Wrappers
  import opened Frame
  import opened Tlv
  import SyncEngine

  type SyncCursor = SyncEngine.SyncCursor

  const VERSION: byte := 1
  const ENTRY_SIZE: nat := 14

  function CursorBytes(c: SyncCursor): (s: seq<byte>)
    ensures |s| == ENTRY_SIZE
  {
    Le16(c.key) + Le32(c.acknowledged) + Le32(c.applied) + Le32(c.pending)
  }

  function CursorFrom(s: seq<byte>): SyncCursor
    requires |s| == ENTRY_SIZE
  {
    SyncEngine.SyncCursor(Get16(s[0..2]), Get32(s[2..6]), Get32(s[6..10]), Get32(s[10..14]))
  }

  function EntriesBytes(cs: seq<SyncCursor>): (s: seq<byte>)
    ensures |s| == ENTRY_SIZE * |cs|
  {
    if cs == [] then [] else EntriesBytes(cs[..|cs| - 1]) + CursorBytes(cs[|cs| - 1])
  }

  function Announcement(cs: seq<SyncCursor>): (s: seq<byte>)
    requires |cs| <= SyncEngine.KEY_CAPACITY
    ensures |s| == 4 + ENTRY_SIZE * |cs|
  {
    [VERSION, |cs| as byte, 0, 0] + EntriesBytes(cs)
  }

  predicate SoundCursor(cs: seq<SyncCursor>, i: nat)
    requires i < |cs|
  {
    cs[i].key != 0 && (cs[i].pending == 0 || cs[i].pending > cs[i].acknowledged) &&
    forall j :: 0 <= j < i ==> cs[j].key != cs[i].key
  }

  predicate SoundCursors(cs: seq<SyncCursor>) {
    forall i :: 0 <= i < |cs| ==> SoundCursor(cs, i)
  }

  predicate Framed(s: seq<byte>) {
    |s| >= 4 && s[0] == VERSION && s[1] as nat <= SyncEngine.KEY_CAPACITY && s[2] == 0 && s[3] == 0 &&
    |s| == 4 + ENTRY_SIZE * s[1] as nat
  }

  function Entries(s: seq<byte>, n: nat): (cs: seq<SyncCursor>)
    requires |s| >= 4 + ENTRY_SIZE * n
    ensures |cs| == n
  {
    seq(n, i requires 0 <= i < n => CursorFrom(s[4 + ENTRY_SIZE * i..4 + ENTRY_SIZE * i + ENTRY_SIZE]))
  }

  function Announced(s: seq<byte>): Option<seq<SyncCursor>> {
    if Framed(s) && SoundCursors(Entries(s, s[1] as nat)) then Some(Entries(s, s[1] as nat)) else None
  }

  lemma CursorRoundTrip(c: SyncCursor)
    ensures CursorFrom(CursorBytes(c)) == c
  {
    hide Le16, Le32, Get16, Get32;
    Get16Le16(c.key);
    Get32Le32(c.acknowledged);
    Get32Le32(c.applied);
    Get32Le32(c.pending);
    var s := CursorBytes(c);
    assert s[0..2] == Le16(c.key) && s[2..6] == Le32(c.acknowledged);
    assert s[6..10] == Le32(c.applied) && s[10..14] == Le32(c.pending);
  }

  lemma CursorImage(s: seq<byte>)
    requires |s| == ENTRY_SIZE
    ensures CursorBytes(CursorFrom(s)) == s
  {
    hide Le16, Le32, Get16, Get32;
    Le16Get16(s[0..2]);
    Le32Get32(s[2..6]);
    Le32Get32(s[6..10]);
    Le32Get32(s[10..14]);
    assert s == s[0..2] + s[2..6] + s[6..10] + s[10..14];
  }

  lemma {:induction false} EntryOf(cs: seq<SyncCursor>, i: nat)
    requires i < |cs|
    ensures EntriesBytes(cs)[ENTRY_SIZE * i..ENTRY_SIZE * i + ENTRY_SIZE] == CursorBytes(cs[i])
  {
    hide CursorBytes;
    var front := cs[..|cs| - 1];
    if i < |front| {
      EntryOf(front, i);
      assert EntriesBytes(cs)[ENTRY_SIZE * i..ENTRY_SIZE * i + ENTRY_SIZE] ==
             EntriesBytes(front)[ENTRY_SIZE * i..ENTRY_SIZE * i + ENTRY_SIZE];
    }
  }

  /** A sound list of cursors is announced and read back whole; an unsound one is refused. */
  lemma AnnouncementRoundTrip(cs: seq<SyncCursor>)
    requires |cs| <= SyncEngine.KEY_CAPACITY
    ensures Announced(Announcement(cs)) == if SoundCursors(cs) then Some(cs) else None
  {
    hide CursorBytes, CursorFrom, EntriesBytes;
    var s := Announcement(cs);
    forall i | 0 <= i < |cs|
      ensures Entries(s, |cs|)[i] == cs[i]
    {
      EntryOf(cs, i);
      CursorRoundTrip(cs[i]);
      assert s[4..] == EntriesBytes(cs);
      assert s[4 + ENTRY_SIZE * i..4 + ENTRY_SIZE * i + ENTRY_SIZE] ==
             s[4..][ENTRY_SIZE * i..ENTRY_SIZE * i + ENTRY_SIZE];
    }
    assert Entries(s, |cs|) == cs;
  }

  lemma CursorParts(c: SyncCursor)
    ensures var b := CursorBytes(c);
            b[0..2] == Le16(c.key) && b[2..6] == Le32(c.acknowledged) && b[6..10] == Le32(c.applied) &&
            b[10..14] == Le32(c.pending)
  {
    hide Le16, Le32;
  }

  /** An announcement is a version, a count and fourteen bytes for each cursor. */
  lemma AnnouncementLayout(cs: seq<SyncCursor>, i: nat)
    requires i < |cs| <= SyncEngine.KEY_CAPACITY
    ensures var s, at := Announcement(cs), 4 + 14 * i;
      && |s| == 4 + 14 * |cs| && s[..4] == [1, |cs| as byte, 0, 0]
      && Little(s, at, 2) == cs[i].key as nat && Little(s, at + 2, 4) == cs[i].acknowledged as nat
      && Little(s, at + 6, 4) == cs[i].applied as nat && Little(s, at + 10, 4) == cs[i].pending as nat
  {
    hide EntriesBytes, CursorBytes, Le16, Le32, Little;
    var s, at, c := Announcement(cs), 4 + 14 * i, cs[i];
    EntryOf(cs, i);
    var b := CursorBytes(c);
    assert s[4..4 + 14 * |cs|] == EntriesBytes(cs);
    SliceOfSlice(s, 4, 14 * |cs|, 14 * i, 14);
    SliceOfSlice(s, at, 14, 0, 2);
    SliceOfSlice(s, at, 14, 2, 4);
    SliceOfSlice(s, at, 14, 6, 4);
    SliceOfSlice(s, at, 14, 10, 4);
    CursorParts(c);
    Le16Stands(s, at, c.key);
    Le32Stands(s, at + 2, c.acknowledged);
    Le32Stands(s, at + 6, c.applied);
    Le32Stands(s, at + 10, c.pending);
  }

  lemma {:induction false} EntriesImage(s: seq<byte>, n: nat)
    requires |s| >= 4 + ENTRY_SIZE * n
    ensures EntriesBytes(Entries(s, n)) == s[4..4 + ENTRY_SIZE * n]
  {
    hide CursorBytes, CursorFrom;
    if n > 0 {
      EntriesImage(s, n - 1);
      assert Entries(s, n)[..n - 1] == Entries(s, n - 1);
      CursorImage(s[4 + ENTRY_SIZE * (n - 1)..4 + ENTRY_SIZE * n]);
    }
  }

  /** Nothing but the announcement of a sound list is ever accepted. */
  lemma AcceptedAnnouncements(s: seq<byte>)
    requires Announced(s).Some?
    ensures var cs := Announced(s).value;
            |cs| <= SyncEngine.KEY_CAPACITY && SoundCursors(cs) && Announcement(cs) == s
  {
    EntriesImage(s, s[1] as nat);
    assert s == s[..4] + s[4..];
  }

  method EncodeSyncCursors(cs: seq<SyncCursor>, output: array<byte>) returns (status: ProtocolStatus, size: nat)
    modifies output
    ensures status == (if |cs| > SyncEngine.KEY_CAPACITY then InvalidArgument
                       else if output.Length < 4 + ENTRY_SIZE * |cs| then BufferTooSmall
                       else if SoundCursors(cs) then Ok
                       else MalformedTlv)
    ensures status == Ok ==> size <= output.Length && output[..size] == Announcement(cs)
    ensures status != Ok ==> size == 0
  {
    hide CursorBytes, SoundCursors, Announced;
    size := 0;
    if |cs| > SyncEngine.KEY_CAPACITY {
      return InvalidArgument, 0;
    }
    var length := 4 + ENTRY_SIZE * |cs|;
    if output.Length < length {
      return BufferTooSmall, 0;
    }
    Put(output, 0, [VERSION, |cs| as byte, 0, 0]);
    for i := 0 to |cs|
      invariant output[..4 + ENTRY_SIZE * i] == [VERSION, |cs| as byte, 0, 0] + EntriesBytes(cs[..i])
    {
      ghost var before := output[..4 + ENTRY_SIZE * i];
      Put(output, 4 + ENTRY_SIZE * i, CursorBytes(cs[i]));
      assert output[..4 + ENTRY_SIZE * (i + 1)] == before + CursorBytes(cs[i]);
      assert cs[..i + 1][..i] == cs[..i];
    }
    assert cs[..|cs|] == cs;
    assert output[..length] == Announcement(cs);
    AnnouncementRoundTrip(cs);
    var validated;
    status, validated := DecodeSyncCursors(output[..length]);
    if status == Ok {
      size := length;
    }
  }

  method DecodeSyncCursors(input: seq<byte>) returns (status: ProtocolStatus, cursors: seq<SyncCursor>)
    ensures status == if Announced(input).Some? then Ok else MalformedTlv
    ensures cursors == if Announced(input).Some? then Announced(input).value else []
  {
    hide CursorFrom;
    if !Framed(input) {
      return MalformedTlv, [];
    }
    var count := input[1] as nat;
    ghost var all := Entries(input, count);
    var decoded: seq<SyncCursor> := [];
    for i := 0 to count
      invariant decoded == all[..i]
      invariant forall j :: 0 <= j < i ==> SoundCursor(all, j)
    {
      var entry := CursorFrom(input[4 + ENTRY_SIZE * i..4 + ENTRY_SIZE * i + ENTRY_SIZE]);
      if entry.key == 0 || (entry.pending != 0 && entry.pending <= entry.acknowledged) {
        assert !SoundCursor(all, i);
        return MalformedTlv, [];
      }
      for j := 0 to i
        invariant forall k :: 0 <= k < j ==> all[k].key != entry.key
      {
        if decoded[j].key == entry.key {
          assert !SoundCursor(all, i);
          return MalformedTlv, [];
        }
      }
      decoded := decoded + [entry];
    }
    return Ok, decoded;
  }
}
