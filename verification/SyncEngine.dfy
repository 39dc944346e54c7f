/** The durable store of a peer: pending values, received values and a cursor for each key. */
module SyncEngine {
  import opened Bytes

  const KEY_CAPACITY: nat := 8
  const VALUE_CAPACITY: nat := 256

  datatype Status =
    | Ok
    | InvalidArgument
    | ValueTooLarge
    | OutboxFull
    | StaleRevision
    | RevisionConflict
    | NotFound
    | StoreError
    | ApplyRequired
    | Duplicate
    | ResyncRequired

  /** A durable value in one slot of the outbox or the inbox; key zero marks a free slot. */
  datatype Entry = Entry(key: uint16, revision: uint32, value: seq<byte>)

  const FREE: Entry := Entry(0, 0, [])

  datatype Cursor = Cursor(key: uint16, acknowledged: uint32, applied: uint32)

  const UNUSED: Cursor := Cursor(0, 0, 0)

  /** What a peer tells about one key when a session starts. */
  datatype SyncCursor = SyncCursor(key: uint16, acknowledged: uint32, applied: uint32, pending: uint32)

  datatype Store = Store(outbox: seq<Entry>, inbox: seq<Entry>, cursors: seq<Cursor>)

  // --- slots -------------------------------------------------------------------

  function EntryKeys(s: seq<Entry>): (ks: seq<uint16>)
    ensures |ks| == |s| && forall i :: 0 <= i < |s| ==> ks[i] == s[i].key
  {
    seq(|s|, i requires 0 <= i < |s| => s[i].key)
  }

  function CursorKeys(s: seq<Cursor>): (ks: seq<uint16>)
    ensures |ks| == |s| && forall i :: 0 <= i < |s| ==> ks[i] == s[i].key
  {
    seq(|s|, i requires 0 <= i < |s| => s[i].key)
  }

  /** The first position of `key`, or the length when it is absent. */
  function Find(keys: seq<uint16>, key: uint16): (i: nat)
    ensures i <= |keys|
    ensures i < |keys| ==> keys[i] == key
    ensures forall j :: 0 <= j < i ==> keys[j] != key
  {
    if keys == [] || keys[0] == key then 0 else 1 + Find(keys[1..], key)
  }

  /** The slot that holds `key`, or else the first free slot. */
  function Place(keys: seq<uint16>, key: uint16): (i: nat)
    ensures i <= |keys|
    ensures i < |keys| ==> keys[i] == key || keys[i] == 0
  {
    if Find(keys, key) < |keys| then Find(keys, key) else Find(keys, 0)
  }

  ghost predicate Distinct(keys: seq<uint16>) {
    forall i, j :: 0 <= i < j < |keys| && keys[i] != 0 ==> keys[i] != keys[j]
  }

  function Lookup(s: seq<Entry>, key: uint16): (e: Entry)
    ensures e == FREE || e.key == key
  {
    var i := Find(EntryKeys(s), key);
    if i < |s| then s[i] else FREE
  }

  function CursorOf(s: seq<Cursor>, key: uint16): (c: Cursor)
    ensures c == UNUSED || c.key == key
  {
    var i := Find(CursorKeys(s), key);
    if i < |s| then s[i] else UNUSED
  }

  function Outbox(s: Store, key: uint16): Entry { Lookup(s.outbox, key) }
  function Inbox(s: Store, key: uint16): Entry { Lookup(s.inbox, key) }
  function Acknowledged(s: Store, key: uint16): uint32 { CursorOf(s.cursors, key).acknowledged }
  function Applied(s: Store, key: uint16): uint32 { CursorOf(s.cursors, key).applied }
  function Pending(s: Store, key: uint16): uint32 { Outbox(s, key).revision }

  /** The newest revision of a key that was ever put: the pending one, or else the acknowledged one. */
  function Top(s: Store, key: uint16): uint32 {
    if Pending(s, key) > Acknowledged(s, key) then Pending(s, key) else Acknowledged(s, key)
  }

  ghost predicate Shaped(s: Store) {
    |s.outbox| == |s.inbox| == |s.cursors| == KEY_CAPACITY &&
    Distinct(EntryKeys(s.outbox)) && Distinct(EntryKeys(s.inbox)) && Distinct(CursorKeys(s.cursors)) &&
    forall i :: 0 <= i < KEY_CAPACITY && s.cursors[i].key == 0 ==> s.cursors[i] == UNUSED
  }

  /** A pending value has a cursor behind it; a received value is the one its cursor names. */
  ghost predicate Consistent(s: Store, key: uint16) {
    (Outbox(s, key) != FREE ==>
      Outbox(s, key).key == key && |Outbox(s, key).value| <= VALUE_CAPACITY &&
      CursorOf(s.cursors, key) != UNUSED && Acknowledged(s, key) < Pending(s, key)) &&
    (Inbox(s, key) != FREE ==>
      Inbox(s, key).key == key && CursorOf(s.cursors, key) != UNUSED && Applied(s, key) != 0) &&
    Inbox(s, key).revision == Applied(s, key)
  }

  ghost predicate ValidStore(s: Store) {
    Shaped(s) && forall key: uint16 :: key != 0 ==> Consistent(s, key)
  }

  function EmptyStore(): Store {
    Store(seq(KEY_CAPACITY, _ => FREE), seq(KEY_CAPACITY, _ => FREE), seq(KEY_CAPACITY, _ => UNUSED))
  }

  // --- operations ----------------------------------------------------------------

  /** Persisting has the outcome `saved`; a state that was not saved is rolled back. */
  function Put(s: Store, key: uint16, revision: uint32, value: seq<byte>, saved: bool): (r: (Store, Status))
    requires |s.cursors| == |s.outbox|
  {
    var i, j := Place(EntryKeys(s.outbox), key), Place(CursorKeys(s.cursors), key);
    if key == 0 || revision == 0 then (s, InvalidArgument)
    else if |value| > VALUE_CAPACITY then (s, ValueTooLarge)
    else if revision <= Acknowledged(s, key) then (s, StaleRevision)
    else if i == |s.outbox| then (s, OutboxFull)
    else if s.outbox[i].key == key && revision < s.outbox[i].revision then (s, StaleRevision)
    else if s.outbox[i].key == key && revision == s.outbox[i].revision then
      (s, if value == s.outbox[i].value then Duplicate else RevisionConflict)
    else if j == |s.cursors| then (s, OutboxFull)
    else if !saved then (s, StoreError)
    else
      (s.(outbox := s.outbox[i := Entry(key, revision, value)],
          cursors := s.cursors[j := s.cursors[j].(key := key)]), Ok)
  }

  function Acknowledge(s: Store, key: uint16, revision: uint32, saved: bool): (r: (Store, Status)) {
    var i, j := Find(EntryKeys(s.outbox), key), Place(CursorKeys(s.cursors), key);
    if key == 0 || revision == 0 then (s, InvalidArgument)
    else if i == |s.outbox| then (s, if revision <= Acknowledged(s, key) then Duplicate else NotFound)
    else if revision > s.outbox[i].revision then (s, RevisionConflict)
    else if j == |s.cursors| then (s, OutboxFull)
    else if revision <= s.cursors[j].acknowledged then (s, Duplicate)
    else if !saved then (s, StoreError)
    else
      (s.(outbox := if revision == s.outbox[i].revision then s.outbox[i := FREE] else s.outbox,
          cursors := s.cursors[j := s.cursors[j].(key := key, acknowledged := revision)]), Ok)
  }

  function Inspect(s: Store, key: uint16, revision: uint32): Status {
    if key == 0 || revision == 0 then InvalidArgument
    else if revision <= Applied(s, key) then Duplicate
    else ApplyRequired
  }

  function AcceptIncoming(s: Store, key: uint16, revision: uint32, value: seq<byte>, saved: bool): (r: (Store, Status)) {
    var i, j := Place(EntryKeys(s.inbox), key), Place(CursorKeys(s.cursors), key);
    var inspection := Inspect(s, key, revision);
    if |value| > VALUE_CAPACITY then (s, ValueTooLarge)
    else if inspection == Duplicate then
      (s, if i < |s.inbox| && s.inbox[i].key == key && s.inbox[i].revision == revision && s.inbox[i].value != value
          then RevisionConflict else Duplicate)
    else if inspection != ApplyRequired then (s, inspection)
    else if i == |s.inbox| || j == |s.cursors| then (s, OutboxFull)
    else if !saved then (s, StoreError)
    else
      (s.(inbox := s.inbox[i := Entry(key, revision, value)],
          cursors := s.cursors[j := s.cursors[j].(key := key, applied := revision)]), Ok)
  }

  /** The cursors of the used slots among the first `n`, in slot order. */
  function CursorList(s: Store, n: nat): (cs: seq<SyncCursor>)
    requires n <= |s.cursors|
  {
    if n == 0 then []
    else
      var c := s.cursors[n - 1];
      if c.key == 0 then CursorList(s, n - 1)
      else CursorList(s, n - 1) + [SyncCursor(c.key, c.acknowledged, c.applied, Pending(s, c.key))]
  }

  function Cursors(s: Store): seq<SyncCursor> { CursorList(s, |s.cursors|) }

  function PeerKeys(cs: seq<SyncCursor>): (ks: seq<uint16>)
    ensures |ks| == |cs| && forall i :: 0 <= i < |cs| ==> ks[i] == cs[i].key
  {
    seq(|cs|, i requires 0 <= i < |cs| => cs[i].key)
  }

  function CursorIn(cs: seq<SyncCursor>, key: uint16): (c: SyncCursor)
    ensures c.key == key
  {
    var i := Find(PeerKeys(cs), key);
    if i < |cs| then cs[i] else SyncCursor(key, 0, 0, 0)
  }

  function Max(a: uint32, b: uint32): uint32 { if a < b then b else a }

  /** Each side has applied nothing beyond what the other put, and everything the other saw acknowledged. */
  predicate Compatible(own: SyncCursor, other: SyncCursor) {
    own.acknowledged <= other.applied <= Max(own.acknowledged, own.pending) &&
    other.acknowledged <= own.applied <= Max(other.acknowledged, other.pending)
  }

  function ScreenPeer(local: seq<SyncCursor>, peer: seq<SyncCursor>, i: nat): Status
    requires i <= |peer|
    decreases |peer| - i
  {
    if i == |peer| then Ok
    else
      var other := peer[i];
      if other.key == 0 || (other.pending != 0 && other.pending <= other.acknowledged) then InvalidArgument
      else if Find(PeerKeys(peer), other.key) < i then InvalidArgument
      else if !Compatible(CursorIn(local, other.key), other) then ResyncRequired
      else ScreenPeer(local, peer, i + 1)
  }

  function ScreenLocal(local: seq<SyncCursor>, peer: seq<SyncCursor>, i: nat): Status
    requires i <= |local|
    decreases |local| - i
  {
    if i == |local| then Ok
    else if !Compatible(local[i], CursorIn(peer, local[i].key)) then ResyncRequired
    else ScreenLocal(local, peer, i + 1)
  }

  /** How many of the first `n` keys the store has no cursor for. */
  function NewKeys(s: Store, peer: seq<SyncCursor>, n: nat): nat
    requires n <= |peer|
  {
    if n == 0 then 0
    else NewKeys(s, peer, n - 1) + if Find(CursorKeys(s.cursors), peer[n - 1].key) == |s.cursors| then 1 else 0
  }

  function Screen(s: Store, peer: seq<SyncCursor>): Status {
    var local := Cursors(s);
    if |peer| > KEY_CAPACITY then InvalidArgument
    else if ScreenPeer(local, peer, 0) != Ok then ScreenPeer(local, peer, 0)
    else if ScreenLocal(local, peer, 0) != Ok then ScreenLocal(local, peer, 0)
    else if |local| + NewKeys(s, peer, |peer|) > KEY_CAPACITY then OutboxFull
    else Ok
  }

  function Retired(outbox: seq<Entry>, other: SyncCursor): (r: seq<Entry>)
    ensures |r| == |outbox|
  {
    seq(|outbox|, i requires 0 <= i < |outbox| =>
      if outbox[i].key == other.key && outbox[i].revision <= other.applied then FREE else outbox[i])
  }

  /** Taking over what the peer says it applied of one key. */
  function Adopt(s: Store, other: SyncCursor): (r: (Store, bool)) {
    var j := Place(CursorKeys(s.cursors), other.key);
    if j == |s.cursors| then (s, false)
    else
      var c := s.cursors[j];
      var retired := Retired(s.outbox, other);
      (s.(outbox := retired, cursors := s.cursors[j := Cursor(other.key, other.applied, c.applied)]),
       c.key == 0 || c.acknowledged != other.applied || retired != s.outbox)
  }

  function AdoptAll(s: Store, peer: seq<SyncCursor>, n: nat): (r: (Store, bool))
    requires n <= |peer|
  {
    if n == 0 then (s, false)
    else
      var (t, changed) := AdoptAll(s, peer, n - 1);
      var (u, more) := Adopt(t, peer[n - 1]);
      (u, changed || more)
  }

  function Reconcile(s: Store, peer: seq<SyncCursor>, saved: bool): (r: (Store, Status)) {
    var status := Screen(s, peer);
    if status != Ok then (s, status)
    else
      var (t, changed) := AdoptAll(s, peer, |peer|);
      if changed && !saved then (s, StoreError) else (t, Ok)
  }

  /** The first pending value in slot order. */
  function FirstPending(outbox: seq<Entry>): (i: nat)
    ensures i <= |outbox|
    ensures i < |outbox| ==> outbox[i].key != 0
    ensures forall j :: 0 <= j < i ==> outbox[j].key == 0
  {
    if outbox == [] || outbox[0].key != 0 then 0 else 1 + FirstPending(outbox[1..])
  }

  function PendingCount(outbox: seq<Entry>): (n: nat)
    ensures n == 0 <==> FirstPending(outbox) == |outbox|
  {
    if outbox == [] then 0 else (if outbox[0].key != 0 then 1 else 0) + PendingCount(outbox[1..])
  }

  // --- looking up after a change ---------------------------------------------------

  lemma FoundAt(keys: seq<uint16>, i: nat)
    requires Distinct(keys) && i < |keys| && keys[i] != 0
    ensures Find(keys, keys[i]) == i
  {
    assert Find(keys, keys[i]) <= i;
  }

  /** Writing `n` at a position that is free or holds `n`, or freeing it, moves no other key. */
  lemma FindAfter(keys: seq<uint16>, i: nat, n: uint16)
    requires Distinct(keys) && i < |keys|
    requires keys[i] == n || n == 0 || (keys[i] == 0 && Find(keys, n) == |keys|)
    ensures Distinct(keys[i := n])
    ensures n != 0 ==> Find(keys[i := n], n) == i
    ensures n == 0 && keys[i] != 0 ==> Find(keys[i := n], keys[i]) == |keys|
    ensures forall k :: k != 0 && k != n && k != keys[i] ==> Find(keys[i := n], k) == Find(keys, k)
  {
    var after := keys[i := n];
    if n != 0 {
      FoundAt(after, i);
    } else if keys[i] != 0 {
      FoundAt(keys, i);
    }
    forall k | k != 0 && k != n && k != keys[i]
      ensures Find(after, k) == Find(keys, k)
    {
      var p := Find(keys, k);
      if p < |keys| {
        FoundAt(keys, p);
        FoundAt(after, p);
      }
    }
  }

  lemma LookupAfterWrite(s: seq<Entry>, e: Entry)
    requires Distinct(EntryKeys(s)) && e.key != 0 && Place(EntryKeys(s), e.key) < |s|
    ensures var t := s[Place(EntryKeys(s), e.key) := e];
            Distinct(EntryKeys(t)) && Lookup(t, e.key) == e &&
            forall k :: k != 0 && k != e.key ==> Lookup(t, k) == Lookup(s, k)
  {
    hide Distinct;
    var i := Place(EntryKeys(s), e.key);
    var t := s[i := e];
    assert EntryKeys(t) == EntryKeys(s)[i := e.key];
    FindAfter(EntryKeys(s), i, e.key);
  }

  lemma LookupAfterFree(s: seq<Entry>, i: nat)
    requires Distinct(EntryKeys(s)) && i < |s| && s[i].key != 0
    ensures var t := s[i := FREE];
            Distinct(EntryKeys(t)) && Lookup(t, s[i].key) == FREE &&
            forall k :: k != 0 && k != s[i].key ==> Lookup(t, k) == Lookup(s, k)
  {
    hide Distinct;
    var t := s[i := FREE];
    assert EntryKeys(t) == EntryKeys(s)[i := 0];
    FindAfter(EntryKeys(s), i, 0);
  }

  lemma CursorAfterWrite(s: seq<Cursor>, c: Cursor)
    requires Distinct(CursorKeys(s)) && c.key != 0 && Place(CursorKeys(s), c.key) < |s|
    ensures var t := s[Place(CursorKeys(s), c.key) := c];
            Distinct(CursorKeys(t)) && CursorOf(t, c.key) == c &&
            forall k :: k != 0 && k != c.key ==> CursorOf(t, k) == CursorOf(s, k)
  {
    hide Distinct;
    var i := Place(CursorKeys(s), c.key);
    var t := s[i := c];
    assert CursorKeys(t) == CursorKeys(s)[i := c.key];
    FindAfter(CursorKeys(s), i, c.key);
  }

  // --- what each operation does to the keys -----------------------------------------

  /** Nothing that a peer can see of `key` differs. */
  ghost predicate SameKey(s: Store, t: Store, key: uint16) {
    Outbox(t, key) == Outbox(s, key) && Inbox(t, key) == Inbox(s, key) &&
    CursorOf(t.cursors, key) == CursorOf(s.cursors, key)
  }

  ghost predicate OthersSame(s: Store, t: Store, key: uint16) {
    forall k: uint16 :: k != 0 && k != key ==> SameKey(s, t, k)
  }

  lemma PlacedCursor(s: Store, key: uint16)
    requires Shaped(s) && key != 0 && Place(CursorKeys(s.cursors), key) < KEY_CAPACITY
    ensures s.cursors[Place(CursorKeys(s.cursors), key)].(key := key) == CursorOf(s.cursors, key).(key := key)
  {
  }

  lemma EntryAt(s: seq<Entry>, i: nat)
    requires Distinct(EntryKeys(s)) && i < |s| && s[i].key != 0
    ensures Lookup(s, s[i].key) == s[i]
  {
    FoundAt(EntryKeys(s), i);
  }

  lemma StillConsistent(s: Store, t: Store, key: uint16)
    requires ValidStore(s) && Shaped(t) && key != 0
    requires Consistent(t, key) && OthersSame(s, t, key)
    ensures ValidStore(t)
  {
    forall k: uint16 | k != 0
      ensures Consistent(t, k)
    {
      if k != key {
        assert SameKey(s, t, k);
        assert Consistent(s, k);
      }
    }
  }

  /** A put is accepted only above every earlier revision of its key, and changes only that pending value. */
  lemma PutEffect(s: Store, key: uint16, revision: uint32, value: seq<byte>, saved: bool)
    requires ValidStore(s)
    ensures var (t, status) := Put(s, key, revision, value, saved);
            ValidStore(t) &&
            if status == Ok then
              key != 0 && revision > Top(s, key) && OthersSame(s, t, key) &&
              Outbox(t, key) == Entry(key, revision, value) && Inbox(t, key) == Inbox(s, key) &&
              Acknowledged(t, key) == Acknowledged(s, key) && Applied(t, key) == Applied(s, key)
            else t == s
  {
    hide Find, Distinct;
    var (t, status) := Put(s, key, revision, value, saved);
    if status == Ok {
      assert Consistent(s, key);
      PlacedCursor(s, key);
      LookupAfterWrite(s.outbox, Entry(key, revision, value));
      CursorAfterWrite(s.cursors, CursorOf(s.cursors, key).(key := key));
      StillConsistent(s, t, key);
    }
  }

  lemma AcknowledgeEffect(s: Store, key: uint16, revision: uint32, saved: bool)
    requires ValidStore(s)
    ensures var (t, status) := Acknowledge(s, key, revision, saved);
            ValidStore(t) &&
            if status == Ok then
              key != 0 && Acknowledged(s, key) < revision <= Pending(s, key) && OthersSame(s, t, key) &&
              Outbox(t, key) == (if revision == Pending(s, key) then FREE else Outbox(s, key)) &&
              Inbox(t, key) == Inbox(s, key) &&
              Acknowledged(t, key) == revision && Applied(t, key) == Applied(s, key)
            else t == s
  {
    hide Find, Distinct;
    var (t, status) := Acknowledge(s, key, revision, saved);
    if status == Ok {
      var i := Find(EntryKeys(s.outbox), key);
      assert Consistent(s, key);
      PlacedCursor(s, key);
      if revision == s.outbox[i].revision {
        LookupAfterFree(s.outbox, i);
      }
      CursorAfterWrite(s.cursors, CursorOf(s.cursors, key).(key := key, acknowledged := revision));
      StillConsistent(s, t, key);
    }
  }

  /** A value is stored exactly when it is newer than what was applied; a duplicate of the newest carries its value. */
  lemma AcceptEffect(s: Store, key: uint16, revision: uint32, value: seq<byte>, saved: bool)
    requires ValidStore(s)
    ensures var (t, status) := AcceptIncoming(s, key, revision, value, saved);
            ValidStore(t) &&
            if status == Ok then
              key != 0 && revision > Applied(s, key) && OthersSame(s, t, key) &&
              Inbox(t, key) == Entry(key, revision, value) && Outbox(t, key) == Outbox(s, key) &&
              Acknowledged(t, key) == Acknowledged(s, key) && Applied(t, key) == revision
            else
              t == s &&
              (status == Duplicate ==>
                key != 0 && 0 < revision <= Applied(s, key) &&
                (revision == Applied(s, key) ==> Inbox(s, key) == Entry(key, revision, value)))
  {
    hide Find, Distinct;
    var (t, status) := AcceptIncoming(s, key, revision, value, saved);
    if status == Ok {
      assert Consistent(s, key);
      PlacedCursor(s, key);
      LookupAfterWrite(s.inbox, Entry(key, revision, value));
      CursorAfterWrite(s.cursors, CursorOf(s.cursors, key).(key := key, applied := revision));
      StillConsistent(s, t, key);
    } else if status == Duplicate {
      assert Consistent(s, key);
    }
  }

  // --- reconciling -------------------------------------------------------------------

  lemma {:induction false} FindPush(keys: seq<uint16>, x: uint16, k: uint16)
    ensures Find(keys + [x], k) ==
            if Find(keys, k) < |keys| then Find(keys, k) else if x == k then |keys| else |keys| + 1
  {
    var i := Find(keys + [x], k);
    assert forall j :: 0 <= j < |keys| ==> (keys + [x])[j] == keys[j];
    assert (keys + [x])[|keys|] == x;
  }

  /** The cursor list tells of each key what the store holds of it, and of no key twice. */
  ghost predicate Tells(s: Store, cs: seq<SyncCursor>, n: nat)
    requires n <= |s.cursors|
  {
    Distinct(PeerKeys(cs)) && |cs| == n - multiset(CursorKeys(s.cursors)[..n])[0] &&
    (forall i :: 0 <= i < |cs| ==> cs[i].key != 0) &&
    forall k: uint16 :: k != 0 ==> TellsKey(s, cs, n, k)
  }

  ghost predicate TellsKey(s: Store, cs: seq<SyncCursor>, n: nat, k: uint16) {
    (Find(PeerKeys(cs), k) < |cs| <==> Find(CursorKeys(s.cursors), k) < n) &&
    CursorIn(cs, k) ==
    if Find(CursorKeys(s.cursors), k) < n then SyncCursor(k, Acknowledged(s, k), Applied(s, k), Pending(s, k))
    else SyncCursor(k, 0, 0, 0)
  }

  lemma {:induction false} CursorListTells(s: Store, n: nat)
    requires Shaped(s) && n <= KEY_CAPACITY
    ensures Tells(s, CursorList(s, n), n)
  {
    if n > 0 {
      CursorListTells(s, n - 1);
      var keys, front := CursorKeys(s.cursors), CursorList(s, n - 1);
      if s.cursors[n - 1].key != 0 {
        TellsPush(s, front, n);
      } else {
        assert keys[..n] == keys[..n - 1] + [0];
        forall k: uint16 | k != 0
          ensures TellsKey(s, front, n, k)
        {
          assert TellsKey(s, front, n - 1, k);
          assert Find(keys, k) != n - 1;
        }
      }
    }
  }

  lemma TellsPush(s: Store, front: seq<SyncCursor>, n: nat)
    requires Shaped(s) && 0 < n <= KEY_CAPACITY && s.cursors[n - 1].key != 0
    requires Tells(s, front, n - 1)
    ensures var c := s.cursors[n - 1];
            Tells(s, front + [SyncCursor(c.key, c.acknowledged, c.applied, Pending(s, c.key))], n)
  {
    var keys, c := CursorKeys(s.cursors), s.cursors[n - 1];
    var cs := front + [SyncCursor(c.key, c.acknowledged, c.applied, Pending(s, c.key))];
    FoundAt(keys, n - 1);
    assert keys[..n] == keys[..n - 1] + [c.key];
    assert PeerKeys(cs) == PeerKeys(front) + [c.key];
    assert TellsKey(s, front, n - 1, c.key);
    forall k: uint16 | k != 0
      ensures TellsKey(s, cs, n, k)
    {
      FindPush(PeerKeys(front), c.key, k);
      assert TellsKey(s, front, n - 1, k);
      if k != c.key {
        assert Find(keys, k) != n - 1;
      }
    }
  }

  /** A peer's cursors speak of each key exactly as the store does. */
  lemma CursorsTell(s: Store)
    requires ValidStore(s)
    ensures Distinct(PeerKeys(Cursors(s))) && forall i :: 0 <= i < |Cursors(s)| ==> Cursors(s)[i].key != 0
    ensures |Cursors(s)| == KEY_CAPACITY - multiset(CursorKeys(s.cursors))[0]
    ensures forall k: uint16 :: k != 0 ==>
      CursorIn(Cursors(s), k) == SyncCursor(k, Acknowledged(s, k), Applied(s, k), Pending(s, k))
  {
    hide Distinct, Find;
    CursorListTells(s, KEY_CAPACITY);
    assert CursorKeys(s.cursors)[..KEY_CAPACITY] == CursorKeys(s.cursors);
    forall k: uint16 | k != 0
      ensures CursorIn(Cursors(s), k) == SyncCursor(k, Acknowledged(s, k), Applied(s, k), Pending(s, k))
    {
      assert TellsKey(s, Cursors(s), KEY_CAPACITY, k);
      assert Consistent(s, k);
    }
  }

  ghost predicate GoodAt(local: seq<SyncCursor>, peer: seq<SyncCursor>, j: nat)
    requires j < |peer|
  {
    var other := peer[j];
    other.key != 0 && (other.pending == 0 || other.pending > other.acknowledged) &&
    Find(PeerKeys(peer), other.key) == j && Compatible(CursorIn(local, other.key), other)
  }

  lemma {:induction false} ScreenPeerExact(local: seq<SyncCursor>, peer: seq<SyncCursor>, i: nat)
    requires i <= |peer|
    ensures ScreenPeer(local, peer, i) == Ok <==> forall j :: i <= j < |peer| ==> GoodAt(local, peer, j)
    decreases |peer| - i
  {
    if i < |peer| {
      var other := peer[i];
      assert PeerKeys(peer)[i] == other.key;
      assert Find(PeerKeys(peer), other.key) <= i;
      ScreenPeerExact(local, peer, i + 1);
      if !GoodAt(local, peer, i) {
        assert ScreenPeer(local, peer, i) != Ok;
      } else {
        assert ScreenPeer(local, peer, i) == ScreenPeer(local, peer, i + 1);
      }
    }
  }

  lemma {:induction false} ScreenLocalExact(local: seq<SyncCursor>, peer: seq<SyncCursor>, i: nat)
    requires i <= |local|
    ensures ScreenLocal(local, peer, i) == Ok <==>
            forall j :: i <= j < |local| ==> Compatible(local[j], CursorIn(peer, local[j].key))
    decreases |local| - i
  {
    if i < |local| {
      ScreenLocalExact(local, peer, i + 1);
    }
  }

  lemma {:induction false} RetiredLookup(outbox: seq<Entry>, other: SyncCursor)
    requires Distinct(EntryKeys(outbox)) && other.key != 0
    ensures Distinct(EntryKeys(Retired(outbox, other)))
    ensures Lookup(Retired(outbox, other), other.key) ==
            if Lookup(outbox, other.key).revision <= other.applied then FREE else Lookup(outbox, other.key)
    ensures forall k :: k != 0 && k != other.key ==> Lookup(Retired(outbox, other), k) == Lookup(outbox, k)
  {
    var i := Find(EntryKeys(outbox), other.key);
    forall j | 0 <= j < |outbox| && outbox[j].key == other.key
      ensures j == i
    {
      FoundAt(EntryKeys(outbox), j);
    }
    if i < |outbox| && outbox[i].revision <= other.applied {
      assert Retired(outbox, other) == outbox[i := FREE];
      LookupAfterFree(outbox, i);
    } else {
      assert Retired(outbox, other) == outbox;
    }
  }

  /** Adopting a key sets its acknowledged revision and drops its pending value when that was applied. */
  ghost predicate Adopted(s: Store, t: Store, other: SyncCursor) {
    CursorOf(t.cursors, other.key) == Cursor(other.key, other.applied, Applied(s, other.key)) &&
    Inbox(t, other.key) == Inbox(s, other.key) &&
    Outbox(t, other.key) == if Pending(s, other.key) <= other.applied then FREE else Outbox(s, other.key)
  }

  function FreeCursors(s: Store): nat { multiset(CursorKeys(s.cursors))[0] }

  lemma AdoptEffect(s: Store, other: SyncCursor)
    requires Shaped(s) && other.key != 0
    requires Find(CursorKeys(s.cursors), other.key) < KEY_CAPACITY || FreeCursors(s) > 0
    ensures var t := Adopt(s, other).0;
            Shaped(t) && Adopted(s, t, other) && OthersSame(s, t, other.key) &&
            Place(CursorKeys(s.cursors), other.key) < KEY_CAPACITY &&
            FreeCursors(t) == FreeCursors(s) -
            if Find(CursorKeys(s.cursors), other.key) < KEY_CAPACITY then 0 else 1
  {
    hide Distinct;
    var keys := CursorKeys(s.cursors);
    var j := Place(keys, other.key);
    if Find(keys, other.key) == KEY_CAPACITY {
      assert 0 in multiset(keys);
      var z :| 0 <= z < |keys| && keys[z] == 0;
    }
    var c := s.cursors[j];
    PlacedCursor(s, other.key);
    RetiredLookup(s.outbox, other);
    var d := Cursor(other.key, other.applied, c.applied);
    CursorAfterWrite(s.cursors, d);
    assert CursorKeys(s.cursors[j := d]) == keys[j := other.key];
  }

  /** What `n` adopted cursors make of a store. */
  ghost predicate AdoptedFirst(s: Store, t: Store, peer: seq<SyncCursor>, n: nat)
    requires n <= |peer|
  {
    forall k: uint16 :: k != 0 ==>
      (Find(PeerKeys(peer), k) < n ==> Adopted(s, t, CursorIn(peer, k))) &&
      (Find(PeerKeys(peer), k) >= n ==> SameKey(s, t, k))
  }

  lemma {:induction false} AdoptAllEffect(s: Store, peer: seq<SyncCursor>, n: nat)
    requires Shaped(s) && n <= |peer|
    requires Distinct(PeerKeys(peer)) && forall i :: 0 <= i < |peer| ==> peer[i].key != 0
    requires NewKeys(s, peer, n) <= FreeCursors(s)
    ensures var t := AdoptAll(s, peer, n).0;
            Shaped(t) && AdoptedFirst(s, t, peer, n) && FreeCursors(t) == FreeCursors(s) - NewKeys(s, peer, n)
    ensures n > 0 ==> Place(CursorKeys(AdoptAll(s, peer, n - 1).0.cursors), peer[n - 1].key) < KEY_CAPACITY
  {
    assert |s.cursors| == KEY_CAPACITY;
    hide Distinct, FreeCursors, Shaped, Adopt, Adopted, AdoptedFirst, Place;
    if n == 0 {
      assert AdoptAll(s, peer, 0).0 == s;
      NothingAdopted(s, peer);
    } else {
      AdoptAllEffect(s, peer, n - 1);
      var t := AdoptAll(s, peer, n - 1).0;
      var other := peer[n - 1];
      FoundAt(PeerKeys(peer), n - 1);
      UntouchedKey(s, t, peer, n - 1);
      SameKeyFound(s, t, other.key);
      AdoptEffect(t, other);
      AdoptedStep(s, t, Adopt(t, other).0, peer, n);
    }
  }

  lemma NothingAdopted(s: Store, peer: seq<SyncCursor>)
    ensures AdoptedFirst(s, s, peer, 0)
  {
  }

  lemma UntouchedKey(s: Store, t: Store, peer: seq<SyncCursor>, n: nat)
    requires n < |peer| && AdoptedFirst(s, t, peer, n)
    requires peer[n].key != 0 && Find(PeerKeys(peer), peer[n].key) == n
    ensures SameKey(s, t, peer[n].key)
  {
  }

  lemma SameKeyFound(s: Store, t: Store, key: uint16)
    requires Shaped(s) && Shaped(t) && key != 0 && SameKey(s, t, key)
    ensures Find(CursorKeys(s.cursors), key) == KEY_CAPACITY <==> Find(CursorKeys(t.cursors), key) == KEY_CAPACITY
  {
    assert CursorOf(s.cursors, key).key == key <==> Find(CursorKeys(s.cursors), key) < KEY_CAPACITY;
    assert CursorOf(t.cursors, key).key == key <==> Find(CursorKeys(t.cursors), key) < KEY_CAPACITY;
  }

  lemma AdoptedStep(s: Store, t: Store, u: Store, peer: seq<SyncCursor>, n: nat)
    requires 0 < n <= |peer| && peer[n - 1].key != 0 && Find(PeerKeys(peer), peer[n - 1].key) == n - 1
    requires AdoptedFirst(s, t, peer, n - 1)
    requires Adopted(t, u, peer[n - 1]) && OthersSame(t, u, peer[n - 1].key)
    ensures AdoptedFirst(s, u, peer, n)
  {
    hide Find;
    var other := peer[n - 1];
    assert CursorIn(peer, other.key) == other;
    assert SameKey(s, t, other.key);
    forall k: uint16 | k != 0
      ensures (Find(PeerKeys(peer), k) < n ==> Adopted(s, u, CursorIn(peer, k))) &&
              (Find(PeerKeys(peer), k) >= n ==> SameKey(s, u, k))
    {
      if k != other.key {
        assert SameKey(t, u, k);
        assert Find(PeerKeys(peer), k) != n - 1;
      }
    }
  }

  lemma ScreenedPeer(s: Store, peer: seq<SyncCursor>)
    requires ValidStore(s) && Screen(s, peer) == Ok
    ensures Distinct(PeerKeys(peer)) && |peer| <= KEY_CAPACITY
    ensures forall j :: 0 <= j < |peer| ==> peer[j].key != 0
    ensures forall k: uint16 :: k != 0 ==> Compatible(CursorIn(Cursors(s), k), CursorIn(peer, k))
    ensures NewKeys(s, peer, |peer|) <= FreeCursors(s)
  {
    var local := Cursors(s);
    ScreenPeerExact(local, peer, 0);
    ScreenLocalExact(local, peer, 0);
    CursorsTell(s);
    assert forall j :: 0 <= j < |peer| ==> GoodAt(local, peer, j);
    forall j | 0 <= j < |peer|
      ensures peer[j].key != 0
    {
      assert GoodAt(local, peer, j);
    }
    forall i, j | 0 <= i < j < |peer|
      ensures peer[i].key != peer[j].key
    {
      assert GoodAt(local, peer, i) && GoodAt(local, peer, j);
    }
    forall k: uint16 | k != 0
      ensures Compatible(CursorIn(local, k), CursorIn(peer, k))
    {
      var i, j := Find(PeerKeys(peer), k), Find(PeerKeys(local), k);
      if i < |peer| {
        assert GoodAt(local, peer, i);
      } else if j < |local| {
        assert Compatible(local[j], CursorIn(peer, local[j].key));
      }
    }
  }

  /** After reconciling, every acknowledged revision is one the peer told it applied, and every newest one is as before. */
  ghost predicate Reconciled(s: Store, t: Store, peer: seq<SyncCursor>) {
    forall k: uint16 :: k != 0 ==> ReconciledKey(s, t, peer, k)
  }

  ghost predicate ReconciledKey(s: Store, t: Store, peer: seq<SyncCursor>, k: uint16) {
    Inbox(t, k) == Inbox(s, k) && Applied(t, k) == Applied(s, k) && Top(t, k) == Top(s, k) &&
    Acknowledged(t, k) >= Acknowledged(s, k) &&
    (Acknowledged(t, k) == Acknowledged(s, k) || Acknowledged(t, k) == CursorIn(peer, k).applied) &&
    (Outbox(t, k) == Outbox(s, k) || Outbox(t, k) == FREE)
  }

  lemma ReconcileEffect(s: Store, peer: seq<SyncCursor>, saved: bool)
    requires ValidStore(s)
    ensures var (t, status) := Reconcile(s, peer, saved);
            ValidStore(t) && if status == Ok then Reconciled(s, t, peer) else t == s
  {
    hide Distinct, Shaped, Find, FreeCursors, Screen;
    if Screen(s, peer) == Ok {
      ScreenedPeer(s, peer);
      CursorsTell(s);
      AdoptAllEffect(s, peer, |peer|);
      var t := AdoptAll(s, peer, |peer|).0;
      forall k: uint16 | k != 0
        ensures ReconciledKey(s, t, peer, k) && Consistent(t, k)
      {
        ReconcileKey(s, t, peer, k);
      }
    }
  }

  lemma ReconcileKey(s: Store, t: Store, peer: seq<SyncCursor>, k: uint16)
    requires k != 0 && Consistent(s, k) && AdoptedFirst(s, t, peer, |peer|)
    requires Compatible(SyncCursor(k, Acknowledged(s, k), Applied(s, k), Pending(s, k)), CursorIn(peer, k))
    ensures ReconciledKey(s, t, peer, k) && Consistent(t, k)
  {
    hide Find;
    if Find(PeerKeys(peer), k) < |peer| {
      assert Adopted(s, t, CursorIn(peer, k));
    } else {
      assert SameKey(s, t, k);
    }
  }

  lemma EmptyStoreIsValid()
    ensures ValidStore(EmptyStore())
    ensures forall k: uint16 :: k != 0 ==>
      Outbox(EmptyStore(), k) == FREE && Inbox(EmptyStore(), k) == FREE && CursorOf(EmptyStore().cursors, k) == UNUSED
  {
  }

  // --- the engine object ------------------------------------------------------------

  /** `saved` is the outcome of the store's Save, should the operation persist the state. */
  class SyncEngine {
    const outbox: array<Entry>
    const inbox: array<Entry>
    const cursors: array<Cursor>

    ghost predicate Valid()
      reads this, outbox, inbox, cursors
    {
      outbox != inbox && ValidStore(View())
    }

    ghost function View(): Store
      reads this, outbox, inbox, cursors
    {
      Store(outbox[..], inbox[..], cursors[..])
    }

    constructor ()
      ensures Valid() && View() == EmptyStore()
      ensures fresh(outbox) && fresh(inbox) && fresh(cursors)
    {
      outbox := new Entry[KEY_CAPACITY](_ => FREE);
      inbox := new Entry[KEY_CAPACITY](_ => FREE);
      cursors := new Cursor[KEY_CAPACITY](_ => UNUSED);
      new;
      EmptyStoreIsValid();
      assert View() == EmptyStore();
    }

    method FindCursorSlot(key: uint16) returns (i: nat)
      ensures i == Place(CursorKeys(cursors[..]), key)
    {
      ghost var keys := CursorKeys(cursors[..]);
      var open: nat := cursors.Length;
      i := 0;
      while i < cursors.Length
        invariant 0 <= i <= cursors.Length
        invariant forall j :: 0 <= j < i ==> keys[j] != key
        invariant open <= cursors.Length && (open < cursors.Length ==> keys[open] == 0)
        invariant forall j :: 0 <= j < i && j < open ==> keys[j] != 0
        invariant open < cursors.Length ==> open < i
      {
        if cursors[i].key == key {
          return;
        }
        if cursors[i].key == 0 && open == cursors.Length {
          open := i;
        }
        i := i + 1;
      }
      i := open;
    }

    /** The slot of `key` in one of the two boxes, or the first free slot where there is none. */
    method FindSlot(box: array<Entry>, key: uint16) returns (i: nat)
      ensures i == Place(EntryKeys(box[..]), key)
    {
      ghost var keys := EntryKeys(box[..]);
      var open: nat := box.Length;
      i := 0;
      while i < box.Length
        invariant 0 <= i <= box.Length
        invariant forall j :: 0 <= j < i ==> keys[j] != key
        invariant open <= box.Length && (open < box.Length ==> keys[open] == 0)
        invariant forall j :: 0 <= j < i && j < open ==> keys[j] != 0
        invariant open < box.Length ==> open < i
      {
        if box[i].key == key {
          return;
        }
        if box[i].key == 0 && open == box.Length {
          open := i;
        }
        i := i + 1;
      }
      i := open;
    }

    method FindCursor(key: uint16) returns (c: Cursor)
      ensures c == CursorOf(cursors[..], key)
    {
      var i := 0;
      while i < cursors.Length
        invariant 0 <= i <= cursors.Length
        invariant forall j :: 0 <= j < i ==> CursorKeys(cursors[..])[j] != key
      {
        if cursors[i].key == key {
          return cursors[i];
        }
        i := i + 1;
      }
      c := UNUSED;
    }

    method PutDurableState(key: uint16, revision: uint32, value: seq<byte>, saved: bool) returns (status: Status)
      requires Valid()
      modifies outbox, cursors
      ensures Valid()
      ensures (View(), status) == Put(old(View()), key, revision, value, saved)
    {
      hide Find, ValidStore;
      ghost var s := View();
      PutEffect(s, key, revision, value, saved);
      StoreShape(s);
      if key == 0 || revision == 0 {
        return InvalidArgument;
      }
      if |value| > VALUE_CAPACITY {
        return ValueTooLarge;
      }
      var cursor := FindCursor(key);
      if revision <= cursor.acknowledged {
        return StaleRevision;
      }
      var slot := FindSlot(outbox, key);
      if slot == outbox.Length {
        return OutboxFull;
      }
      if outbox[slot].key == key {
        if revision < outbox[slot].revision {
          return StaleRevision;
        }
        if revision == outbox[slot].revision {
          return if value == outbox[slot].value then Duplicate else RevisionConflict;
        }
      }
      var reserved := FindCursorSlot(key);
      if reserved == cursors.Length {
        return OutboxFull;
      }
      var previousCursor, previous := cursors[reserved], outbox[slot];
      cursors[reserved] := cursors[reserved].(key := key);
      outbox[slot] := Entry(key, revision, value);
      if !saved {
        outbox[slot] := previous;
        cursors[reserved] := previousCursor;
        assert View() == s;
        return StoreError;
      }
      status := Ok;
    }

    method NextDurableState() returns (status: Status, state: Entry)
      requires Valid()
      ensures var i := FirstPending(View().outbox);
              if i < |View().outbox| then
                status == Ok && state == View().outbox[i] && |state.value| <= VALUE_CAPACITY
              else status == NotFound
    {
      PendingIsBounded(View());
      var i := 0;
      while i < outbox.Length
        invariant 0 <= i <= outbox.Length
        invariant forall j :: 0 <= j < i ==> outbox[..][j].key == 0
      {
        if outbox[i].key != 0 {
          return Ok, outbox[i];
        }
        i := i + 1;
      }
      return NotFound, FREE;
    }

    method AcknowledgeDurableState(key: uint16, revision: uint32, saved: bool) returns (status: Status)
      requires Valid()
      modifies outbox, cursors
      ensures Valid()
      ensures (View(), status) == Acknowledge(old(View()), key, revision, saved)
    {
      hide Find, ValidStore;
      ghost var s := View();
      AcknowledgeEffect(s, key, revision, saved);
      StoreShape(s);
      if key == 0 || revision == 0 {
        return InvalidArgument;
      }
      var entry := 0;
      while entry < outbox.Length && outbox[entry].key != key
        invariant 0 <= entry <= outbox.Length
        invariant forall j :: 0 <= j < entry ==> EntryKeys(s.outbox)[j] != key
      {
        entry := entry + 1;
      }
      assert entry == Find(EntryKeys(s.outbox), key);
      if entry == outbox.Length {
        var known := FindCursor(key);
        return if revision <= known.acknowledged then Duplicate else NotFound;
      }
      if revision > outbox[entry].revision {
        return RevisionConflict;
      }
      var cursor := FindCursorSlot(key);
      if cursor == cursors.Length {
        return OutboxFull;
      }
      if revision <= cursors[cursor].acknowledged {
        return Duplicate;
      }
      var priorEntry, priorCursor := outbox[entry], cursors[cursor];
      if revision == outbox[entry].revision {
        outbox[entry] := FREE;
      }
      cursors[cursor] := cursors[cursor].(key := key, acknowledged := revision);
      if !saved {
        outbox[entry] := priorEntry;
        cursors[cursor] := priorCursor;
        assert View() == s;
        return StoreError;
      }
      status := Ok;
    }

    method InspectIncomingState(key: uint16, revision: uint32) returns (status: Status)
      requires Valid()
      ensures status == Inspect(View(), key, revision)
    {
      if key == 0 || revision == 0 {
        return InvalidArgument;
      }
      var cursor := FindCursor(key);
      status := if revision <= cursor.applied then Duplicate else ApplyRequired;
    }

    method AcceptIncomingState(key: uint16, revision: uint32, value: seq<byte>, saved: bool) returns (status: Status)
      requires Valid()
      modifies inbox, cursors
      ensures Valid()
      ensures (View(), status) == AcceptIncoming(old(View()), key, revision, value, saved)
    {
      hide Find, ValidStore;
      ghost var s := View();
      AcceptEffect(s, key, revision, value, saved);
      StoreShape(s);
      if |value| > VALUE_CAPACITY {
        return ValueTooLarge;
      }
      var inspection := InspectIncomingState(key, revision);
      var slot := FindSlot(inbox, key);
      if inspection == Duplicate {
        if slot < inbox.Length && inbox[slot].key == key && inbox[slot].revision == revision &&
           inbox[slot].value != value {
          return RevisionConflict;
        }
        return inspection;
      }
      if inspection != ApplyRequired {
        return inspection;
      }
      var cursor := FindCursorSlot(key);
      if slot == inbox.Length || cursor == cursors.Length {
        return OutboxFull;
      }
      var previousEntry, previousCursor := inbox[slot], cursors[cursor];
      inbox[slot] := Entry(key, revision, value);
      cursors[cursor] := cursors[cursor].(key := key, applied := revision);
      if !saved {
        inbox[slot] := previousEntry;
        cursors[cursor] := previousCursor;
        assert View() == s;
        return StoreError;
      }
      status := Ok;
    }

    method PeerCursors() returns (result: seq<SyncCursor>)
      requires Valid()
      ensures result == Cursors(View())
    {
      hide Find;
      result := [];
      for i := 0 to cursors.Length
        invariant result == CursorList(View(), i)
      {
        var cursor := cursors[i];
        if cursor.key != 0 {
          var pending: uint32 := 0;
          for j := 0 to outbox.Length
            invariant pending == Lookup(outbox[..j], cursor.key).revision
          {
            assert outbox[..j + 1] == outbox[..j] + [outbox[j]];
            LookupPush(View().outbox, j, cursor.key);
            if outbox[j].key == cursor.key {
              pending := outbox[j].revision;
            }
          }
          assert outbox[..outbox.Length] == outbox[..];
          result := result + [SyncCursor(cursor.key, cursor.acknowledged, cursor.applied, pending)];
        }
      }
    }

    method PendingDurableCount() returns (count: nat)
      requires Valid()
      ensures count == PendingCount(View().outbox)
    {
      count := 0;
      for i := 0 to outbox.Length
        invariant count + PendingCount(outbox[i..]) == PendingCount(outbox[..])
      {
        assert outbox[i..][1..] == outbox[i + 1..];
        if outbox[i].key != 0 {
          count := count + 1;
        }
      }
    }

    /** Takes over what the peer applied of one key. */
    method Adopts(other: SyncCursor) returns (changed: bool)
      requires Shaped(View()) && outbox != inbox && other.key != 0
      requires Place(CursorKeys(cursors[..]), other.key) < KEY_CAPACITY
      modifies outbox, cursors
      ensures (View(), changed) == Adopt(old(View()), other)
    {
      assert cursors.Length == KEY_CAPACITY;
      hide Find, Shaped, Place, Retired;
      var cursor := FindCursorSlot(other.key);
      changed := cursors[cursor].key == 0 || cursors[cursor].acknowledged != other.applied;
      cursors[cursor] := Cursor(other.key, other.applied, cursors[cursor].applied);
      var dropped := Retire(other);
      changed := changed || dropped;
    }

    method Retire(other: SyncCursor) returns (dropped: bool)
      requires other.key != 0
      modifies outbox
      ensures outbox[..] == Retired(old(outbox[..]), other)
      ensures dropped == (outbox[..] != old(outbox[..]))
    {
      ghost var before := outbox[..];
      ghost var retired := Retired(before, other);
      dropped := false;
      for i := 0 to outbox.Length
        invariant forall k :: 0 <= k < i ==> outbox[k] == retired[k]
        invariant forall k :: i <= k < outbox.Length ==> outbox[k] == before[k]
        invariant dropped <==> exists k :: 0 <= k < i && retired[k] != before[k]
      {
        if outbox[i].key == other.key && outbox[i].revision <= other.applied {
          outbox[i] := FREE;
          dropped := true;
        }
      }
      assert outbox[..] == retired;
    }

    method ReconcilePeerCursors(peer: seq<SyncCursor>, saved: bool) returns (status: Status)
      requires Valid()
      modifies outbox, cursors
      ensures Valid()
      ensures (View(), status) == Reconcile(old(View()), peer, saved)
    {
      hide Find, ValidStore, Screen, FreeCursors, AdoptedFirst, Adopt, Place, Reconciled;
      ghost var s := View();
      StoreShape(s);
      ReconcileEffect(s, peer, saved);
      status := ScreenPeerCursors(peer);
      if status != Ok {
        return;
      }
      ScreenedPeer(s, peer);
      var previousCursors, previousOutbox := cursors[..], outbox[..];
      var changed := false;
      assert AdoptAll(s, peer, 0) == (s, false);
      for i := 0 to |peer|
        invariant (View(), changed) == AdoptAll(s, peer, i)
        invariant Shaped(View()) && NewKeys(s, peer, |peer|) <= FreeCursors(s)
      {
        NewKeysGrow(s, peer, i);
        AdoptAllEffect(s, peer, i + 1);
        var more := Adopts(peer[i]);
        changed := changed || more;
      }
      if changed && !saved {
        Restore(previousOutbox, previousCursors);
        assert View() == s;
        return StoreError;
      }
      status := Ok;
    }

    method Restore(previousOutbox: seq<Entry>, previousCursors: seq<Cursor>)
      requires |previousOutbox| == outbox.Length && |previousCursors| == cursors.Length && outbox != inbox
      modifies outbox, cursors
      ensures View() == Store(previousOutbox, old(inbox[..]), previousCursors)
    {
      forall i | 0 <= i < outbox.Length {
        outbox[i] := previousOutbox[i];
      }
      forall i | 0 <= i < cursors.Length {
        cursors[i] := previousCursors[i];
      }
    }

    method ScreenPeerCursors(peer: seq<SyncCursor>) returns (status: Status)
      requires Valid()
      ensures status == Screen(View(), peer)
    {
      hide Find, ValidStore, Compatible;
      ghost var s := View();
      StoreShape(s);
      if |peer| > KEY_CAPACITY {
        return InvalidArgument;
      }
      var local := PeerCursors();
      var keys := |local|;
      for i := 0 to |peer|
        invariant keys == |local| + NewKeys(s, peer, i)
        invariant ScreenPeer(local, peer, 0) == ScreenPeer(local, peer, i)
      {
        var other := peer[i];
        if other.key == 0 || (other.pending != 0 && other.pending <= other.acknowledged) {
          return InvalidArgument;
        }
        for j := 0 to i
          invariant forall k :: 0 <= k < j ==> PeerKeys(peer)[k] != other.key
        {
          if peer[j].key == other.key {
            return InvalidArgument;
          }
        }
        var known := FindCursor(other.key);
        assert known.key == 0 <==> Find(CursorKeys(s.cursors), other.key) == |s.cursors|;
        if known.key == 0 {
          keys := keys + 1;
        }
        if !Compatible(CursorIn(local, other.key), other) {
          return ResyncRequired;
        }
      }
      for i := 0 to |local|
        invariant ScreenLocal(local, peer, 0) == ScreenLocal(local, peer, i)
      {
        if !Compatible(local[i], CursorIn(peer, local[i].key)) {
          return ResyncRequired;
        }
      }
      status := if keys > KEY_CAPACITY then OutboxFull else Ok;
    }
  }

  lemma NothingPending(s: Store, key: uint16)
    requires PendingCount(s.outbox) == 0 && key != 0
    ensures Pending(s, key) == 0
  {
    var i := Find(EntryKeys(s.outbox), key);
    assert FirstPending(s.outbox) == |s.outbox|;
  }

  lemma PendingIsBounded(s: Store)
    requires ValidStore(s)
    ensures var i := FirstPending(s.outbox);
            i < |s.outbox| ==> |s.outbox[i].value| <= VALUE_CAPACITY
  {
    var i := FirstPending(s.outbox);
    if i < |s.outbox| {
      EntryAt(s.outbox, i);
      assert Consistent(s, s.outbox[i].key);
    }
  }

  lemma StoreShape(s: Store)
    requires ValidStore(s)
    ensures Shaped(s)
  {
  }

  lemma LookupPush(s: seq<Entry>, j: nat, key: uint16)
    requires Distinct(EntryKeys(s)) && j < |s| && key != 0
    ensures Lookup(s[..j + 1], key) == if s[j].key == key then s[j] else Lookup(s[..j], key)
  {
    assert EntryKeys(s[..j + 1]) == EntryKeys(s[..j]) + [s[j].key];
    FindPush(EntryKeys(s[..j]), s[j].key, key);
    if s[j].key == key {
      FoundAt(EntryKeys(s), j);
    }
  }

  lemma {:induction false} NewKeysGrow(s: Store, peer: seq<SyncCursor>, i: nat)
    requires i < |peer|
    ensures NewKeys(s, peer, i + 1) <= NewKeys(s, peer, |peer|)
    decreases |peer| - i
  {
    if i + 1 < |peer| {
      NewKeysGrow(s, peer, i + 1);
    }
  }
}
