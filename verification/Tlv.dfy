/** Type-length-value fields: a writer over a buffer, a reader over a payload, and the lists they stand for. */
module Tlv {
  import opened Bytes
  import opened Wrappers
  import opened Frame

  const REQUIRED_FIELD_BIT: uint16 := 0x8000
  const MAXIMUM_VALUE_SIZE: nat := 2048

  datatype Field = Field(kind: uint16, required: bool, value: seq<byte>)

  predicate Legal(f: Field) {
    f.kind < REQUIRED_FIELD_BIT && |f.value| <= MAXIMUM_VALUE_SIZE
  }

  function RawField(raw: uint16, value: seq<byte>): (s: seq<byte>)
    requires |value| <= MAXIMUM_VALUE_SIZE
    ensures |s| == 4 + |value|
  {
    Le16(raw) + Le16(|value| as uint16) + value
  }

  function FieldBytes(f: Field): (s: seq<byte>)
    requires Legal(f)
    ensures |s| == 4 + |f.value|
  {
    RawField(if f.required then f.kind + REQUIRED_FIELD_BIT else f.kind, f.value)
  }

  /** A field is its kind, with the highest bit set when it is required, its size and its value. */
  lemma FieldLayout(f: Field)
    requires Legal(f)
    ensures var s := FieldBytes(f);
            |s| == 4 + |f.value| && Little(s, 0, 2) == f.kind as nat + (if f.required then 0x8000 else 0) &&
            Little(s, 2, 2) == |f.value| && s[4..] == f.value
  {
    hide Le16, Little;
    var s := FieldBytes(f);
    Le16Stands(s, 0, if f.required then f.kind + REQUIRED_FIELD_BIT else f.kind);
    Le16Stands(s, 2, |f.value| as uint16);
  }

  ghost predicate AllLegal(fs: seq<Field>) {
    forall i :: 0 <= i < |fs| ==> Legal(fs[i])
  }

  /** The payload that lists `fs` in order. */
  ghost function ListBytes(fs: seq<Field>): seq<byte>
    requires AllLegal(fs)
  {
    if fs == [] then [] else FieldBytes(fs[0]) + ListBytes(fs[1..])
  }

  // --- writing ----------------------------------------------------------------

  class TlvWriter {
    const output: array<byte>
    var size: nat

    ghost predicate Valid()
      reads this
    {
      size <= output.Length
    }

    ghost function Written(): seq<byte>
      requires Valid()
      reads this, output
    {
      output[..size]
    }

    /** Nothing behind what is written differs from `before`. */
    ghost predicate Untouched(before: seq<byte>)
      reads this, output
    {
      size <= output.Length == |before| && output[size..] == before[size..]
    }

    constructor (output: array<byte>)
      ensures Valid() && this.output == output && size == 0 && Written() == []
    {
      this.output := output;
      size := 0;
    }

    method Add(raw: uint16, value: seq<byte>) returns (status: ProtocolStatus)
      requires Valid()
      modifies this, output
      ensures Valid()
      ensures status == (if |value| > MAXIMUM_VALUE_SIZE then Oversized
                         else if output.Length - old(size) < 4 + |value| then BufferTooSmall
                         else Ok)
      ensures size == if status == Ok then old(size) + 4 + |value| else old(size)
      ensures Written() == if status == Ok then old(Written()) + RawField(raw, value) else old(Written())
      ensures Untouched(old(output[..]))
    {
      if |value| > MAXIMUM_VALUE_SIZE {
        return Oversized;
      }
      if output.Length - size < 4 + |value| {
        return BufferTooSmall;
      }
      ghost var before := output[..];
      var field := RawField(raw, value);
      Put(output, size, field);
      assert output[..] == before[..size] + field + before[size + |field|..];
      size := size + |field|;
      assert output[size..] == before[size..];
      status := Ok;
    }

    method Size() returns (n: nat)
      requires Valid()
      ensures n == size <= output.Length && output[..n] == Written()
    {
      n := size;
    }

    method AddUInt32(raw: uint16, value: uint32) returns (status: ProtocolStatus)
      requires Valid()
      modifies this, output
      ensures Valid()
      ensures status == if output.Length - old(size) < 8 then BufferTooSmall else Ok
      ensures size == if status == Ok then old(size) + 8 else old(size)
      ensures Written() == if status == Ok then old(Written()) + RawField(raw, Le32(value)) else old(Written())
      ensures Untouched(old(output[..]))
    {
      status := Add(raw, Le32(value));
    }
  }

  // --- reading ----------------------------------------------------------------

  datatype Next = End | Malformed | Present(field: Field, size: nat)

  /** The field at the front of a payload. */
  function First(s: seq<byte>): (n: Next)
    ensures n.Present? ==> 4 <= n.size <= |s| && Legal(n.field)
  {
    if |s| == 0 then End
    else if |s| < 4 then Malformed
    else
      var raw := Get16(s[0..2]);
      var size := Get16(s[2..4]) as nat;
      if size > MAXIMUM_VALUE_SIZE || size > |s| - 4 then Malformed
      else Present(Field(raw % REQUIRED_FIELD_BIT, raw >= REQUIRED_FIELD_BIT, s[4..4 + size]), 4 + size)
  }

  class TlvReader {
    const input: seq<byte>
    var offset: nat

    ghost predicate Valid()
      reads this
    {
      offset <= |input|
    }

    ghost function Rest(): seq<byte>
      requires Valid()
      reads this
    {
      input[offset..]
    }

    constructor (input: seq<byte>)
      ensures Valid() && this.input == input && offset == 0
    {
      this.input := input;
      offset := 0;
    }

    method Next() returns (r: Next)
      requires Valid()
      modifies this
      ensures Valid()
      ensures r == First(old(Rest()))
      ensures offset == if r.Present? then old(offset) + r.size else old(offset)
    {
      if offset == |input| {
        return End;
      }
      if |input| - offset < 4 {
        return Malformed;
      }
      var raw := Get16(input[offset..offset + 2]);
      var size := Get16(input[offset + 2..offset + 4]) as nat;
      ghost var rest := Rest();
      assert rest[0..2] == input[offset..offset + 2] && rest[2..4] == input[offset + 2..offset + 4];
      if size > MAXIMUM_VALUE_SIZE || size > |input| - offset - 4 {
        return Malformed;
      }
      assert rest[4..4 + size] == input[offset + 4..offset + 4 + size];
      r := Present(Field(raw % REQUIRED_FIELD_BIT, raw >= REQUIRED_FIELD_BIT, input[offset + 4..offset + 4 + size]),
                   4 + size);
      offset := offset + 4 + size;
    }
  }

  /** Every field of a payload, when it is well formed to its end. */
  function Parse(s: seq<byte>): (r: Option<seq<Field>>)
    decreases |s|
  {
    match First(s)
    case End => Some([])
    case Malformed => None
    case Present(f, n) =>
      match Parse(s[n..])
      case None => None
      case Some(fs) => Some([f] + fs)
  }

  lemma FirstOfField(f: Field, rest: seq<byte>)
    requires Legal(f)
    ensures First(FieldBytes(f) + rest) == Present(f, |FieldBytes(f)|)
  {
    var raw := if f.required then f.kind + REQUIRED_FIELD_BIT else f.kind;
    var s := FieldBytes(f) + rest;
    Get16Le16(raw);
    Get16Le16(|f.value| as uint16);
    assert s[0..2] == Le16(raw);
    assert s[2..4] == Le16(|f.value| as uint16);
    assert s[4..4 + |f.value|] == f.value;
  }

  lemma FirstIsField(s: seq<byte>)
    requires First(s).Present?
    ensures s == FieldBytes(First(s).field) + s[First(s).size..]
  {
    Le16Get16(s[0..2]);
    Le16Get16(s[2..4]);
    var f := First(s).field;
    assert FieldBytes(f) == s[0..2] + s[2..4] + s[4..First(s).size];
  }

  /** Reading a list back gives that list, */
  lemma {:induction false} ParseInvertsList(fs: seq<Field>)
    requires AllLegal(fs)
    ensures Parse(ListBytes(fs)) == Some(fs)
  {
    if fs != [] {
      var rest := ListBytes(fs[1..]);
      FirstOfField(fs[0], rest);
      assert (FieldBytes(fs[0]) + rest)[|FieldBytes(fs[0])|..] == rest;
      ParseInvertsList(fs[1..]);
      assert [fs[0]] + fs[1..] == fs;
    }
  }

  /** and a payload is well formed only when it is the list of what was read. */
  lemma {:induction false} ParseAcceptsOnlyLists(s: seq<byte>)
    requires Parse(s).Some?
    ensures AllLegal(Parse(s).value) && ListBytes(Parse(s).value) == s
    decreases |s|
  {
    if First(s).Present? {
      FirstIsField(s);
      ParseAcceptsOnlyLists(s[First(s).size..]);
      assert Parse(s).value[1..] == Parse(s[First(s).size..]).value;
    }
  }

  // --- collecting the fields a message knows ---------------------------------

  lemma {:induction false} ListPush(fs: seq<Field>, f: Field)
    requires AllLegal(fs) && Legal(f)
    ensures AllLegal(fs + [f]) && ListBytes(fs + [f]) == ListBytes(fs) + FieldBytes(f)
  {
    hide RawField, FieldBytes;
    if fs == [] {
      assert [f][1..] == [];
      assert ListBytes([f]) == FieldBytes(f);
      assert fs + [f] == [f];
    } else {
      assert (fs + [f])[1..] == fs[1..] + [f] && (fs + [f])[0] == fs[0];
      ListPush(fs[1..], f);
    }
  }

  /** What a decoder does with one field. */
  datatype Verdict = Take | Refuse | Skip

  type Rule = Field -> Verdict

  /** The values taken by kind; nothing when a field is refused or taken twice. */
  function Collect(fs: seq<Field>, rule: Rule): (r: Option<map<uint16, seq<byte>>>)
    decreases |fs|
  {
    if fs == [] then Some(map[])
    else
      match Collect(fs[..|fs| - 1], rule)
      case None => None
      case Some(m) => Absorb(m, fs[|fs| - 1], rule)
  }

  function Absorb(m: map<uint16, seq<byte>>, f: Field, rule: Rule): Option<map<uint16, seq<byte>>> {
    match rule(f)
    case Skip => Some(m)
    case Refuse => None
    case Take => if f.kind in m then None else Some(m[f.kind := f.value])
  }

  lemma CollectPush(fs: seq<Field>, f: Field, rule: Rule)
    ensures Collect(fs + [f], rule) ==
            match Collect(fs, rule) case None => None case Some(m) => Absorb(m, f, rule)
  {
    assert (fs + [f])[..|fs + [f]| - 1] == fs;
  }

  lemma {:induction false} RefusedPrefix(fs: seq<Field>, gs: seq<Field>, rule: Rule)
    requires Collect(fs, rule).None?
    ensures Collect(fs + gs, rule).None?
    decreases |gs|
  {
    if gs == [] {
      assert fs + gs == fs;
    } else {
      RefusedPrefix(fs, gs[..|gs| - 1], rule);
      assert fs + gs == fs + gs[..|gs| - 1] + [gs[|gs| - 1]];
      CollectPush(fs + gs[..|gs| - 1], gs[|gs| - 1], rule);
    }
  }

  /** A decoder has read `seen` up to `offset` and tabulated it as `m`. */
  ghost predicate Midway(payload: seq<byte>, offset: nat, seen: seq<Field>, m: map<uint16, seq<byte>>, rule: Rule) {
    offset <= |payload| && Collect(seen, rule) == Some(m) &&
    Parse(payload) == (match Parse(payload[offset..]) case None => None case Some(fs) => Some(seen + fs))
  }

  lemma NothingSeen(payload: seq<byte>, rule: Rule)
    ensures Midway(payload, 0, [], map[], rule)
  {
    assert payload[0..] == payload;
    if Parse(payload).Some? {
      assert [] + Parse(payload).value == Parse(payload).value;
    }
  }

  lemma ParseStep(s: seq<byte>)
    ensures First(s).End? ==> Parse(s) == Some([])
    ensures First(s).Malformed? ==> Parse(s) == None
    ensures First(s).Present? ==>
              var rest := Parse(s[First(s).size..]);
              Parse(s) == if rest.None? then None else Some([First(s).field] + rest.value)
  {
    hide First;
  }

  /** One more field: the payload is malformed, at its end, refused here, or tabulated further. */
  lemma Advance(payload: seq<byte>, offset: nat, seen: seq<Field>, m: map<uint16, seq<byte>>, rule: Rule)
    requires Midway(payload, offset, seen, m, rule)
    ensures First(payload[offset..]).Malformed? ==> Parse(payload).None?
    ensures First(payload[offset..]).End? ==> Parse(payload) == Some(seen) && Collect(seen, rule) == Some(m)
    ensures First(payload[offset..]).Present? ==>
              var f := First(payload[offset..]).field;
              if Absorb(m, f, rule).Some? then
                Midway(payload, offset + First(payload[offset..]).size, seen + [f], Absorb(m, f, rule).value, rule)
              else Parse(payload).None? || Collect(Parse(payload).value, rule).None?
  {
    hide Absorb, First, Collect, Parse;
    var rest := payload[offset..];
    ParseStep(rest);
    match First(rest) {
      case Malformed =>
      case End => assert seen + [] == seen;
      case Present(f, n) =>
        assert rest[n..] == payload[offset + n..];
        CollectPush(seen, f, rule);
        if Parse(rest[n..]).Some? {
          var fs := Parse(rest[n..]).value;
          assert seen + ([f] + fs) == seen + [f] + fs;
          if Absorb(m, f, rule).None? {
            RefusedPrefix(seen + [f], fs, rule);
          }
        }
    }
  }

  /** No field is refused and no kind is taken twice. */
  ghost predicate Acceptable(fs: multiset<Field>, rule: Rule) {
    (forall f <- fs :: rule(f) != Refuse) &&
    (forall f <- fs :: rule(f) == Take ==> fs[f] == 1) &&
    (forall f <- fs, g <- fs :: rule(f) == Take && rule(g) == Take && f.kind == g.kind ==> f == g)
  }

  /** `m` is the table of the taken fields of `fs`. */
  ghost predicate Tabulates(m: map<uint16, seq<byte>>, fs: multiset<Field>, rule: Rule) {
    (forall f <- fs :: rule(f) == Take ==> f.kind in m && m[f.kind] == f.value) &&
    (forall k <- m :: exists f :: f in fs && rule(f) == Take && f.kind == k)
  }

  /** The outcome in terms of the fields alone, whatever their order. */
  lemma {:induction false} CollectExact(fs: seq<Field>, rule: Rule)
    ensures Collect(fs, rule).Some? <==> Acceptable(multiset(fs), rule)
    ensures Collect(fs, rule).Some? ==> Tabulates(Collect(fs, rule).value, multiset(fs), rule)
    decreases |fs|
  {
    if fs != [] {
      var f := fs[|fs| - 1];
      var front := fs[..|fs| - 1];
      CollectExact(front, rule);
      assert fs == front + [f];
      var ms := multiset(front);
      assert multiset(fs) == ms + multiset{f};
      CollectStep(ms, f, rule, Collect(front, rule));
    }
  }

  /** One more field keeps a list acceptable exactly when it is skipped, or taken for a new kind. */
  lemma AcceptableStep(ms: multiset<Field>, f: Field, rule: Rule)
    ensures Acceptable(ms + multiset{f}, rule) <==>
            Acceptable(ms, rule) && rule(f) != Refuse &&
            (rule(f) == Take ==> forall g <- ms :: rule(g) == Take ==> g.kind != f.kind)
  {
    var all := ms + multiset{f};
    assert forall g :: g in all <==> g in ms || g == f;
    assert forall g <- ms :: all[g] == if g == f then ms[g] + 1 else ms[g];
    assert all[f] == ms[f] + 1;
    if Acceptable(all, rule) {
      assert Acceptable(ms, rule);
      assert f in all;
    }
  }

  lemma TabulatesStep(m: map<uint16, seq<byte>>, ms: multiset<Field>, f: Field, rule: Rule)
    requires Tabulates(m, ms, rule)
    requires Absorb(m, f, rule).Some?
    ensures Tabulates(Absorb(m, f, rule).value, ms + multiset{f}, rule)
  {
    var all := ms + multiset{f};
    var n := Absorb(m, f, rule).value;
    assert forall g :: g in all <==> g in ms || g == f;
    forall k | k in n
      ensures exists g :: g in all && rule(g) == Take && g.kind == k
    {
      if k in m {
        var g :| g in ms && rule(g) == Take && g.kind == k;
        assert g in all;
      } else {
        assert f in all;
      }
    }
  }

  lemma CollectStep(ms: multiset<Field>, f: Field, rule: Rule, before: Option<map<uint16, seq<byte>>>)
    requires before.Some? <==> Acceptable(ms, rule)
    requires before.Some? ==> Tabulates(before.value, ms, rule)
    ensures (before.Some? && Absorb(before.value, f, rule).Some?) <==> Acceptable(ms + multiset{f}, rule)
    ensures before.Some? && Absorb(before.value, f, rule).Some? ==>
              Tabulates(Absorb(before.value, f, rule).value, ms + multiset{f}, rule)
  {
    hide Acceptable;
    AcceptableStep(ms, f, rule);
    if before.Some? && Absorb(before.value, f, rule).Some? {
      TabulatesStep(before.value, ms, f, rule);
    }
  }

  /** A field that put `k` into the table. */
  lemma TakenFrom(fs: seq<Field>, rule: Rule, k: uint16) returns (f: Field)
    requires Collect(fs, rule).Some? && k in Collect(fs, rule).value
    ensures f in fs && rule(f) == Take && f.kind == k && f.value == Collect(fs, rule).value[k]
  {
    CollectExact(fs, rule);
    f :| f in multiset(fs) && rule(f) == Take && f.kind == k;
  }

  /** A list of taken fields of distinct kinds is tabulated whole. */
  lemma {:induction false} CollectAll(fs: seq<Field>, rule: Rule)
    requires forall i :: 0 <= i < |fs| ==> rule(fs[i]) == Take
    requires forall i, j :: 0 <= i < j < |fs| ==> fs[i].kind != fs[j].kind
    ensures Collect(fs, rule).Some?
    ensures forall i :: 0 <= i < |fs| ==>
      fs[i].kind in Collect(fs, rule).value && Collect(fs, rule).value[fs[i].kind] == fs[i].value
    ensures forall k <- Collect(fs, rule).value :: exists i :: 0 <= i < |fs| && fs[i].kind == k
  {
    if fs != [] {
      CollectAll(fs[..|fs| - 1], rule);
    }
  }

  /** Reordering fields and inserting skipped ones changes nothing. */
  lemma OrderAndSkippedFieldsDoNotMatter(fs: seq<Field>, gs: seq<Field>, extra: multiset<Field>, rule: Rule)
    requires multiset(gs) == multiset(fs) + extra
    requires forall f <- extra :: rule(f) == Skip
    ensures Collect(gs, rule) == Collect(fs, rule)
  {
    CollectExact(fs, rule);
    CollectExact(gs, rule);
    var a, b := multiset(fs), multiset(gs);
    assert forall f <- a :: f in b;
    assert forall f <- b :: f in a || f in extra;
    assert forall f <- a :: rule(f) == Take ==> f !in extra && a[f] == b[f];
    assert Acceptable(a, rule) <==> Acceptable(b, rule);
    if Collect(fs, rule).Some? {
      SameTable(Collect(fs, rule).value, Collect(gs, rule).value, a, b, rule);
    }
  }

  lemma SameTable(m: map<uint16, seq<byte>>, n: map<uint16, seq<byte>>, a: multiset<Field>, b: multiset<Field>,
                  rule: Rule)
    requires Tabulates(m, a, rule) && Tabulates(n, b, rule)
    requires forall f :: rule(f) == Take ==> (f in a <==> f in b)
    ensures m == n
  {
    forall k | k in m
      ensures k in n && m[k] == n[k]
    {
      var f :| f in a && rule(f) == Take && f.kind == k;
    }
    forall k | k in n
      ensures k in m
    {
      var f :| f in b && rule(f) == Take && f.kind == k;
    }
  }
}
