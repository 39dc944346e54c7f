/** Lossless bit codecs of the date digits: packed bits, run lengths, and run lengths of two transforms. */
module DigitCodec {
  import opened Bytes
  import opened Arithmetic
  import opened Wrappers

  datatype CodecError =
    | InvalidBits
    | UnknownCodec
    | InvalidDimensions
    | InvalidRawLength
    | InvalidRunLength
    | NoCandidates
    | RoundTripMismatch

  // --- packed bits ----------------------------------------------------------

  predicate AreBits(bits: seq<int>) {
    forall i | 0 <= i < |bits| :: bits[i] == 0 || bits[i] == 1
  }

  /** Bit i of a group, zero past its end. */
  function At(bits: seq<int>, i: nat): (b: int)
    requires AreBits(bits)
    ensures 0 <= b <= 1
  {
    if i < |bits| then bits[i] else 0
  }

  function Nibble(a: int, b: int, c: int, d: int): (n: int)
    requires 0 <= a <= 1 && 0 <= b <= 1 && 0 <= c <= 1 && 0 <= d <= 1
    ensures 0 <= n < 16
  {
    8 * a + 4 * b + 2 * c + d
  }

  /** Up to eight bits, most significant first. */
  function PackByte(group: seq<int>): byte
    requires AreBits(group)
  {
    var h := Nibble(At(group, 0), At(group, 1), At(group, 2), At(group, 3));
    var l := Nibble(At(group, 4), At(group, 5), At(group, 6), At(group, 7));
    (16 * h + l) as byte
  }

  function UnpackNibble(n: int): seq<int> { [n / 8 % 2, n / 4 % 2, n / 2 % 2, n % 2] }

  function UnpackByte(b: byte): (bits: seq<int>)
    ensures |bits| == 8
  {
    UnpackNibble(b as int / 16) + UnpackNibble(b as int % 16)
  }

  function Pack(bits: seq<int>): (payload: seq<byte>)
    requires AreBits(bits)
    ensures |payload| == (|bits| + 7) / 8
  {
    if |bits| == 0 then []
    else if |bits| <= 8 then [PackByte(bits)]
    else [PackByte(bits[..8])] + Pack(bits[8..])
  }

  function Unpack(payload: seq<byte>): (bits: seq<int>)
    ensures |bits| == 8 * |payload|
  {
    if payload == [] then [] else UnpackByte(payload[0]) + Unpack(payload[1..])
  }

  lemma EvenPart(x: int, b: int)
    requires 0 <= b <= 1
    ensures (2 * x + b) / 2 == x && (2 * x + b) % 2 == b
  {
  }

  lemma Quarter(n: int)
    ensures n / 4 == n / 2 / 2 && n / 8 == n / 2 / 2 / 2
  {
  }

  lemma NibbleRoundTrip(a: int, b: int, c: int, d: int)
    requires 0 <= a <= 1 && 0 <= b <= 1 && 0 <= c <= 1 && 0 <= d <= 1
    ensures UnpackNibble(Nibble(a, b, c, d)) == [a, b, c, d]
  {
    var p := 2 * a + b;
    var q := 2 * p + c;
    var n := 2 * q + d;
    EvenPart(0, a);
    EvenPart(a, b);
    EvenPart(p, c);
    EvenPart(q, d);
    Quarter(n);
    assert Nibble(a, b, c, d) == n;
  }

  lemma ByteRoundTrip(group: seq<int>)
    requires AreBits(group) && |group| <= 8
    ensures UnpackByte(PackByte(group))[..|group|] == group
  {
    hide UnpackByte, UnpackNibble, Nibble;
    var h := Nibble(At(group, 0), At(group, 1), At(group, 2), At(group, 3));
    var l := Nibble(At(group, 4), At(group, 5), At(group, 6), At(group, 7));
    NibbleRoundTrip(At(group, 0), At(group, 1), At(group, 2), At(group, 3));
    NibbleRoundTrip(At(group, 4), At(group, 5), At(group, 6), At(group, 7));
    SplitByte(h, l);
  }

  lemma SplitByte(p: int, q: int)
    requires 0 <= p < 16 && 0 <= q < 16
    ensures UnpackByte((16 * p + q) as byte) == UnpackNibble(p) + UnpackNibble(q)
  {
    hide UnpackNibble;
    BytesSplit(p, q);
  }

  lemma BytesSplit(h: int, l: int)
    requires 0 <= h < 16 && 0 <= l < 16
    ensures (16 * h + l) / 16 == h && (16 * h + l) % 16 == l
  {
  }

  lemma {:induction false} PackRoundTrip(bits: seq<int>)
    requires AreBits(bits)
    ensures Unpack(Pack(bits))[..|bits|] == bits
  {
    hide PackByte, UnpackByte;
    if 0 < |bits| <= 8 {
      ByteRoundTrip(bits);
      assert Unpack([PackByte(bits)]) == UnpackByte(PackByte(bits)) + [];
    } else if |bits| > 8 {
      ByteRoundTrip(bits[..8]);
      PackRoundTrip(bits[8..]);
      var head := UnpackByte(PackByte(bits[..8]));
      assert head == bits[..8];
      assert Unpack(Pack(bits)) == head + Unpack(Pack(bits[8..]));
      assert bits == bits[..8] + bits[8..];
    }
  }

  // --- run lengths ----------------------------------------------------------

  function Repeat(bit: int, n: nat): seq<int> {
    seq(n, _ => bit)
  }

  function RunBit(b: byte): int { b as int / 128 }
  function RunSize(b: byte): nat { b as int % 128 + 1 }

  /** The bits a run-length payload stands for. */
  function Expand(payload: seq<byte>): seq<int> {
    if payload == [] then [] else Repeat(RunBit(payload[0]), RunSize(payload[0])) + Expand(payload[1..])
  }

  function RunByte(bit: int, size: nat): byte
    requires (bit == 0 || bit == 1) && 1 <= size <= 128
  {
    (128 * bit + size - 1) as byte
  }

  /** Length of the run of equal bits at the front, looking from position k on. */
  function RunFrom(bits: seq<int>, k: nat): (n: nat)
    requires 1 <= k <= |bits| && forall i | 0 <= i < k :: bits[i] == bits[0]
    ensures k <= n <= |bits| && (forall i | 0 <= i < n :: bits[i] == bits[0]) && (n < |bits| ==> bits[n] != bits[0])
    decreases |bits| - k
  {
    if k == |bits| || bits[k] != bits[0] then k else RunFrom(bits, k + 1)
  }

  /** The greedy encoding: every run cut into pieces of at most 128. */
  function Greedy(bits: seq<int>): (payload: seq<byte>)
    requires AreBits(bits)
    ensures bits != [] ==> payload != []
  {
    if bits == [] then []
    else
      var n := Min(RunFrom(bits, 1), 128);
      [RunByte(bits[0], n)] + Greedy(bits[n..])
  }

  lemma RunIs(bits: seq<int>, n: nat)
    requires 1 <= n <= |bits| && (forall i | 0 <= i < n :: bits[i] == bits[0]) && (n < |bits| ==> bits[n] != bits[0])
    ensures RunFrom(bits, 1) == n
  {
  }

  // One piece of a run that reaches to `end`.
  lemma GreedyStep(bits: seq<int>, i: nat, end: nat)
    requires AreBits(bits) && i < end <= |bits|
    requires (forall j | i <= j < end :: bits[j] == bits[i]) && (end < |bits| ==> bits[end] != bits[i])
    ensures var length := Min(end - i, 128);
      Greedy(bits[i..]) == [RunByte(bits[i], length)] + Greedy(bits[i + length..])
  {
    RunIs(bits[i..], end - i);
    assert bits[i..][Min(end - i, 128)..] == bits[i + Min(end - i, 128)..];
  }

  method Runs(bits: seq<int>) returns (result: seq<byte>)
    requires AreBits(bits)
    ensures result == Greedy(bits)
  {
    hide Greedy, RunByte;
    result := [];
    var i: nat := 0;
    assert bits[0..] == bits;
    while i < |bits|
      invariant i <= |bits|
      invariant result + Greedy(bits[i..]) == Greedy(bits)
    {
      // one group of equal bits
      var count: nat := 1;
      while i + count < |bits| && bits[i + count] == bits[i]
        invariant 1 <= count && i + count <= |bits|
        invariant forall j | i <= j < i + count :: bits[j] == bits[i]
      {
        count := count + 1;
      }
      var bit := bits[i];
      ghost var groupEnd := i + count;
      while count > 0
        invariant i + count == groupEnd <= |bits|
        invariant forall j | i <= j < groupEnd :: bits[j] == bit
        invariant groupEnd < |bits| ==> bits[groupEnd] != bit
        invariant result + Greedy(bits[i..]) == Greedy(bits)
        decreases count
      {
        var length := Min(count, 128);
        GreedyStep(bits, i, groupEnd);
        ghost var piece := [RunByte(bit, length)];
        assert result + (piece + Greedy(bits[i + length..])) == (result + piece) + Greedy(bits[i + length..]);
        result := result + [RunByte(bit, length)];
        count := count - length;
        i := i + length;
      }
    }
    GreedyNothing();
    assert bits[i..] == [];
  }

  lemma GreedyNothing()
    ensures Greedy([]) == []
  {
  }

  lemma RunByteFields(bit: int, size: nat)
    requires (bit == 0 || bit == 1) && 1 <= size <= 128
    ensures RunBit(RunByte(bit, size)) == bit && RunSize(RunByte(bit, size)) == size
  {
  }

  lemma GreedyHead(bits: seq<int>, n: nat)
    requires AreBits(bits) && bits != [] && n == Min(RunFrom(bits, 1), 128)
    ensures 1 <= n <= |bits| && Greedy(bits) == [RunByte(bits[0], n)] + Greedy(bits[n..])
  {
    hide RunByte;
  }

  lemma RunHead(bits: seq<int>, n: nat)
    requires bits != [] && n == Min(RunFrom(bits, 1), 128)
    ensures n <= |bits| && bits == Repeat(bits[0], n) + bits[n..]
  {
  }

  lemma {:induction false} ExpandInvertsGreedy(bits: seq<int>)
    requires AreBits(bits)
    ensures Expand(Greedy(bits)) == bits
  {
    if bits != [] {
      var n := Min(RunFrom(bits, 1), 128);
      ExpandInvertsGreedy(bits[n..]);
      RunByteFields(bits[0], n);
      GreedyHead(bits, n);
      RunHead(bits, n);
      hide RunByte, RunBit, RunSize, Greedy, RunFrom;
      var rest := Greedy(bits[n..]);
      assert ([RunByte(bits[0], n)] + rest)[1..] == rest;
    }
  }

  lemma {:induction false} ExpandedAreBits(payload: seq<byte>)
    ensures AreBits(Expand(payload))
  {
    if payload != [] {
      ExpandedAreBits(payload[1..]);
    }
  }

  // --- the greedy encoding is the shortest ------------------------------------

  lemma {:induction false} DropOne(bits: seq<int>)
    requires AreBits(bits) && bits != []
    ensures |Greedy(bits[1..])| <= |Greedy(bits)|
    decreases |bits|
  {
    var h := RunFrom(bits, 1);
    var rest := bits[1..];
    if h > 1 {
      RunIs(rest, h - 1);
      if h <= 128 {
        assert rest[h - 1..] == bits[h..];
      } else {
        assert rest[128..] == bits[128..][1..];
        DropOne(bits[128..]);
      }
    }
  }

  lemma {:induction false} DropSome(bits: seq<int>, k: nat)
    requires AreBits(bits) && k <= |bits|
    ensures |Greedy(bits[k..])| <= |Greedy(bits)|
    decreases k
  {
    if k == 0 {
      assert bits[0..] == bits;
    } else {
      DropOne(bits);
      DropSome(bits[1..], k - 1);
      assert bits[1..][k - 1..] == bits[k..];
    }
  }

  lemma DropBehind(a: seq<int>, b: seq<int>, k: nat)
    requires k <= |b|
    ensures (a + b)[|a| + k..] == b[k..]
  {
  }

  /** A run in front of bits is one run up to the first other bit. */
  lemma RunInFront(bit: int, n: nat, rest: seq<int>)
    requires AreBits(rest) && (bit == 0 || bit == 1) && n >= 1
    ensures var s := Repeat(bit, n) + rest;
            AreBits(s) && RunFrom(s, 1) == n + if rest == [] || rest[0] != bit then 0 else RunFrom(rest, 1)
  {
    var s := Repeat(bit, n) + rest;
    RunIs(s, n + if rest == [] || rest[0] != bit then 0 else RunFrom(rest, 1));
  }

  lemma PrependRun(bit: int, n: nat, rest: seq<int>)
    requires AreBits(rest) && (bit == 0 || bit == 1) && 1 <= n <= 128
    ensures AreBits(Repeat(bit, n) + rest) && |Greedy(Repeat(bit, n) + rest)| <= 1 + |Greedy(rest)|
  {
    hide Greedy, RunByte, AreBits, RunFrom;
    var s := Repeat(bit, n) + rest;
    RunInFront(bit, n, rest);
    hide Repeat;
    if rest == [] || rest[0] != bit {
      GreedySize(s, n);
      DropBehind(Repeat(bit, n), rest, 0);
      assert rest[0..] == rest;
    } else {
      var m := RunFrom(rest, 1);
      GreedySize(s, n + m);
      GreedySize(rest, m);
      if n + m <= 128 {
        DropBehind(Repeat(bit, n), rest, m);
      } else {
        DropBehind(Repeat(bit, n), rest, 128 - n);
        DropSome(rest, 128 - n);
      }
    }
  }

  lemma GreedySize(bits: seq<int>, n: nat)
    requires AreBits(bits) && bits != [] && RunFrom(bits, 1) == n
    ensures |Greedy(bits)| == 1 + |Greedy(bits[Min(n, 128)..])|
  {
  }

  /** No payload that stands for the same bits is shorter than the greedy one. */
  lemma {:induction false} GreedyIsShortest(payload: seq<byte>)
    ensures AreBits(Expand(payload)) && |Greedy(Expand(payload))| <= |payload|
  {
    ExpandedAreBits(payload);
    if payload != [] {
      GreedyIsShortest(payload[1..]);
      PrependRun(RunBit(payload[0]), RunSize(payload[0]), Expand(payload[1..]));
    }
  }

  // --- the two transforms -----------------------------------------------------

  function Xor(a: int, b: int): int { if a == b then 0 else 1 }

  /** Each bit against the bit one row up. */
  function Delta(bits: seq<int>, width: nat): (d: seq<int>)
    ensures |d| == |bits|
  {
    seq(|bits|, i requires 0 <= i < |bits| => Xor(bits[i], if i >= width then bits[i - width] else 0))
  }

  /** Each bit rebuilt from the bit one row up, which is already rebuilt. */
  function Undelta(d: seq<int>, width: nat): (bits: seq<int>)
    requires width >= 1
    ensures |bits| == |d|
  {
    if d == [] then []
    else
      var k := |d| - 1;
      var before := Undelta(d[..k], width);
      before + [if k >= width then Xor(d[k], before[k - width]) else d[k]]
  }

  lemma {:induction false} UndeltaPrefix(d: seq<int>, width: nat, n: nat)
    requires width >= 1 && n <= |d|
    ensures Undelta(d, width)[..n] == Undelta(d[..n], width)
  {
    if n == |d| {
      assert d[..n] == d;
    } else {
      UndeltaPrefix(d[..|d| - 1], width, n);
      assert d[..|d| - 1][..n] == d[..n];
    }
  }

  lemma UndeltaAt(d: seq<int>, width: nat, i: nat)
    requires width >= 1 && i < |d|
    ensures Undelta(d, width)[i] == if i >= width then Xor(d[i], Undelta(d, width)[i - width]) else d[i]
  {
    UndeltaPrefix(d, width, i);
    UndeltaPrefix(d, width, i + 1);
    assert d[..i + 1][..i] == d[..i];
    assert Undelta(d, width)[i] == Undelta(d, width)[..i + 1][i];
    assert i >= width ==> Undelta(d, width)[i - width] == Undelta(d, width)[..i][i - width];
  }

  lemma {:induction false} UndeltaBits(d: seq<int>, width: nat)
    requires width >= 1 && AreBits(d)
    ensures AreBits(Undelta(d, width))
  {
    if d != [] {
      UndeltaBits(d[..|d| - 1], width);
    }
  }

  lemma {:induction false} UndeltaInvertsDelta(bits: seq<int>, width: nat)
    requires width >= 1 && AreBits(bits)
    ensures Undelta(Delta(bits, width), width) == bits
  {
    if bits != [] {
      var k := |bits| - 1;
      UndeltaInvertsDelta(bits[..k], width);
      XorTwice(bits[k], if k >= width then bits[k - width] else 0);
      assert Delta(bits, width)[..k] == Delta(bits[..k], width);
      hide Xor;
    }
  }

  lemma XorTwice(a: int, b: int)
    requires a in {0, 1} && b in {0, 1}
    ensures Xor(Xor(a, b), b) == a && Xor(a, b) in {0, 1} && Xor(a, 0) == a
  {
  }

  lemma DeltaInvertsUndelta(d: seq<int>, width: nat)
    requires width >= 1 && AreBits(d)
    ensures Delta(Undelta(d, width), width) == d
  {
    UndeltaBits(d, width);
    hide Undelta, Xor;
    var bits := Undelta(d, width);
    forall i: nat | i < |d| ensures Delta(bits, width)[i] == d[i] {
      UndeltaAt(d, width, i);
      XorTwice(d[i], if i >= width then bits[i - width] else 0);
    }
  }

  /** The decoder's loop: rows are rebuilt in place, top to bottom. */
  method RebuildRows(result: array<int>, width: nat)
    requires width >= 1
    modifies result
    ensures result[..] == Undelta(old(result[..]), width)
  {
    hide Undelta;
    ghost var d := result[..];
    var i: nat := width;
    TopRow(d, width);
    while i < result.Length
      invariant width <= i
      invariant forall j | 0 <= j < result.Length :: result[j] == if j < i then Undelta(d, width)[j] else d[j]
    {
      UndeltaAt(d, width, i);
      result[i] := Xor(result[i], result[i - width]);
      i := i + 1;
    }
  }

  lemma TopRow(d: seq<int>, width: nat)
    requires width >= 1
    ensures forall j | 0 <= j < |d| && j < width :: Undelta(d, width)[j] == d[j]
  {
    forall j: nat | j < |d| && j < width ensures Undelta(d, width)[j] == d[j] {
      UndeltaAt(d, width, j);
    }
  }

  /** Reads a grid of `rows` rows and `columns` columns by columns. */
  function Transpose(bits: seq<int>, columns: nat, rows: nat): (t: seq<int>)
    requires |bits| == columns * rows && columns >= 1 && rows >= 1
    ensures |t| == |bits|
  {
    seq(|bits|, k requires 0 <= k < |bits| => Pick(bits, columns, rows, k))
  }

  function Pick(bits: seq<int>, columns: nat, rows: nat, k: nat): int
    requires |bits| == columns * rows && columns >= 1 && rows >= 1 && k < |bits|
  {
    CellInGrid(k, columns, rows);
    bits[k % rows * columns + k / rows]
  }

  // k counted by columns is a cell of the grid counted by rows
  lemma CellInGrid(k: nat, columns: nat, rows: nat)
    requires columns >= 1 && rows >= 1 && k < columns * rows
    ensures 0 <= k / rows < columns && 0 <= k % rows < rows && 0 <= k % rows * columns + k / rows < columns * rows
  {
    var c, r := k / rows, k % rows;
    assert k == c * rows + r;
    if c >= columns {
      MultiplyMonotone(columns, c, rows);
    }
    MultiplyMonotone(r + 1, rows, columns);
    assert (r + 1) * columns == r * columns + columns;
  }

  // the cell k of one reading is the cell j of the other
  lemma CellAndBack(k: nat, columns: nat, rows: nat)
    requires columns >= 1 && rows >= 1 && k < columns * rows
    ensures var j := k % columns * rows + k / columns;
      0 <= j < columns * rows && j % rows * columns + j / rows == k
  {
    CellInGrid(k, rows, columns);
    DivModOf(k % columns, k / columns, rows);
  }

  lemma TransposeTwice(bits: seq<int>, columns: nat, rows: nat)
    requires |bits| == columns * rows && columns >= 1 && rows >= 1
    ensures columns * rows == rows * columns
    ensures Transpose(Transpose(bits, columns, rows), rows, columns) == bits
  {
    assert columns * rows == rows * columns;
    var t := Transpose(bits, columns, rows);
    var u := Transpose(t, rows, columns);
    forall k: nat | k < |bits| ensures u[k] == bits[k] {
      CellAndBack(k, columns, rows);
    }
  }

  lemma TransposeBits(bits: seq<int>, columns: nat, rows: nat)
    requires |bits| == columns * rows && columns >= 1 && rows >= 1 && AreBits(bits)
    ensures AreBits(Transpose(bits, columns, rows))
  {
    forall k | 0 <= k < |bits| ensures Transpose(bits, columns, rows)[k] in {0, 1} {
      CellInGrid(k, columns, rows);
    }
  }

  lemma DeltaBits(bits: seq<int>, width: nat)
    ensures AreBits(Delta(bits, width))
  {
  }

  // --- encoding and decoding ----------------------------------------------------

  predicate Grid(bits: seq<int>, width: int) {
    width >= 1 && |bits| % width == 0 && AreBits(bits)
  }

  function EncodeCodec(bits: seq<int>, width: int, codec: int): Result<seq<byte>, CodecError> {
    if !Grid(bits, width) then Failure(InvalidBits)
    else if codec == 0 then Success(Pack(bits))
    else if codec == 1 then Success(Greedy(bits))
    else if codec == 2 then
      DeltaBits(bits, width);
      Success(Greedy(Delta(bits, width)))
    else if codec == 3 then Success(Greedy(ByColumns(bits, width)))
    else Failure(UnknownCodec)
  }

  function ByColumns(bits: seq<int>, width: nat): (t: seq<int>)
    requires Grid(bits, width)
    ensures AreBits(t)
  {
    if bits == [] then [] else
      RowsOf(bits, width);
      TransposeBits(bits, width, |bits| / width);
      Transpose(bits, width, |bits| / width)
  }

  lemma RowsOf(bits: seq<int>, width: nat)
    requires Grid(bits, width) && bits != []
    ensures |bits| / width >= 1 && |bits| == width * (|bits| / width)
  {
  }

  function Decode(payload: seq<byte>, width: int, height: int, codec: int): Result<seq<int>, CodecError> {
    if width < 1 || height < 1 then Failure(InvalidDimensions)
    else if codec == 0 then
      if |payload| != (width * height + 7) / 8 then Failure(InvalidRawLength)
      else Success(Unpack(payload)[..width * height])
    else if codec !in {1, 2, 3} then Failure(UnknownCodec)
    else if |Expand(payload)| != width * height then Failure(InvalidRunLength)
    else if codec == 1 then Success(Expand(payload))
    else if codec == 2 then Success(Undelta(Expand(payload), width))
    else Success(Transpose(Expand(payload), height, width))
  }

  // --- what a payload says of each pixel ------------------------------------------

  function Weight(k: nat): int
    requires k < 8
  {
    [128, 64, 32, 16, 8, 4, 2, 1][k]
  }

  function PackedBit(payload: seq<byte>, i: nat): int
    requires i < 8 * |payload|
  {
    payload[i / 8] as int / Weight(i % 8) % 2
  }

  /** The bit `i` places into the runs: a run is a bit and one less than its length. */
  function RunBitAt(payload: seq<byte>, i: nat): int {
    if payload == [] then 0
    else
      var bit, last := payload[0] as int / 128, payload[0] as nat % 128;
      if i <= last then bit else RunBitAt(payload[1..], i - last - 1)
  }

  /** The parity of a column down to row `r`. */
  function Parity(payload: seq<byte>, width: nat, r: nat, c: nat): int {
    var d := RunBitAt(payload, r * width + c);
    if r == 0 then d else (Parity(payload, width, r - 1, c) + d) % 2
  }

  lemma UpperHalf(x: int)
    requires 0 <= x < 256
    ensures x / 128 == x / 16 / 8 && x / 64 == x / 16 / 4 && x / 32 == x / 16 / 2
  {
  }

  lemma LowerHalf(h: int, l: int)
    requires 0 <= h < 16 && 0 <= l < 16
    ensures (16 * h + l) / 8 == 2 * h + l / 8 && (16 * h + l) / 4 == 4 * h + l / 4 && (16 * h + l) / 2 == 8 * h + l / 2
  {
  }

  lemma EvenMore(h: int, l: int)
    ensures (2 * h + l) % 2 == l % 2
  {
  }

  lemma UnpackedBit(b: byte, k: nat)
    requires k < 8
    ensures UnpackByte(b)[k] == b as int / Weight(k) % 2
  {
    var h, l := b as int / 16, b as int % 16;
    assert b as int == 16 * h + l;
    UpperHalf(b as int);
    LowerHalf(h, l);
    EvenMore(h, l / 8);
    EvenMore(2 * h, l / 4);
    EvenMore(4 * h, l / 2);
    EvenMore(8 * h, l);
  }

  lemma {:induction false} UnpackSays(payload: seq<byte>, i: nat)
    requires i < 8 * |payload|
    ensures Unpack(payload)[i] == PackedBit(payload, i)
  {
    hide UnpackByte, Weight;
    if i < 8 {
      UnpackedBit(payload[0], i);
    } else {
      UnpackSays(payload[1..], i - 8);
    }
  }

  lemma {:induction false} ExpandSays(payload: seq<byte>, i: nat)
    requires i < |Expand(payload)|
    ensures Expand(payload)[i] == RunBitAt(payload, i)
  {
    var size := RunSize(payload[0]);
    if i >= size {
      ExpandSays(payload[1..], i - size);
    }
  }

  lemma CellOf(width: nat, height: nat, r: nat, c: nat)
    requires r < height && c < width
    ensures 0 <= r * width + c < width * height
  {
    MultiplyMonotone(r + 1, height, width);
    assert (r + 1) * width == r * width + width;
  }

  lemma {:induction false} UndeltaSays(payload: seq<byte>, width: nat, r: nat, c: nat)
    requires c < width && r * width + c < |Expand(payload)|
    ensures Undelta(Expand(payload), width)[r * width + c] == Parity(payload, width, r, c)
    ensures Parity(payload, width, r, c) in {0, 1}
  {
    hide Expand, Undelta, RunBitAt;
    var d, i := Expand(payload), r * width + c;
    ExpandSays(payload, i);
    ExpandedAreBits(payload);
    UndeltaAt(d, width, i);
    if r > 0 {
      assert (r - 1) * width == r * width - width;
      UndeltaSays(payload, width, r - 1, c);
    }
  }

  lemma TransposeSays(bits: seq<int>, width: nat, height: nat, r: nat, c: nat)
    requires r < height && c < width && |bits| == height * width
    ensures r * width + c < |bits| && c * height + r < |bits|
    ensures Transpose(bits, height, width)[r * width + c] == bits[c * height + r]
  {
    CellOf(width, height, r, c);
    CellOf(height, width, c, r);
    DivModOf(r, c, width);
  }

  /** The pixel in row `r` and column `c`, in terms of the payload alone and of the codec it was encoded with. */
  ghost predicate PixelSaid(bits: seq<int>, payload: seq<byte>, width: nat, height: nat, codec: int, r: nat, c: nat) {
    var i := r * width + c;
    && |bits| == width * height && i < |bits| && 0 <= codec <= 3
    && (codec == 0 ==> i < 8 * |payload| && bits[i] == PackedBit(payload, i))
    && (codec == 1 ==> bits[i] == RunBitAt(payload, i))
    && (codec == 2 ==> bits[i] == Parity(payload, width, r, c))
    && (codec == 3 ==> bits[i] == RunBitAt(payload, c * height + r))
  }

  lemma DecodedSays(payload: seq<byte>, width: nat, height: nat, codec: int, r: nat, c: nat)
    requires Decode(payload, width, height, codec).Success? && r < height && c < width
    ensures PixelSaid(Decode(payload, width, height, codec).value, payload, width, height, codec, r, c)
  {
    hide Unpack, Expand, Undelta, Transpose, PackedBit, Parity, RunBitAt;
    var i := r * width + c;
    CellOf(width, height, r, c);
    if codec == 0 {
      UnpackSays(payload, i);
    } else if codec == 1 {
      ExpandSays(payload, i);
    } else if codec == 2 {
      UndeltaSays(payload, width, r, c);
    } else {
      TransposeSays(Expand(payload), width, height, r, c);
      ExpandSays(payload, c * height + r);
    }
  }

  // --- round trips, and the best choice -------------------------------------------

  /** Every codec decodes its own encoding of a non-empty grid back to the bits. */
  lemma CodecRoundTrip(bits: seq<int>, width: int, codec: int)
    requires Grid(bits, width) && bits != [] && 0 <= codec <= 3
    ensures EncodeCodec(bits, width, codec).Success?
    ensures Decode(EncodeCodec(bits, width, codec).value, width, |bits| / width, codec) == Success(bits)
  {
    hide Pack, Unpack, Greedy, Expand, Delta, Undelta, Transpose;
    RowsOf(bits, width);
    if codec == 0 {
      PackRoundTrip(bits);
    } else if codec == 1 {
      ExpandInvertsGreedy(bits);
    } else if codec == 2 {
      DeltaBits(bits, width);
      ExpandInvertsGreedy(Delta(bits, width));
      UndeltaInvertsDelta(bits, width);
    } else {
      ExpandInvertsGreedy(ByColumns(bits, width));
      TransposeTwice(bits, width, |bits| / width);
    }
  }

  /** No payload that a codec decodes to the bits is shorter than the codec's own encoding of them. */
  lemma CodecIsShortest(bits: seq<int>, width: int, codec: int, payload: seq<byte>)
    requires Grid(bits, width) && bits != [] && 0 <= codec <= 3
    requires Decode(payload, width, |bits| / width, codec) == Success(bits)
    ensures |EncodeCodec(bits, width, codec).value| <= |payload|
  {
    hide Pack, Unpack, Greedy, Expand, Delta, Undelta, Transpose;
    RowsOf(bits, width);
    var height := |bits| / width;
    if codec != 0 {
      GreedyIsShortest(payload);
      var runs := Expand(payload);
      if codec == 2 {
        DeltaInvertsUndelta(runs, width);
      } else if codec == 3 {
        TransposeTwice(runs, height, width);
      }
    }
  }

  datatype Choice = Choice(payload: seq<byte>, codec: int, rawSize: nat)

  predicate Before(a: (seq<byte>, int), b: (seq<byte>, int)) {
    |a.0| < |b.0| || (|a.0| == |b.0| && a.1 <= b.1)
  }

  predicate Known(codecs: seq<int>) {
    forall i | 0 <= i < |codecs| :: 0 <= codecs[i] <= 3
  }

  method Candidates(bits: seq<int>, width: int, codecs: seq<int>) returns (r: Result<seq<(seq<byte>, int)>, CodecError>)
    ensures r.Success? <==> codecs == [] || (Grid(bits, width) && Known(codecs))
    ensures r.Failure? ==> r.error == if Grid(bits, width) then UnknownCodec else InvalidBits
    ensures r.Success? ==> |r.value| == |codecs|
    ensures r.Success? ==>
      forall i | 0 <= i < |codecs| :: EncodeCodec(bits, width, codecs[i]) == Success(r.value[i].0) && r.value[i].1 == codecs[i]
  {
    hide Grid, Pack, Greedy, Delta, ByColumns;
    var candidates: seq<(seq<byte>, int)> := [];
    for i := 0 to |codecs|
      invariant |candidates| == i && Known(codecs[..i]) && (i > 0 ==> Grid(bits, width))
      invariant forall j | 0 <= j < i :: EncodeCodec(bits, width, codecs[j]) == Success(candidates[j].0) && candidates[j].1 == codecs[j]
    {
      var encoded := EncodeCodec(bits, width, codecs[i]);
      if encoded.Failure? {
        return Failure(encoded.error);
      }
      candidates := candidates + [(encoded.value, codecs[i])];
    }
    return Success(candidates);
  }

  /** The shortest candidate, the lowest codec among equals; `Choose` fails only on input it cannot encode. */
  method Choose(bits: seq<int>, width: int, codecs: seq<int>) returns (r: Result<Choice, CodecError>)
    ensures r.Success? <==> codecs != [] && Grid(bits, width) && Known(codecs) && bits != []
    ensures r.Failure? ==>
      r.error ==
      if codecs == [] then NoCandidates else if !Grid(bits, width) then InvalidBits
      else if !Known(codecs) then UnknownCodec else InvalidDimensions
    ensures r.Success? ==>
      r.value.codec in codecs && r.value.rawSize == (|bits| + 7) / 8 &&
      EncodeCodec(bits, width, r.value.codec) == Success(r.value.payload) &&
      Decode(r.value.payload, width, |bits| / width, r.value.codec) == Success(bits)
    ensures r.Success? ==>
      forall i | 0 <= i < |codecs| ::
      var size := |EncodeCodec(bits, width, codecs[i]).value|;
      |r.value.payload| < size || (|r.value.payload| == size && r.value.codec <= codecs[i])
    ensures r.Success? ==>
      forall c, payload: seq<byte> | c in codecs && Decode(payload, width, |bits| / width, c) == Success(bits) ::
      |r.value.payload| <= |payload|
  {
    var built := Candidates(bits, width, codecs);
    hide EncodeCodec, Decode, Pack;
    if built.Failure? {
      return Failure(built.error);
    }
    var candidates := built.value;
    if candidates == [] {
      return Failure(NoCandidates);
    }
    var best := candidates[0];
    for i := 1 to |candidates|
      invariant best in candidates[..i]
      invariant forall j | 0 <= j < i :: Before(best, candidates[j])
    {
      if !Before(best, candidates[i]) {
        best := candidates[i];
      }
    }
    var decoded := Decode(best.0, width, |bits| / width, best.1);
    if bits == [] {
      EmptyGridFails(best.0, bits, width, best.1);
    } else {
      CodecRoundTrip(bits, width, best.1);
    }
    if decoded.Failure? {
      return Failure(decoded.error);
    }
    if decoded.value != bits {
      return Failure(RoundTripMismatch);
    }
    forall c, payload: seq<byte> | c in codecs && Decode(payload, width, |bits| / width, c) == Success(bits)
      ensures |best.0| <= |payload|
    {
      CodecIsShortest(bits, width, c, payload);
    }
    return Success(Choice(best.0, best.1, |Pack(bits)|));
  }

  lemma EmptyGridFails(payload: seq<byte>, bits: seq<int>, width: int, codec: int)
    requires Grid(bits, width) && bits == []
    ensures Decode(payload, width, |bits| / width, codec) == Failure(InvalidDimensions)
  {
  }
}
