/** Unsigned integers of fixed width and their little-endian images. */
module Bytes {

  newtype byte = x: int | 0 <= x < 0x100
  newtype uint16 = x: int | 0 <= x < 0x1_0000
  newtype uint32 = x: int | 0 <= x < 0x1_0000_0000

  const WORD: int := 0x1_0000_0000

  /** Little-endian image of a 16-bit value. */
  function Le16(v: uint16): (s: seq<byte>)
    ensures |s| == 2
  {
    [(v % 256) as byte, (v / 256) as byte]
  }

  function Get16(s: seq<byte>): uint16
    requires |s| == 2
  {
    s[0] as uint16 + 256 * s[1] as uint16
  }

  /** Little-endian image of a 32-bit value. */
  function Le32(v: uint32): (s: seq<byte>)
    ensures |s| == 4
  {
    [(v % 256) as byte, (v / 256 % 256) as byte, (v / 256 / 256 % 256) as byte, (v / 256 / 256 / 256) as byte]
  }

  function Get32(s: seq<byte>): uint32
    requires |s| == 4
  {
    s[0] as uint32 + 0x100 * s[1] as uint32 + 0x1_0000 * s[2] as uint32 + 0x100_0000 * s[3] as uint32
  }

  lemma Get16Le16(v: uint16)
    ensures Get16(Le16(v)) == v
  {
  }

  lemma Le16Get16(s: seq<byte>)
    requires |s| == 2
    ensures Le16(Get16(s)) == s
  {
    var v := Get16(s);
    assert v % 256 == s[0] as uint16 && v / 256 == s[1] as uint16;
  }

  lemma Get32Le32(v: uint32)
    ensures Get32(Le32(v)) == v
  {
    var w := v / 256;
    var x := w / 256;
    assert v == v % 256 + 256 * w && w == w % 256 + 256 * x && x == x % 256 + 256 * (x / 256);
  }

  lemma LowDigit(low: uint32, high: uint32)
    requires low < 256 && high < 0x100_0000
    ensures (low + 256 * high) % 256 == low && (low + 256 * high) / 256 == high
  {
  }

  lemma Le32Get32(s: seq<byte>)
    requires |s| == 4
    ensures Le32(Get32(s)) == s
  {
    var x := s[2] as uint32 + 256 * s[3] as uint32;
    var w := s[1] as uint32 + 256 * x;
    LowDigit(s[2] as uint32, s[3] as uint32);
    LowDigit(s[1] as uint32, x);
    LowDigit(s[0] as uint32, w);
    assert Get32(s) == s[0] as uint32 + 256 * w;
  }

  /** The number that `size` bytes at `at` stand for, the lowest byte first. */
  function Little(s: seq<byte>, at: nat, size: nat): nat
    requires at + size <= |s|
    decreases size
  {
    if size == 0 then 0 else s[at] as nat + 256 * Little(s, at + 1, size - 1)
  }

  lemma Le16Stands(s: seq<byte>, at: nat, v: uint16)
    requires at + 2 <= |s| && s[at..at + 2] == Le16(v)
    ensures Little(s, at, 2) == v as nat
  {
    assert s[at] == Le16(v)[0] && s[at + 1] == Le16(v)[1];
    assert Little(s, at, 2) == s[at] as nat + 256 * Little(s, at + 1, 1);
    assert Little(s, at + 1, 1) == s[at + 1] as nat + 256 * Little(s, at + 2, 0);
  }

  lemma Le32Stands(s: seq<byte>, at: nat, v: uint32)
    requires at + 4 <= |s| && s[at..at + 4] == Le32(v)
    ensures Little(s, at, 4) == v as nat
  {
    var b := s[at..at + 4];
    Get32Le32(v);
    assert Get32(b) == v;
    assert s[at] == b[0] && s[at + 1] == b[1] && s[at + 2] == b[2] && s[at + 3] == b[3];
    assert Little(s, at, 4) == s[at] as nat + 256 * Little(s, at + 1, 3);
    assert Little(s, at + 1, 3) == s[at + 1] as nat + 256 * Little(s, at + 2, 2);
    assert Little(s, at + 2, 2) == s[at + 2] as nat + 256 * Little(s, at + 3, 1);
    assert Little(s, at + 3, 1) == s[at + 3] as nat + 256 * Little(s, at + 4, 0);
    hide Le32;
  }

  /** Signed reading of `deadline - now` on the wrapping millisecond clock. */
  function Remaining(now: uint32, deadline: uint32): uint32 {
    var d := Minus(deadline, now);
    if 0 < d < 0x8000_0000 then d else 0
  }

  /** Subtraction modulo 2^32. */
  function Minus(a: uint32, b: uint32): uint32 {
    ((a as int - b as int) % WORD) as uint32
  }

  /** Addition modulo 2^32. */
  function Plus(a: uint32, b: uint32): uint32 {
    ((a as int + b as int) % WORD) as uint32
  }

  lemma MinusPlus(deadline: uint32, now: uint32, later: uint32)
    requires later as int <= Minus(deadline, now) as int
    ensures Minus(deadline, Plus(now, later)) == Minus(deadline, now) - later
  {
  }

  /** What remains to a deadline counts down to zero. */
  lemma RemainingLater(now: uint32, deadline: uint32, later: uint32)
    requires later <= Remaining(now, deadline)
    ensures Remaining(Plus(now, later), deadline) == Remaining(now, deadline) - later
  {
    MinusPlus(deadline, now, later);
  }

  /** A delay below half the clock's range remains whole when it begins. */
  lemma RemainingWhole(now: uint32, delay: uint32)
    requires delay < 0x8000_0000
    ensures Remaining(now, Plus(now, delay)) == delay
  {
    var n := now as int + delay as int;
    assert n % WORD == if n < WORD then n else n - WORD;
  }

  lemma SliceOfSlice(s: seq<byte>, at: nat, size: nat, inner: nat, chunk: nat)
    requires at + size <= |s| && inner + chunk <= size
    ensures s[at..at + size][inner..inner + chunk] == s[at + inner..at + inner + chunk]
  {
    var block := s[at..at + size];
    assert forall k :: inner <= k < inner + chunk ==> block[k] == s[at + k];
  }
}
