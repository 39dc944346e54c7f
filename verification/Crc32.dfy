/** CRC-32 with the reflected polynomial of section 8 of RFC 1952. */
module Crc32 {
  import opened Bytes

  // --- bytes as bit vectors -------------------------------------------------

  function LiftNibble(n: byte): (c: bv32)
    requires n < 16
    ensures c < 16 && LowerNibble(c) == n
  {
    if n == 0 then 0
    else if n == 1 then 1
    else if n == 2 then 2
    else if n == 3 then 3
    else if n == 4 then 4
    else if n == 5 then 5
    else if n == 6 then 6
    else if n == 7 then 7
    else if n == 8 then 8
    else if n == 9 then 9
    else if n == 10 then 10
    else if n == 11 then 11
    else if n == 12 then 12
    else if n == 13 then 13
    else if n == 14 then 14
    else 15
  }

  function LowerNibble(c: bv32): (n: byte)
    ensures n < 16
  {
    if c == 0 then 0
    else if c == 1 then 1
    else if c == 2 then 2
    else if c == 3 then 3
    else if c == 4 then 4
    else if c == 5 then 5
    else if c == 6 then 6
    else if c == 7 then 7
    else if c == 8 then 8
    else if c == 9 then 9
    else if c == 10 then 10
    else if c == 11 then 11
    else if c == 12 then 12
    else if c == 13 then 13
    else if c == 14 then 14
    else 15
  }

  /** The byte as the low eight bits of a word. */
  function Lift(b: byte): bv32 {
    (LiftNibble(b / 16) << 4) | LiftNibble(b % 16)
  }

  /** The byte held in the low eight bits of a word. */
  function Lower(c: bv32): byte {
    16 * LowerNibble((c >> 4) & 0xf) + LowerNibble(c & 0xf)
  }

  lemma NibblesSplit(h: bv32, l: bv32)
    requires h < 16 && l < 16
    ensures var c := (h << 4) | l; c & 0xf == l && (c >> 4) & 0xf == h && c & 0xffffff00 == 0
  {
  }

  lemma LowerLift(b: byte)
    ensures Lower(Lift(b)) == b && LowByte(Lift(b))
  {
    NibblesSplit(LiftNibble(b / 16), LiftNibble(b % 16));
  }

  lemma LiftLowerNibble(c: bv32)
    requires c < 16
    ensures LiftNibble(LowerNibble(c)) == c
  {
  }

  lemma NibblesJoin(c: bv32)
    ensures (((c >> 4) & 0xf) << 4) | (c & 0xf) == c & 0xff
    ensures (c >> 4) & 0xf < 16 && c & 0xf < 16
  {
  }

  lemma LiftLower(c: bv32)
    ensures Lift(Lower(c)) == c & 0xff
  {
    NibblesJoin(c);
    LiftLowerNibble((c >> 4) & 0xf);
    LiftLowerNibble(c & 0xf);
  }

  // --- the register ---------------------------------------------------------

  function Xor(a: bv32, b: bv32): bv32 { a ^ b }

  function Shift(c: bv32): bv32 { c >> 1 }

  function Fold(c: bv32): bv32 {
    if c & 1 == 0 then 0 else 0xedb88320
  }

  /** One step of the register: shift out a bit, fold the polynomial in when it was set. */
  function CrcBit(c: bv32): bv32 {
    Xor(Shift(c), Fold(c))
  }

  function CrcBits(c: bv32, n: nat): bv32
    decreases n, c
  {
    if n == 0 then c else CrcBit(CrcBits(c, n - 1))
  }

  function CrcByte(c: bv32, b: byte): bv32 {
    CrcBits(Xor(c, Lift(b)), 8)
  }

  /** The register after a string of bytes. */
  function CrcSeq(c: bv32, s: seq<byte>): bv32 {
    if s == [] then c else CrcByte(CrcSeq(c, s[..|s| - 1]), s[|s| - 1])
  }

  /** The checksum, which chains: `previous` is the checksum of what came before. */
  function Checksum(s: seq<byte>, previous: bv32): bv32 {
    Xor(CrcSeq(Xor(previous, 0xffffffff), s), 0xffffffff)
  }

  method UpdateCrc32(start: bv32, data: seq<byte>) returns (crc: bv32)
    ensures crc == CrcSeq(start, data)
  {
    hide Xor, Lift, CrcBit;
    crc := start;
    for index := 0 to |data|
      invariant crc == CrcSeq(start, data[..index])
    {
      ghost var mixed := Xor(crc, Lift(data[index]));
      crc := Xor(crc, Lift(data[index]));
      for bit := 0 to 8
        invariant crc == CrcBits(mixed, bit)
      {
        MaskFolds(crc);
        var mask: bv32 := 0 - (crc & 1);
        crc := (crc >> 1) ^ (0xedb88320 & mask);
      }
      assert data[..index + 1][..index] == data[..index];
    }
    assert data[..|data|] == data;
  }

  lemma MaskFolds(c: bv32)
    ensures (c >> 1) ^ (0xedb88320 & (0 - (c & 1))) == CrcBit(c)
  {
  }

  method Crc(data: seq<byte>, previous: bv32) returns (crc: bv32)
    ensures crc == Checksum(data, previous)
  {
    hide Xor, CrcSeq;
    crc := UpdateCrc32(Xor(previous, 0xffffffff), data);
    crc := Xor(crc, 0xffffffff);
  }

  // --- the check value ------------------------------------------------------

  function EightBits(c: bv32): bv32 {
    CrcBit(CrcBit(CrcBit(CrcBit(CrcBit(CrcBit(CrcBit(CrcBit(c))))))))
  }

  lemma EightBitsMove(c: bv32)
    ensures CrcBits(c, 8) == EightBits(c)
  {
    hide CrcBit;
    assert CrcBits(c, 1) == CrcBit(CrcBits(c, 0)) == CrcBit(c);
    assert CrcBits(c, 2) == CrcBit(CrcBit(c));
    assert CrcBits(c, 4) == CrcBit(CrcBit(CrcBits(c, 2)));
    assert CrcBits(c, 6) == CrcBit(CrcBit(CrcBits(c, 4)));
  }

  /** One more byte moves the register from `c` to `d`. */
  lemma SeqStep(start: bv32, s: seq<byte>, b: byte, c: bv32, d: bv32)
    requires CrcSeq(start, s) == c && EightBits(Xor(c, Lift(b))) == d
    ensures CrcSeq(start, s + [b]) == d
  {
    hide EightBits, Xor, Lift;
    EightBitsMove(Xor(c, Lift(b)));
    assert (s + [b])[..|s|] == s;
  }

  /** The register after each of the nine digits. */
  function CheckRegister(i: nat): bv32
    requires i <= 9
  {
    [0xffffffff, 0x7c231048, 0xb0acbb32, 0x77b79c2d, 0x641c1f5c, 0x340ac5e3,
     0xf68d2c9e, 0xaffc9660, 0x651f2550, 0x340bc6d9][i]
  }

  function Digit(i: nat): byte
    requires i < 9
  {
    0x31 + i as byte
  }

  lemma DigitMoves(i: nat)
    requires i < 9
    ensures EightBits(Xor(CheckRegister(i), Lift(Digit(i)))) == CheckRegister(i + 1)
  {
    DigitIs(i);
    hide Lift, Digit;
    if i == 0 {
      assert EightBits(Xor(0xffffffff, 0x31)) == 0x7c231048;
    } else if i == 1 {
      assert EightBits(Xor(0x7c231048, 0x32)) == 0xb0acbb32;
    } else if i == 2 {
      assert EightBits(Xor(0xb0acbb32, 0x33)) == 0x77b79c2d;
    } else if i == 3 {
      assert EightBits(Xor(0x77b79c2d, 0x34)) == 0x641c1f5c;
    } else if i == 4 {
      assert EightBits(Xor(0x641c1f5c, 0x35)) == 0x340ac5e3;
    } else if i == 5 {
      assert EightBits(Xor(0x340ac5e3, 0x36)) == 0xf68d2c9e;
    } else if i == 6 {
      assert EightBits(Xor(0xf68d2c9e, 0x37)) == 0xaffc9660;
    } else if i == 7 {
      assert EightBits(Xor(0xaffc9660, 0x38)) == 0x651f2550;
    } else if i == 8 {
      assert EightBits(Xor(0x651f2550, 0x39)) == 0x340bc6d9;
    }
  }

  lemma DigitIs(i: nat)
    requires i < 9
    ensures Lift(Digit(i)) == [0x31, 0x32, 0x33, 0x34, 0x35, 0x36, 0x37, 0x38, 0x39 as bv32][i]
  {
  }

  function Digits(n: nat): (s: seq<byte>)
    requires n <= 9
  {
    if n == 0 then [] else Digits(n - 1) + [Digit(n - 1)]
  }

  lemma {:induction false} RegistersAre(n: nat)
    requires n <= 9
    ensures CrcSeq(0xffffffff, Digits(n)) == CheckRegister(n)
  {
    hide EightBits, Xor, Lift;
    if n > 0 {
      hide CheckRegister;
      RegistersAre(n - 1);
      DigitMoves(n - 1);
      SeqStep(0xffffffff, Digits(n - 1), Digit(n - 1), CheckRegister(n - 1), CheckRegister(n));
    }
  }

  lemma NineDigits()
    ensures Digits(9) == [0x31, 0x32, 0x33, 0x34, 0x35, 0x36, 0x37, 0x38, 0x39]
  {
    assert Digits(0) == [] && Digits(1) == [0x31] && Digits(2) == [0x31, 0x32] && Digits(3) == [0x31, 0x32, 0x33];
    assert Digits(4) == Digits(3) + [0x34] && Digits(5) == Digits(4) + [0x35] && Digits(6) == Digits(5) + [0x36];
    assert Digits(7) == Digits(6) + [0x37] && Digits(8) == Digits(7) + [0x38] && Digits(9) == Digits(8) + [0x39];
  }

  /** The checksum of the text "123456789", the check value of this polynomial, width, bit order and complement. */
  lemma CheckValue()
    ensures Checksum([0x31, 0x32, 0x33, 0x34, 0x35, 0x36, 0x37, 0x38, 0x39], 0) == 0xcbf43926
  {
    hide CrcSeq;
    RegistersAre(9);
    NineDigits();
    hide Digits;
    assert CheckRegister(9) == 0x340bc6d9 && Xor(0, 0xffffffff) == 0xffffffff;
  }

  // --- algebra of the register ----------------------------------------------

  lemma XorCancels(x: bv32, y: bv32)
    ensures Xor(Xor(x, y), y) == x
  {
  }

  lemma XorAssociates(x: bv32, y: bv32, z: bv32)
    ensures Xor(Xor(x, y), z) == Xor(x, Xor(y, z))
  {
  }

  lemma XorSwaps(a: bv32, b: bv32, c: bv32, d: bv32)
    ensures Xor(Xor(a, b), Xor(c, d)) == Xor(Xor(a, c), Xor(b, d))
  {
    XorCommutes(b, c);
    hide Xor;
    XorAssociates(a, b, Xor(c, d));
    XorAssociates(b, c, d);
    XorAssociates(c, b, d);
    XorAssociates(a, c, Xor(b, d));
  }

  lemma XorCommutes(x: bv32, y: bv32)
    ensures Xor(x, y) == Xor(y, x)
  {
  }

  lemma ShiftLinear(a: bv32, b: bv32)
    ensures Shift(Xor(a, b)) == Xor(Shift(a), Shift(b))
  {
  }

  lemma FoldLinear(a: bv32, b: bv32)
    ensures Fold(Xor(a, b)) == Xor(Fold(a), Fold(b))
  {
    Parity(a, b);
  }

  lemma Parity(a: bv32, b: bv32)
    ensures ((a ^ b) & 1 == 0) == ((a & 1 == 0) == (b & 1 == 0))
  {
  }

  lemma CrcBitLinear(a: bv32, b: bv32)
    ensures CrcBit(Xor(a, b)) == Xor(CrcBit(a), CrcBit(b))
  {
    hide Xor, Shift, Fold;
    ShiftLinear(a, b);
    FoldLinear(a, b);
    XorSwaps(Shift(a), Fold(a), Shift(b), Fold(b));
  }

  lemma {:induction false} CrcBitsLinear(a: bv32, b: bv32, n: nat)
    ensures CrcBits(Xor(a, b), n) == Xor(CrcBits(a, n), CrcBits(b, n))
  {
    hide Xor, Shift, Fold, CrcBit;
    if n > 0 {
      CrcBitsLinear(a, b, n - 1);
      CrcBitLinear(CrcBits(a, n - 1), CrcBits(b, n - 1));
    }
  }

  lemma CrcBitInjective(a: bv32, b: bv32)
    requires CrcBit(a) == CrcBit(b)
    ensures a == b
  {
  }

  lemma {:induction false} CrcBitsInjective(a: bv32, b: bv32, n: nat)
    requires CrcBits(a, n) == CrcBits(b, n)
    ensures a == b
  {
    hide Xor, Shift, Fold, CrcBit;
    if n > 0 {
      CrcBitInjective(CrcBits(a, n - 1), CrcBits(b, n - 1));
      CrcBitsInjective(a, b, n - 1);
    }
  }

  lemma {:induction false} CrcSeqConcat(c: bv32, a: seq<byte>, b: seq<byte>)
    ensures CrcSeq(c, a + b) == CrcSeq(CrcSeq(c, a), b)
  {
    hide Xor, Lift, CrcBits;
    if b == [] {
      assert a + b == a;
    } else {
      assert (a + b)[..|a + b| - 1] == a + b[..|b| - 1];
      CrcSeqConcat(c, a, b[..|b| - 1]);
    }
  }

  /** A checksum continued over a second string is the checksum of both. */
  lemma ChecksumChains(a: seq<byte>, b: seq<byte>)
    ensures Checksum(b, Checksum(a, 0)) == Checksum(a + b, 0)
  {
    hide Xor, CrcSeq;
    var start := Xor(0, 0xffffffff);
    XorCancels(CrcSeq(start, a), 0xffffffff);
    CrcSeqConcat(start, a, b);
  }

  // --- error detection ------------------------------------------------------

  /** Bytes that follow an error never cancel it. */
  lemma {:induction false} CrcSeqInjective(a: bv32, b: bv32, s: seq<byte>)
    requires CrcSeq(a, s) == CrcSeq(b, s)
    ensures a == b
  {
    hide Xor, Lift, CrcBits;
    if s != [] {
      var last := Lift(s[|s| - 1]);
      var x, y := CrcSeq(a, s[..|s| - 1]), CrcSeq(b, s[..|s| - 1]);
      CrcBitsInjective(Xor(x, last), Xor(y, last), 8);
      XorCancels(x, last);
      XorCancels(y, last);
      CrcSeqInjective(a, b, s[..|s| - 1]);
    }
  }

  /** Four bytes as the little-endian word they spell. */
  function Word(s: seq<byte>): bv32
    requires |s| == 4
  {
    Join(Lift(s[0]), Lift(s[1]), Lift(s[2]), Lift(s[3]))
  }

  /** The word as four little-endian bytes. */
  function WordBytes(c: bv32): (s: seq<byte>)
    ensures |s| == 4
  {
    [Lower(c & 0xff), Lower((c >> 8) & 0xff), Lower((c >> 16) & 0xff), Lower(c >> 24)]
  }

  lemma PartsJoin(c: bv32)
    ensures Join(c & 0xff, (c >> 8) & 0xff, (c >> 16) & 0xff, c >> 24) == c
  {
  }

  lemma LowPart(c: bv32)
    ensures (c & 0xff) & 0xff == c & 0xff && ((c >> 8) & 0xff) & 0xff == (c >> 8) & 0xff
    ensures ((c >> 16) & 0xff) & 0xff == (c >> 16) & 0xff && (c >> 24) & 0xff == c >> 24
  {
  }

  lemma WordOfWordBytes(c: bv32)
    ensures Word(WordBytes(c)) == c
  {
    LowPart(c);
    LiftLower(c & 0xff);
    LiftLower((c >> 8) & 0xff);
    LiftLower((c >> 16) & 0xff);
    LiftLower(c >> 24);
    hide Join, Lift, Lower;
    PartsJoin(c);
  }

  lemma WordInjective(a: seq<byte>, b: seq<byte>)
    requires |a| == 4 && |b| == 4
    requires Word(a) == Word(b)
    ensures a == b
  {
    JoinParts(Lift(a[0]), Lift(a[1]), Lift(a[2]), Lift(a[3]));
    JoinParts(Lift(b[0]), Lift(b[1]), Lift(b[2]), Lift(b[3]));
    forall k | 0 <= k < 4 ensures a[k] == b[k] {
      LowerLift(a[k]);
      LowerLift(b[k]);
    }
  }

  lemma JoinParts(p: bv32, q: bv32, r: bv32, s: bv32)
    requires LowByte(p) && LowByte(q) && LowByte(r) && LowByte(s)
    ensures var w := Join(p, q, r, s);
            p == w & 0xff && q == (w >> 8) & 0xff && r == (w >> 16) & 0xff && s == w >> 24
  {
  }

  lemma {:induction false} CrcBitsAdds(c: bv32, m: nat, n: nat)
    ensures CrcBits(CrcBits(c, m), n) == CrcBits(c, m + n)
  {
    hide CrcBit;
    if n > 0 {
      CrcBitsAdds(c, m, n - 1);
    }
  }

  lemma EvenStep(c: bv32, n: nat)
    requires c & 1 == 0
    ensures CrcBits(c, n + 1) == CrcBits(Shift(c), n)
  {
    assert CrcBit(c) == Shift(c);
    CrcBitsAdds(c, 1, n);
  }

  lemma ShiftEight(c: bv32)
    requires c & 0xff == 0
    ensures c & 1 == 0 && (c >> 1) & 1 == 0 && (c >> 2) & 1 == 0 && (c >> 3) & 1 == 0
    ensures (c >> 4) & 1 == 0 && (c >> 5) & 1 == 0 && (c >> 6) & 1 == 0 && (c >> 7) & 1 == 0
    ensures Shift(c) == c >> 1 && Shift(c >> 1) == c >> 2 && Shift(c >> 2) == c >> 3 && Shift(c >> 3) == c >> 4
    ensures Shift(c >> 4) == c >> 5 && Shift(c >> 5) == c >> 6 && Shift(c >> 6) == c >> 7 && Shift(c >> 7) == c >> 8
  {
  }

  /** A byte above the lowest eight bits just moves down while eight bits leave. */
  lemma ByteMovesDown(c: bv32)
    requires c & 0xff == 0
    ensures CrcBits(c, 8) == c >> 8
  {
    hide CrcBit, CrcBits, Shift;
    ShiftEight(c);
    EvenStep(c, 7); EvenStep(c >> 1, 6); EvenStep(c >> 2, 5); EvenStep(c >> 3, 4);
    EvenStep(c >> 4, 3); EvenStep(c >> 5, 2); EvenStep(c >> 6, 1); EvenStep(c >> 7, 0);
    NoSteps(c >> 8);
  }

  lemma NoSteps(c: bv32)
    ensures CrcBits(c, 0) == c
  {
  }

  // Mixing a word in after eight steps is mixing it in eight positions higher before them.
  lemma MixEarlier(c: bv32, low: bv32, high: bv32)
    requires high & 0xff == 0 && high >> 8 == low
    ensures Xor(CrcBits(c, 8), low) == CrcBits(Xor(c, high), 8)
  {
    hide Xor, CrcBit;
    ByteMovesDown(high);
    CrcBitsLinear(c, high, 8);
  }

  predicate LowByte(b: bv32) { b & 0xffffff00 == 0 }
  function Up8(b: bv32): bv32 { b << 8 }
  function Up16(b: bv32): bv32 { b << 16 }
  function Up24(b: bv32): bv32 { b << 24 }
  function Join(p: bv32, q: bv32, r: bv32, s: bv32): bv32 { Xor(Xor(Xor(p, Up8(q)), Up16(r)), Up24(s)) }
  function Mix(c: bv32, p: bv32, q: bv32, r: bv32, s: bv32): bv32 { Xor(Xor(Xor(Xor(c, p), Up8(q)), Up16(r)), Up24(s)) }

  lemma Positions(b: bv32)
    requires LowByte(b)
    ensures Up8(b) & 0xff == 0 && Up8(b) >> 8 == b
    ensures Up16(b) & 0xff == 0 && Up16(b) >> 8 == Up8(b)
    ensures Up24(b) & 0xff == 0 && Up24(b) >> 8 == Up16(b)
  {
  }

  lemma MixIsXor(c: bv32, p: bv32, q: bv32, r: bv32, s: bv32)
    ensures Mix(c, p, q, r, s) == Xor(c, Join(p, q, r, s))
  {
    hide Xor, Up8, Up16, Up24;
    XorAssociates(c, p, Up8(q));
    XorAssociates(c, Xor(p, Up8(q)), Up16(r));
    XorAssociates(c, Xor(Xor(p, Up8(q)), Up16(r)), Up24(s));
  }

  // Two, three and four bytes fed one after the other, as one mix followed by the steps.
  lemma TwoBytes(c: bv32, q: bv32)
    requires LowByte(q)
    ensures Xor(CrcBits(c, 8), q) == CrcBits(Xor(c, Up8(q)), 8)
  {
    hide Xor, CrcBits, Up8, Up16, Up24, LowByte;
    Positions(q);
    MixEarlier(c, q, Up8(q));
  }

  lemma ThreeBytes(c: bv32, r: bv32)
    requires LowByte(r)
    ensures Xor(CrcBits(c, 16), r) == CrcBits(Xor(c, Up16(r)), 16)
  {
    hide Xor, CrcBits, Up8, Up16, Up24, LowByte;
    Positions(r);
    CrcBitsAdds(c, 8, 8);
    MixEarlier(CrcBits(c, 8), r, Up8(r));
    MixEarlier(c, Up8(r), Up16(r));
    CrcBitsAdds(Xor(c, Up16(r)), 8, 8);
  }

  lemma FourBytes(c: bv32, s: bv32)
    requires LowByte(s)
    ensures Xor(CrcBits(c, 24), s) == CrcBits(Xor(c, Up24(s)), 24)
  {
    hide Xor, CrcBits, Up8, Up16, Up24, LowByte;
    Positions(s);
    CrcBitsAdds(c, 8, 16);
    ThreeBytes(CrcBits(c, 8), s);
    CrcBitsAdds(c, 16, 8);
    MixEarlier(CrcBits(c, 16), s, Up8(s));
    MixEarlier(CrcBits(c, 8), Up8(s), Up16(s));
    MixEarlier(c, Up16(s), Up24(s));
    CrcBitsAdds(Xor(CrcBits(c, 8), Up16(s)), 8, 8);
    CrcBitsAdds(Xor(c, Up24(s)), 8, 16);
  }

  // The byte-by-byte register over four bytes, with the byte lifts named.
  function Chain(c: bv32, p: bv32, q: bv32, r: bv32, s: bv32): bv32 {
    CrcBits(Xor(CrcBits(Xor(CrcBits(Xor(CrcBits(Xor(c, p), 8), q), 8), r), 8), s), 8)
  }

  lemma ChainIsMix(c: bv32, p: bv32, q: bv32, r: bv32, s: bv32)
    requires LowByte(p) && LowByte(q) && LowByte(r) && LowByte(s)
    ensures Chain(c, p, q, r, s) == CrcBits(Mix(c, p, q, r, s), 32)
  {
    hide Xor, CrcBits, Up8, Up16, Up24, LowByte;
    var y1 := Xor(c, p);
    TwoBytes(y1, q);
    var y2 := Xor(y1, Up8(q));
    CrcBitsAdds(y2, 8, 8);
    ThreeBytes(y2, r);
    var y3 := Xor(y2, Up16(r));
    CrcBitsAdds(y3, 16, 8);
    FourBytes(y3, s);
    CrcBitsAdds(Xor(y3, Up24(s)), 24, 8);
  }

  lemma FourBytesAreAWord(c: bv32, s: seq<byte>)
    requires |s| == 4
    ensures CrcSeq(c, s) == CrcBits(Xor(c, Word(s)), 32)
  {
    LowerLift(s[0]); LowerLift(s[1]); LowerLift(s[2]); LowerLift(s[3]);
    hide Xor, CrcBits, Join, Mix, LowByte, Lift, Lower;
    assert s[..3][..2] == s[..2] && s[..2][..1] == s[..1] && s[..1][..0] == [];
    assert CrcSeq(c, s[..1]) == CrcByte(c, s[0]);
    assert CrcSeq(c, s[..2]) == CrcByte(CrcSeq(c, s[..1]), s[1]);
    assert CrcSeq(c, s[..3]) == CrcByte(CrcSeq(c, s[..2]), s[2]);
    assert CrcSeq(c, s) == Chain(c, Lift(s[0]), Lift(s[1]), Lift(s[2]), Lift(s[3]));
    ChainIsMix(c, Lift(s[0]), Lift(s[1]), Lift(s[2]), Lift(s[3]));
    MixIsXor(c, Lift(s[0]), Lift(s[1]), Lift(s[2]), Lift(s[3]));
  }

  lemma FourBytesInjective(c: bv32, a: seq<byte>, b: seq<byte>)
    requires |a| == 4 && |b| == 4
    requires CrcSeq(c, a) == CrcSeq(c, b)
    ensures a == b
  {
    hide Xor, CrcBits, Word, CrcSeq;
    FourBytesAreAWord(c, a);
    FourBytesAreAWord(c, b);
    CrcBitsInjective(Xor(c, Word(a)), Xor(c, Word(b)), 32);
    XorCommutes(c, Word(a));
    XorCommutes(c, Word(b));
    XorCancels(Word(a), c);
    XorCancels(Word(b), c);
    WordInjective(a, b);
  }

  /** The text that follows a common prefix and precedes a common suffix differs. */
  ghost predicate BurstError(x: seq<byte>, y: seq<byte>, at: nat, size: nat) {
    && |x| == |y| && at + size <= |x| && size <= 4
    && x[..at] == y[..at] && x[at + size..] == y[at + size..]
    && x[at..at + size] != y[at..at + size]
  }

  /** Every change confined to four consecutive bytes changes the checksum. */
  lemma BurstChangesChecksum(x: seq<byte>, y: seq<byte>, at: nat, size: nat)
    requires BurstError(x, y, at, size)
    ensures Checksum(x, 0) != Checksum(y, 0)
  {
    hide Xor, CrcSeq;
    if Checksum(x, 0) == Checksum(y, 0) {
      var start := Xor(0, 0xffffffff);
      XorCancels(CrcSeq(start, x), 0xffffffff);
      XorCancels(CrcSeq(start, y), 0xffffffff);
      assert x == x[..at + size] + x[at + size..] && y == y[..at + size] + y[at + size..];
      CrcSeqConcat(start, x[..at + size], x[at + size..]);
      CrcSeqConcat(start, y[..at + size], y[at + size..]);
      CrcSeqInjective(CrcSeq(start, x[..at + size]), CrcSeq(start, y[..at + size]), x[at + size..]);
      var a, b := x[at..at + size], y[at..at + size];
      assert x[..at + size] == x[..at] + a && y[..at + size] == y[..at] + b;
      CrcSeqConcat(start, x[..at], a);
      CrcSeqConcat(start, x[..at], b);
      var c := CrcSeq(start, x[..at]);
      var pad: seq<byte> := seq(4 - size, _ => 0);
      CrcSeqConcat(c, a, pad);
      CrcSeqConcat(c, b, pad);
      assert (a + pad)[..size] == a && (b + pad)[..size] == b;
      FourBytesInjective(c, a + pad, b + pad);
    }
  }
}
