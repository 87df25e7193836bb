/**
 The checksum by its values: the residue every message leaves, and the check value of CRC-32. The
 registers are computed as bit vectors and carried over to numbers bit by bit.
 */
module Crc32Values {
  import opened Prelude
  import opened Crc32

  // ---------------------------------------------------------------- numbers and bit vectors

  function Bit(v: bv32): (b: nat)
    ensures b < 2
  {
    if v & 1 == 1 then 1 else 0
  }

  /** A number by its last bit and the rest. */
  function Mix(b: nat, x: nat): (r: nat)
  {
    b + 2 * x
  }

  /** The number that the low `n` bits of `v` spell. */
  function Num(v: bv32, n: nat): (r: nat)
    decreases n
  {
    if n == 0 then 0 else Mix(Bit(v), Num(v >> 1, n - 1))
  }

  /** An operation that works on each bit by itself, as exclusive or does. */
  ghost predicate Bitwise(op: (nat, nat) -> nat)
  {
    op(0, 0) == 0 && forall b: nat, x: nat, c: nat, y: nat :: b < 2 && c < 2 ==> DigitByDigit(op, b, x, c, y)
  }

  ghost predicate DigitByDigit(op: (nat, nat) -> nat, b: nat, x: nat, c: nat, y: nat)
  {
    op(Mix(b, x), Mix(c, y)) == Mix(if b == c then 0 else 1, op(x, y))
  }

  lemma XorBitwise()
    ensures Bitwise(Xor)
  {
    forall b: nat, x: nat, c: nat, y: nat | b < 2 && c < 2
      ensures DigitByDigit(Xor, b, x, c, y)
    {
      XorUnfold(Mix(b, x), Mix(c, y));
      BitwiseAt(Xor, b, x, c, y, Mix(b, x), Mix(c, y));
    }
  }

  lemma BitwiseAt(op: (nat, nat) -> nat, b: nat, x: nat, c: nat, y: nat, v: nat, w: nat)
    requires b < 2 && c < 2 && v == b + 2 * x && w == c + 2 * y
    requires op(v, w) / 2 == op(v / 2, w / 2) && op(v, w) % 2 == (v + w) % 2
    ensures op(v, w) == Mix(if b == c then 0 else 1, op(x, y))
  {
    Halves(b, x);
    Halves(c, y);
    Rebuild(op(v, w), v, w, op(v / 2, w / 2));
  }

  lemma Halves(b: nat, x: nat)
    ensures (b + 2 * x) % 2 == b % 2
    ensures b < 2 ==> (b + 2 * x) / 2 == x
  {
  }

  lemma Rebuild(r: nat, v: nat, w: nat, h: nat)
    requires r % 2 == (v + w) % 2 && r / 2 == h
    ensures r == Mix(if v % 2 == w % 2 then 0 else 1, h)
  {
  }

  lemma BitsOfXor(v: bv32, w: bv32)
    ensures Bit(v ^ w) == if Bit(v) == Bit(w) then 0 else 1
    ensures (v ^ w) >> 1 == (v >> 1) ^ (w >> 1)
  {
  }

  lemma MixedByDigit(op: (nat, nat) -> nat, b: nat, x: nat, c: nat, y: nat, d: nat, z: nat)
    requires Bitwise(op) && b < 2 && c < 2 && d == (if b == c then 0 else 1) && op(x, y) == z
    ensures op(Mix(b, x), Mix(c, y)) == Mix(d, z)
  {
    assert DigitByDigit(op, b, x, c, y);
  }

  lemma NumUnfold(v: bv32, w: bv32, n: nat)
    requires n > 0 && w == v >> 1
    ensures Num(v, n) == Mix(Bit(v), Num(w, n - 1))
  {
  }

  /** Such an operation on numbers is exclusive or on bit vectors. */
  lemma {:induction false} NumXor(op: (nat, nat) -> nat, v: bv32, w: bv32, x: bv32, n: nat)
    requires Bitwise(op) && x == v ^ w
    ensures op(Num(v, n), Num(w, n)) == Num(x, n)
    decreases n
  {
    if n != 0 {
      var v', w', x' := v >> 1, w >> 1, x >> 1;
      BitsOfXor(v, w);
      NumXor(op, v', w', x', n - 1);
      NumUnfold(v, v', n);
      NumUnfold(w, w', n);
      NumUnfold(x, x', n);
      MixedByDigit(op, Bit(v), Num(v', n - 1), Bit(w), Num(w', n - 1), Bit(x), Num(x', n - 1));
    }
  }

  lemma XorOfNums(v: bv32, w: bv32, n: nat)
    ensures Xor(Num(v, n), Num(w, n)) == Num(v ^ w, n)
  {
    XorBitwise();
    NumXor(Xor, v, w, v ^ w, n);
  }

  /** No bit of `v` is set from position `n` on. */
  predicate Fits(v: bv32, n: nat)
    decreases n
  {
    if n == 0 then v == 0 else Fits(v >> 1, n - 1)
  }

  lemma {:induction false} NumFits(v: bv32, n: nat)
    requires Fits(v, n)
    ensures Num(v, n + 1) == Num(v, n)
    decreases n
  {
    if n != 0 { NumFits(v >> 1, n - 1); }
  }

  lemma Fits2(v: bv32, n: nat)
    requires Fits(v >> 2, n)
    ensures Fits(v, n + 2)
  {
    assert (v >> 1) >> 1 == v >> 2;
    assert Fits(v >> 1, n + 1);
  }

  lemma Fits4(v: bv32, n: nat)
    requires Fits(v >> 4, n)
    ensures Fits(v, n + 4)
  {
    assert (v >> 2) >> 2 == v >> 4;
    Fits2(v >> 2, n);
    Fits2(v, n + 2);
  }

  lemma Fits8(v: bv32, n: nat)
    requires Fits(v >> 8, n)
    ensures Fits(v, n + 8)
  {
    assert (v >> 4) >> 4 == v >> 8;
    Fits4(v >> 4, n);
    Fits4(v, n + 4);
  }

  lemma RegisterFits(v: bv32, n: nat)
    ensures Fits(v, n + 32)
  {
    NothingFits(n);
    ShiftedOut(v);
    Fits8(((v >> 8) >> 8) >> 8, n);
    Fits8((v >> 8) >> 8, n + 8);
    Fits8(v >> 8, n + 16);
    Fits8(v, n + 24);
  }

  lemma ShiftedOut(v: bv32)
    ensures (((v >> 8) >> 8) >> 8) >> 8 == 0
  {
  }

  lemma {:induction false} NothingFits(n: nat)
    ensures Fits(0, n)
  {
    if n != 0 {
      assert (0 as bv32) >> 1 == 0;
      NothingFits(n - 1);
    }
  }

  function StepBits(v: bv32): (r: bv32)
  {
    if v & 1 == 1 then (v >> 1) ^ 0xEDB8_8320 else v >> 1
  }

  function Steps4(v: bv32): (r: bv32)
  {
    StepBits(StepBits(StepBits(StepBits(v))))
  }

  function Steps8(v: bv32): (r: bv32)
  {
    Steps4(Steps4(v))
  }

  // ---------------------------------------------------------------- constants

  function Nibble(v: bv32): (r: nat)
  {
    Mix(Bit(v), Mix(Bit(v >> 1), Mix(Bit(v >> 2), Bit(v >> 3))))
  }

  lemma NumNibble(v: bv32, n: nat)
    ensures Num(v, n + 4) == Nibble(v) + 16 * Num(v >> 4, n)
  {
    assert (v >> 1) >> 1 == v >> 2 && (v >> 2) >> 1 == v >> 3 && (v >> 3) >> 1 == v >> 4;
    assert Num(v >> 3, n + 1) == Mix(Bit(v >> 3), Num(v >> 4, n));
    assert Num(v >> 2, n + 2) == Mix(Bit(v >> 2), Num(v >> 3, n + 1));
    assert Num(v >> 1, n + 3) == Mix(Bit(v >> 1), Num(v >> 2, n + 2));
  }

  function Byte(v: bv32): (r: nat)
  {
    Nibble(v) + 16 * Nibble(v >> 4)
  }

  lemma NumByte(v: bv32, n: nat)
    ensures Num(v, n + 8) == Byte(v) + 256 * Num(v >> 8, n)
  {
    assert (v >> 4) >> 4 == v >> 8;
    NumNibble(v >> 4, n);
    NumNibble(v, n + 4);
  }

  /** The number of a register by its bytes. */
  function Word(a: nat, b: nat, c: nat, d: nat): (r: nat)
  {
    a + 0x100 * b + 0x1_0000 * c + 0x100_0000 * d
  }

  lemma NumWord(v: bv32, w: bv32, x: bv32, y: bv32, z: bv32, n: nat)
    requires v >> 8 == w && w >> 8 == x && x >> 8 == y && y >> 8 == z
    ensures Num(v, n + 32) == Word(Byte(v), Byte(w), Byte(x), Byte(y)) + 0x1_0000_0000 * Num(z, n)
  {
    NumByte(v, n + 24);
    NumByte(w, n + 16);
    NumByte(x, n + 8);
    NumByte(y, n);
  }

  lemma {:induction false} NumOfZero(n: nat)
    ensures Num(0, n) == 0
  {
    if n != 0 {
      assert (0 as bv32) >> 1 == 0;
      NumOfZero(n - 1);
    }
  }

  /** A register whose bytes are known. */
  lemma NumIs(v: bv32, w: bv32, x: bv32, y: bv32, n: nat, a: nat, b: nat, c: nat, d: nat)
    requires v >> 8 == w && w >> 8 == x && x >> 8 == y && y >> 8 == 0
    requires Byte(v) == a && Byte(w) == b && Byte(x) == c && Byte(y) == d
    ensures Num(v, n + 32) == Word(a, b, c, d)
  {
    NumWord(v, w, x, y, 0, n);
    NumOfZero(n);
  }

  lemma PolynomialBits(n: nat)
    ensures Num(0xEDB8_8320, n + 32) == POLYNOMIAL
  {
    NumIs(0xEDB8_8320, 0xED_B883, 0xEDB8, 0xED, n, 0x20, 0x83, 0xB8, 0xED);
  }

  // ---------------------------------------------------------------- steps

  lemma NumHalf(v: bv32, n: nat)
    ensures Num(v, n + 32) % 2 == Bit(v) && Num(v, n + 32) / 2 == Num(v >> 1, n + 32)
  {
    RegisterFits(v, n);
    NumFits(v, n + 32);
    Halves(Bit(v), Num(v >> 1, n + 32));
  }

  lemma XorPolynomial(v: bv32, n: nat)
    ensures Xor(Num(v, n + 32), POLYNOMIAL) == Num(v ^ 0xEDB8_8320, n + 32)
  {
    PolynomialBits(n);
    XorOfNums(v, 0xEDB8_8320, n + 32);
  }

  /** One turn of the loop on numbers is one on bit vectors. */
  lemma StepAgrees(v: bv32, n: nat)
    ensures BitStep(Num(v, n + 32)) == Num(StepBits(v), n + 32)
  {
    NumHalf(v, n);
    XorPolynomial(v >> 1, n);
    ShiftAgrees(v, Num(v, n + 32), Num(v >> 1, n + 32), Num((v >> 1) ^ 0xEDB8_8320, n + 32), Num(StepBits(v), n + 32));
  }

  lemma ShiftAgrees(v: bv32, c: nat, half: nat, mixed: nat, next: nat)
    requires c % 2 == Bit(v) && c / 2 == half && Xor(half, POLYNOMIAL) == mixed
    requires next == if Bit(v) == 1 then mixed else half
    ensures BitStep(c) == next
  {
  }

  lemma Steps4Agree(v: bv32, n: nat)
    ensures BitSteps(Num(v, n + 32), 4) == Num(Steps4(v), n + 32)
  {
    var a := StepBits(v);
    var b := StepBits(a);
    var c := StepBits(b);
    StepAgrees(v, n);
    StepAgrees(a, n);
    StepAgrees(b, n);
    StepAgrees(c, n);
    FourSteps(Num(v, n + 32), Num(a, n + 32), Num(b, n + 32), Num(c, n + 32), Num(StepBits(c), n + 32));
  }

  lemma FourSteps(a: nat, b: nat, c: nat, d: nat, e: nat)
    requires BitStep(a) == b && BitStep(b) == c && BitStep(c) == d && BitStep(d) == e
    ensures BitSteps(a, 4) == e
  {
    assert BitSteps(d, 1) == e;
    assert BitSteps(c, 2) == e;
    assert BitSteps(b, 3) == e;
  }

  lemma Steps8Agree(v: bv32, n: nat)
    ensures BitSteps(Num(v, n + 32), 8) == Num(Steps8(v), n + 32)
  {
    Steps4Agree(v, n);
    Steps4Agree(Steps4(v), n);
    BitStepsAdd(Num(v, n + 32), 4, 4);
  }

  function Steps32(v: bv32): (r: bv32)
  {
    Steps8(Steps8(Steps8(Steps8(v))))
  }

  lemma Steps32Agree(v: bv32, n: nat)
    ensures BitSteps(Num(v, n + 32), 32) == Num(Steps32(v), n + 32)
  {
    var a := Steps8(v);
    var b := Steps8(a);
    var c := Steps8(b);
    Steps8Agree(v, n);
    Steps8Agree(a, n);
    Steps8Agree(b, n);
    Steps8Agree(c, n);
    FourRuns(Num(v, n + 32), Num(a, n + 32), Num(b, n + 32), Num(c, n + 32), Num(Steps32(v), n + 32), 8);
  }

  lemma FourRuns(a: nat, b: nat, c: nat, d: nat, e: nat, k: nat)
    requires BitSteps(a, k) == b && BitSteps(b, k) == c && BitSteps(c, k) == d && BitSteps(d, k) == e
    ensures BitSteps(a, 4 * k) == e
  {
    BitStepsAdd(a, k, 3 * k);
    BitStepsAdd(b, k, 2 * k);
    BitStepsAdd(c, k, k);
  }

  // ---------------------------------------------------------------- feeding words

  lemma LittleEndianCons(s: Bytes)
    requires s != []
    ensures LittleEndian(s, 8) == s[0] + 0x100 * LittleEndian(s[1..], 8)
  {
    WidthOfRegister();
  }

  lemma LittleEndianWord(s: Bytes)
    requires |s| == 4
    ensures LittleEndian(s, 8) == Word(s[0], s[1], s[2], s[3])
  {
    assert s[1..][1..] == s[2..] && s[2..][1..] == s[3..] && s[3..][1..] == [];
    LittleEndianCons(s);
    LittleEndianCons(s[1..]);
    LittleEndianCons(s[2..]);
    LittleEndianCons(s[3..]);
  }

  lemma FeedWord(c: nat, s: Bytes)
    requires |s| == 4
    ensures Feed(c, s, 8) == BitSteps(Xor(c, Word(s[0], s[1], s[2], s[3])), 32)
  {
    WidthOfRegister();
    FeedIsOneShift(c, s, 8);
    LittleEndianWord(s);
    assert BitCount(4, 8) == 32;
  }

  /** Four bytes fed to a known register. */
  lemma FeedWordBits(v: bv32, w: bv32, s: Bytes, n: nat)
    requires |s| == 4 && Num(w, n + 32) == Word(s[0], s[1], s[2], s[3])
    ensures Feed(Num(v, n + 32), s, 8) == Num(Steps32(v ^ w), n + 32)
  {
    FeedWord(Num(v, n + 32), s);
    XorOfNums(v, w, n + 32);
    Steps32Agree(v ^ w, n);
  }

  /** One byte fed to a known register. */
  lemma FeedByteBits(v: bv32, w: bv32, b: byte, n: nat)
    requires Num(w, n + 32) == b
    ensures Feed(Num(v, n + 32), [b], 8) == Num(Steps8(v ^ w), n + 32)
  {
    XorOfNums(v, w, n + 32);
    Steps8Agree(v ^ w, n);
    assert [b][1..] == [];
  }

  // ---------------------------------------------------------------- known values

  lemma OnesBits(n: nat)
    ensures Num(0xFFFF_FFFF, n + 32) == 0xFFFF_FFFF
  {
    NumIs(0xFFFF_FFFF, 0xFF_FFFF, 0xFFFF, 0xFF, n, 0xFF, 0xFF, 0xFF, 0xFF);
  }

  lemma StepsOfOnes()
    ensures Steps32(0xFFFF_FFFF) == 0xDEBB_20E3
  {
  }

  /** The last bit of the result is that of the operands, and the rest is the result of the rest. */
  ghost predicate BitByBit(op: (nat, nat) -> nat)
  {
    op(0, 0) == 0 && forall a: nat, b: nat :: HalvesAt(op, a, b)
  }

  ghost predicate HalvesAt(op: (nat, nat) -> nat, a: nat, b: nat)
  {
    op(a, b) / 2 == op(a / 2, b / 2) && op(a, b) % 2 == (a + b) % 2
  }

  lemma {:induction false} OpComplement(op: (nat, nat) -> nat, c: nat, k: nat)
    requires BitByBit(op) && c < Pow2(k)
    ensures op(c, Pow2(k) - 1 - c) == Pow2(k) - 1
    decreases k
  {
    if k != 0 {
      OpComplement(op, c / 2, k - 1);
      ComplementAt(op, c, Pow2(k) - 1 - c, Pow2(k - 1));
    }
  }

  lemma ComplementAt(op: (nat, nat) -> nat, c: nat, d: nat, p: nat)
    requires BitByBit(op) && c < 2 * p && d == 2 * p - 1 - c && op(c / 2, p - 1 - c / 2) == p - 1
    ensures op(c, d) == 2 * p - 1
  {
    HalfComplement(c, p);
    assert HalvesAt(op, c, d);
    FromHalf(op(c, d), p);
  }

  /** A number below a power of two, mixed with its complement, has every bit set. */
  lemma XorComplement(c: nat, k: nat)
    requires c < Pow2(k)
    ensures Xor(c, Pow2(k) - 1 - c) == Pow2(k) - 1
  {
    forall a: nat, b: nat ensures HalvesAt(Xor, a, b) { XorUnfold(a, b); }
    OpComplement(Xor, c, k);
  }

  lemma FromHalf(x: nat, p: nat)
    requires x / 2 == p - 1 && x % 2 == 1
    ensures x == 2 * p - 1
  {
  }

  lemma HalfComplement(c: nat, p: nat)
    requires c < 2 * p
    ensures (2 * p - 1 - c) / 2 == p - 1 - c / 2 && (c + (2 * p - 1 - c)) % 2 == 1
  {
  }

  /** A register as the bytes that spell it, least significant first. */
  function LeBytes(v: u32): (r: Bytes)
    ensures |r| == 4
  {
    [v % 0x100, v / 0x100 % 0x100, v / 0x100 / 0x100 % 0x100, v / 0x100 / 0x100 / 0x100 % 0x100]
  }

  lemma LeBytesSpell(v: u32)
    ensures var s := LeBytes(v); Word(s[0], s[1], s[2], s[3]) == v
  {
    var a, b, c := v / 0x100, v / 0x100 / 0x100, v / 0x100 / 0x100 / 0x100;
    assert c < 0x100;
    assert v == v % 0x100 + 0x100 * a && a == a % 0x100 + 0x100 * b && b == b % 0x100 + 0x100 * c;
  }

  lemma ResidueOfOnes(n: nat)
    ensures BitSteps(0xFFFF_FFFF, 32) == 0xDEBB_20E3
  {
    OnesBits(n);
    StepsOfOnes();
    Steps32Agree(0xFFFF_FFFF, n);
    NumIs(0xDEBB_20E3, 0xDE_BB20, 0xDEBB, 0xDE, n, 0xE3, 0x20, 0xBB, 0xDE);
  }

  /**
   The residue of CRC-32: a payload followed by its checksum, least significant byte first, leaves
   the same register whatever the payload.
   */
  lemma Residue(payload: Bytes)
    ensures Feed(0xFFFF_FFFF, payload + LeBytes(Crc(payload)), 8) == 0xDEBB_20E3
    ensures Crc(payload + LeBytes(Crc(payload))) == 0x2144_DF1C
  {
    var crc := Crc(payload);
    var c := Feed(0xFFFF_FFFF, payload, 8);
    FeedAppend(0xFFFF_FFFF, payload, LeBytes(crc), 8);
    FeedWord(c, LeBytes(crc));
    LeBytesSpell(crc);
    WidthOfRegister();
    FeedBound(0xFFFF_FFFF, payload, 8);
    XorComplement(c, 32);
    ResidueOfOnes(|payload|);
  }

  lemma CrcOfNothing()
    ensures Crc([]) == 0
  {
  }

  lemma CheckWords(n: nat)
    ensures Num(0x3433_3231, n + 32) == Word(0x31, 0x32, 0x33, 0x34)
    ensures Num(0x3837_3635, n + 32) == Word(0x35, 0x36, 0x37, 0x38)
    ensures Num(0x39, n + 32) == 0x39
    ensures Num(0x340B_C6D9, n + 32) == 0x340B_C6D9
  {
    NumIs(0x3433_3231, 0x34_3332, 0x3433, 0x34, n, 0x31, 0x32, 0x33, 0x34);
    NumIs(0x3837_3635, 0x38_3736, 0x3837, 0x38, n, 0x35, 0x36, 0x37, 0x38);
    NumIs(0x39, 0, 0, 0, n, 0x39, 0, 0, 0);
    NumIs(0x340B_C6D9, 0x34_0BC6, 0x340B, 0x34, n, 0xD9, 0xC6, 0x0B, 0x34);
  }

  lemma CheckRegisters()
    ensures Steps32(0xFFFF_FFFF ^ 0x3433_3231) == 0x641C_1F5C
    ensures Steps32(0x641C_1F5C ^ 0x3837_3635) == 0x651F_2550
    ensures Steps8(0x651F_2550 ^ 0x39) == 0x340B_C6D9
  {
  }

  lemma FeedCheck(first: Bytes, second: Bytes, last: Bytes, n: nat)
    requires first == [0x31, 0x32, 0x33, 0x34] && second == [0x35, 0x36, 0x37, 0x38] && last == [0x39]
    ensures Feed(0xFFFF_FFFF, first + second + last, 8) == 0x340B_C6D9
  {
    OnesBits(n);
    CheckWords(n);
    CheckRegisters();
    FeedWordBits(0xFFFF_FFFF, 0x3433_3231, first, n);
    FeedWordBits(0x641C_1F5C, 0x3837_3635, second, n);
    FeedByteBits(0x651F_2550, 0x39, last[0], n);
    FeedAppend(0xFFFF_FFFF, first + second, last, 8);
    FeedAppend(0xFFFF_FFFF, first, second, 8);
  }

  /** The check value of CRC-32: the checksum of the nine digits "123456789". */
  lemma CheckValue(payload: Bytes)
    requires payload == [0x31, 0x32, 0x33, 0x34, 0x35, 0x36, 0x37, 0x38, 0x39]
    ensures Crc(payload) == 0xCBF4_3926
  {
    var first, second, last := payload[..4], payload[4..8], payload[8..];
    FeedCheck(first, second, last, |payload|);
    assert payload == first + second + last;
  }
}
