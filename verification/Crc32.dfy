/**
 CRC-32 as the block store computes it (reflected polynomial 0xEDB88320, frame check sequence of
 clause 3.2.9 of IEEE Std 802.3). The register is a number, so `c >> 1` is `c / 2`, `c & 1` is
 `c % 2` and `!c` is `0xFFFFFFFF - c`; exclusive or is `Xor` below.
 */
module Crc32 {
  import opened Prelude

  const POLYNOMIAL: u32 := 0xEDB8_8320

  // ------------------------------------------------------------ exclusive or

  function Xor(a: nat, b: nat): (r: nat)
  {
    if a == 0 then b
    else if b == 0 then a
    else 2 * Xor(a / 2, b / 2) + (a + b) % 2
  }

  lemma {:induction false} XorUnfold(a: nat, b: nat)
    ensures Xor(a, b) / 2 == Xor(a / 2, b / 2)
    ensures Xor(a, b) % 2 == (a + b) % 2
  {
  }

  lemma {:induction false} XorOfEven(b: nat, h: nat)
    ensures Xor(b, 2 * h) == 2 * Xor(b / 2, h) + b % 2
  {
    XorUnfold(b, 2 * h);
    assert 2 * h / 2 == h;
  }

  lemma {:induction false} XorComm(a: nat, b: nat)
    ensures Xor(a, b) == Xor(b, a)
  {
    if a != 0 && b != 0 { XorComm(a / 2, b / 2); }
  }

  lemma SameNumber(p: nat, q: nat, a: nat, b: nat, c: nat, x: nat, y: nat)
    requires p / 2 == q / 2
    requires p % 2 == (x + c) % 2 && q % 2 == (a + y) % 2
    requires x % 2 == (a + b) % 2 && y % 2 == (b + c) % 2
    ensures p == q
  {
    assert (x + c) % 2 == (a + b + c) % 2;
    assert (a + y) % 2 == (a + b + c) % 2;
  }

  lemma {:induction false} XorAssoc(a: nat, b: nat, c: nat)
    ensures Xor(Xor(a, b), c) == Xor(a, Xor(b, c))
  {
    if a != 0 && b != 0 && c != 0 {
      var x, y := Xor(a, b), Xor(b, c);
      XorAssoc(a / 2, b / 2, c / 2);
      XorUnfold(a, b);
      XorUnfold(b, c);
      XorUnfold(x, c);
      XorUnfold(a, y);
      SameNumber(Xor(x, c), Xor(a, y), a, b, c, x, y);
    }
  }

  lemma {:induction false} XorSelf(a: nat)
    ensures Xor(a, a) == 0
  {
    if a != 0 { XorSelf(a / 2); }
  }

  lemma XorCancel(a: nat, b: nat, p: nat)
    requires Xor(a, p) == Xor(b, p)
    ensures a == b
  {
    XorAssoc(a, p, p);
    XorAssoc(b, p, p);
    XorSelf(p);
  }

  function Pow2(k: nat): (r: nat)
    ensures r > 0
  {
    if k == 0 then 1 else 2 * Pow2(k - 1)
  }

  lemma {:induction false} XorBound(a: nat, b: nat, k: nat)
    requires a < Pow2(k) && b < Pow2(k)
    ensures Xor(a, b) < Pow2(k)
  {
    if k != 0 {
      XorBound(a / 2, b / 2, k - 1);
      XorUnfold(a, b);
    }
  }

  /** A set top bit survives an exclusive or with a number that does not reach it. */
  lemma {:induction false} XorTopBit(a: nat, p: nat, k: nat)
    requires a < Pow2(k) <= p < Pow2(k + 1)
    ensures Pow2(k) <= Xor(a, p)
  {
    if k != 0 {
      XorTopBit(a / 2, p / 2, k - 1);
      XorUnfold(a, p);
    }
  }

  /** Numbers with no bit in common add up under exclusive or. */
  lemma {:induction false} XorDisjoint(b: nat, m: nat, k: nat)
    requires b < Pow2(k)
    ensures Xor(b, Pow2(k) * m) == b + Pow2(k) * m
  {
    if k != 0 {
      var h := Pow2(k - 1) * m;
      assert Pow2(k) * m == 2 * h;
      XorDisjoint(b / 2, m, k - 1);
      XorOfEven(b, h);
    }
  }

  lemma WidthOfRegister()
    ensures Pow2(8) == 0x100
    ensures Pow2(31) == 0x8000_0000
    ensures Pow2(32) == 0x1_0000_0000
  {
    assert Pow2(4) == 16;
    assert Pow2(8) == 0x100;
    assert Pow2(12) == 0x1000;
    assert Pow2(16) == 0x1_0000;
    assert Pow2(20) == 0x10_0000;
    assert Pow2(24) == 0x100_0000;
    assert Pow2(28) == 0x1000_0000;
  }

  // ---------------------------------------------------------------- the register

  /** One turn of the inner loop. */
  function BitStep(c: nat): (r: nat)
  {
    Shift(c, POLYNOMIAL)
  }

  function Shift(c: nat, p: nat): (r: nat)
  {
    if c % 2 != 0 then Xor(c / 2, p) else c / 2
  }

  function BitSteps(c: nat, n: nat): (r: nat)
    decreases n
  {
    if n == 0 then c else BitSteps(BitStep(c), n - 1)
  }

  /** Feeds symbols of `width` bits into the register; the store feeds bytes. */
  function Feed(c: nat, s: Bytes, width: nat): (r: nat)
    decreases |s|
  {
    if s == [] then c else Feed(BitSteps(Xor(c, s[0]), width), s[1..], width)
  }

  lemma BitStepBound(c: u32)
    ensures BitStep(c) < 0x1_0000_0000
  {
    WidthOfRegister();
    XorBound(c / 2, POLYNOMIAL, 32);
  }

  lemma {:induction false} BitStepsBound(c: u32, n: nat)
    ensures BitSteps(c, n) < 0x1_0000_0000
    decreases n
  {
    if n != 0 {
      BitStepBound(c);
      BitStepsBound(BitStep(c), n - 1);
    }
  }

  lemma SymbolBound(c: u32, b: byte, width: nat)
    ensures Xor(c, b) < 0x1_0000_0000
    ensures BitSteps(Xor(c, b), width) < 0x1_0000_0000
  {
    WidthOfRegister();
    XorBound(c, b, 32);
    BitStepsBound(Xor(c, b), width);
  }

  lemma {:induction false} FeedBound(c: u32, s: Bytes, width: nat)
    ensures Feed(c, s, width) < 0x1_0000_0000
    decreases |s|
  {
    if s != [] {
      SymbolBound(c, s[0], width);
      FeedBound(BitSteps(Xor(c, s[0]), width), s[1..], width);
    }
  }

  /** `crc32_ieee`. */
  function Crc(payload: Bytes): (r: u32)
  {
    FeedBound(0xFFFF_FFFF, payload, 8);
    0xFFFF_FFFF - Feed(0xFFFF_FFFF, payload, 8)
  }

  // ---------------------------------------------------------------- injectivity

  lemma BitStepInjective(a: u32, b: u32)
    requires BitStep(a) == BitStep(b)
    ensures a == b
  {
    WidthOfRegister();
    XorTopBit(a / 2, POLYNOMIAL, 31);
    XorTopBit(b / 2, POLYNOMIAL, 31);
    if a % 2 != 0 && b % 2 != 0 { XorCancel(a / 2, b / 2, POLYNOMIAL); }
  }

  lemma {:induction false} BitStepsInjective(a: u32, b: u32, n: nat)
    requires BitSteps(a, n) == BitSteps(b, n)
    ensures a == b
    decreases n
  {
    if n != 0 {
      BitStepBound(a);
      BitStepBound(b);
      BitStepsInjective(BitStep(a), BitStep(b), n - 1);
      BitStepInjective(a, b);
    }
  }

  lemma {:induction false} FeedInjective(a: u32, b: u32, s: Bytes, width: nat)
    requires Feed(a, s, width) == Feed(b, s, width)
    ensures a == b
    decreases |s|
  {
    if s != [] {
      SymbolBound(a, s[0], width);
      SymbolBound(b, s[0], width);
      FeedInjective(BitSteps(Xor(a, s[0]), width), BitSteps(Xor(b, s[0]), width), s[1..], width);
      BitStepsInjective(Xor(a, s[0]), Xor(b, s[0]), width);
      XorCancel(a, b, s[0]);
    }
  }

  // ---------------------------------------------------------------- linearity

  lemma BitStepLinear(a: nat, b: nat)
    ensures BitStep(Xor(a, b)) == Xor(BitStep(a), BitStep(b))
  {
    ShiftLinear(a, b, POLYNOMIAL);
  }

  lemma ShiftLinear(a: nat, b: nat, p: nat)
    ensures Shift(Xor(a, b), p) == Xor(Shift(a, p), Shift(b, p))
  {
    var z := Xor(a, b);
    XorUnfold(a, b);
    if a % 2 == 0 && b % 2 == 0 {
      assert z % 2 == 0;
    } else if a % 2 != 0 && b % 2 != 0 {
      assert z % 2 == 0;
      MixTwice(a / 2, b / 2, p);
    } else {
      assert z % 2 == 1;
      MixOnce(a / 2, b / 2, p);
    }
  }

  lemma MixOnce(x: nat, y: nat, p: nat)
    ensures Xor(Xor(x, y), p) == Xor(x, Xor(y, p)) == Xor(Xor(x, p), y)
  {
    XorAssoc(x, y, p);
    XorAssoc(x, p, y);
    XorComm(y, p);
  }

  lemma MixTwice(x: nat, y: nat, p: nat)
    ensures Xor(Xor(x, p), Xor(y, p)) == Xor(x, y)
  {
    MixOnce(x, Xor(y, p), p);
    XorAssoc(y, p, p);
    XorSelf(p);
    XorAssoc(x, Xor(y, p), p);
    XorComm(y, 0);
  }

  lemma {:induction false} BitStepsLinear(a: nat, b: nat, n: nat)
    ensures BitSteps(Xor(a, b), n) == Xor(BitSteps(a, n), BitSteps(b, n))
    decreases n
  {
    if n != 0 {
      BitStepLinear(a, b);
      BitStepsLinear(BitStep(a), BitStep(b), n - 1);
    }
  }

  lemma {:induction false} BitStepsAdd(c: nat, m: nat, n: nat)
    ensures BitSteps(c, m + n) == BitSteps(BitSteps(c, m), n)
    decreases m
  {
    if m != 0 { BitStepsAdd(BitStep(c), m - 1, n); }
  }

  lemma DoubleTimes(p: nat, m: nat)
    ensures 2 * p * m == 2 * (p * m)
  {
  }

  lemma StepOfEven(h: nat)
    ensures BitStep(2 * h) == h
  {
  }

  lemma {:induction false} BitStepsShift(m: nat, k: nat)
    ensures BitSteps(Pow2(k) * m, k) == m
    decreases k
  {
    if k != 0 {
      DoubleTimes(Pow2(k - 1), m);
      StepOfEven(Pow2(k - 1) * m);
      BitStepsShift(m, k - 1);
    }
  }

  /** The symbols of `s` as one number, first symbol least significant. */
  function LittleEndian(s: Bytes, width: nat): (r: nat)
  {
    if s == [] then 0 else s[0] + Pow2(width) * LittleEndian(s[1..], width)
  }

  lemma SameDigits(a: byte, x: nat, b: byte, y: nat)
    requires a + 0x100 * x == b + 0x100 * y
    ensures a == b && x == y
  {
  }

  lemma {:induction false} LittleEndianInjective(s: Bytes, t: Bytes)
    requires |s| == |t| && LittleEndian(s, 8) == LittleEndian(t, 8)
    ensures s == t
  {
    if s != [] {
      WidthOfRegister();
      SameDigits(s[0], LittleEndian(s[1..], 8), t[0], LittleEndian(t[1..], 8));
      LittleEndianInjective(s[1..], t[1..]);
      assert s == [s[0]] + s[1..] && t == [t[0]] + t[1..];
    }
  }

  lemma {:induction false} LittleEndianBound(s: Bytes)
    ensures LittleEndian(s, 8) < Pow256(|s|)
  {
    if s != [] {
      WidthOfRegister();
      LittleEndianBound(s[1..]);
    }
  }

  lemma {:induction false} Pow256Monotone(m: nat, n: nat)
    requires m <= n
    ensures Pow256(m) <= Pow256(n)
  {
    if m < n { Pow256Monotone(m, n - 1); }
  }

  lemma FirstSymbolOut(c: nat, b: nat, w: nat, width: nat)
    requires b < Pow2(width)
    ensures BitSteps(Xor(c, b + Pow2(width) * w), width) == Xor(BitSteps(Xor(c, b), width), w)
  {
    XorDisjoint(b, w, width);
    XorAssoc(c, b, Pow2(width) * w);
    BitStepsLinear(Xor(c, b), Pow2(width) * w, width);
    BitStepsShift(w, width);
  }

  function BitCount(symbols: nat, width: nat): (r: nat)
  {
    if symbols == 0 then 0 else width + BitCount(symbols - 1, width)
  }

  lemma PeelSymbol(c: nat, s: Bytes, width: nat, n: nat)
    requires s != [] && s[0] < Pow2(width)
    ensures BitSteps(Xor(c, LittleEndian(s, width)), width + n)
         == BitSteps(Xor(BitSteps(Xor(c, s[0]), width), LittleEndian(s[1..], width)), n)
  {
    FirstSymbolOut(c, s[0], LittleEndian(s[1..], width), width);
    BitStepsAdd(Xor(c, LittleEndian(s, width)), width, n);
  }

  /** Feeding a string is one long shift of the register mixed with the whole string at once. */
  lemma {:induction false} FeedIsOneShift(c: nat, s: Bytes, width: nat)
    requires forall i :: 0 <= i < |s| ==> s[i] < Pow2(width)
    ensures Feed(c, s, width) == BitSteps(Xor(c, LittleEndian(s, width)), BitCount(|s|, width))
    decreases |s|
  {
    if s == [] {
      XorComm(c, 0);
    } else {
      PeelSymbol(c, s, width, BitCount(|s[1..]|, width));
      FeedIsOneShift(BitSteps(Xor(c, s[0]), width), s[1..], width);
    }
  }

  lemma {:induction false} FeedAppend(c: nat, s: Bytes, t: Bytes, width: nat)
    ensures Feed(c, s + t, width) == Feed(Feed(c, s, width), t, width)
    decreases |s|
  {
    if s == [] {
      assert s + t == t;
    } else {
      assert (s + t)[1..] == s[1..] + t;
      FeedAppend(BitSteps(Xor(c, s[0]), width), s[1..], t, width);
    }
  }

  lemma WindowInjective(c: u32, u: Bytes, v: Bytes)
    requires |u| == |v| <= 4
    requires Feed(c, u, 8) == Feed(c, v, 8)
    ensures u == v
  {
    var x, y := LittleEndian(u, 8), LittleEndian(v, 8);
    WidthOfRegister();
    FeedIsOneShift(c, u, 8);
    FeedIsOneShift(c, v, 8);
    LittleEndianBound(u);
    LittleEndianBound(v);
    Pow256Monotone(|u|, 4);
    WidthOfU32();
    XorBound(c, x, 32);
    XorBound(c, y, 32);
    BitStepsInjective(Xor(c, x), Xor(c, y), BitCount(|u|, 8));
    XorComm(c, x);
    XorComm(c, y);
    XorCancel(x, y, c);
    LittleEndianInjective(u, v);
  }

  /**
   Burst detection: payloads of any one length that differ only inside a window of at most four
   consecutive bytes have different checksums.
   */
  lemma BurstDetected(prefix: Bytes, u: Bytes, v: Bytes, suffix: Bytes)
    requires |u| == |v| <= 4
    requires u != v
    ensures Crc(prefix + u + suffix) != Crc(prefix + v + suffix)
  {
    var c0: u32 := 0xFFFF_FFFF;
    FeedBound(c0, prefix, 8);
    var c: u32 := Feed(c0, prefix, 8);
    FeedAppend(c0, prefix + u, suffix, 8);
    FeedAppend(c0, prefix + v, suffix, 8);
    FeedAppend(c0, prefix, u, 8);
    FeedAppend(c0, prefix, v, 8);
    FeedBound(c, u, 8);
    FeedBound(c, v, 8);
    if Feed(c0, prefix + u + suffix, 8) == Feed(c0, prefix + v + suffix, 8) {
      FeedInjective(Feed(c, u, 8), Feed(c, v, 8), suffix, 8);
      WindowInjective(c, u, v);
      assert false;
    }
  }

  // ---------------------------------------------------------------- the loop

  /** The inner loop of `crc32_ieee`. */
  method ShiftOut(start: u32, bits: nat) returns (c: u32)
    ensures c == BitSteps(start, bits)
  {
    c := start;
    for k := 0 to bits
      invariant BitSteps(c, bits - k) == BitSteps(start, bits)
    {
      BitStepBound(c);
      if c % 2 != 0 {
        c := Xor(c / 2, POLYNOMIAL);
      } else {
        c := c / 2;
      }
    }
  }

  /** `crc32_ieee` as written: a register updated byte by byte and bit by bit. */
  method Crc32Ieee(payload: Bytes) returns (crc: u32)
    ensures crc == Crc(payload)
  {
    var c: u32 := 0xFFFF_FFFF;
    for i := 0 to |payload|
      invariant Feed(c, payload[i..], 8) == Feed(0xFFFF_FFFF, payload, 8)
    {
      SymbolBound(c, payload[i], 8);
      assert payload[i..][1..] == payload[i + 1..];
      c := ShiftOut(Xor(c, payload[i]), 8);
    }
    crc := 0xFFFF_FFFF - c;
  }
}
