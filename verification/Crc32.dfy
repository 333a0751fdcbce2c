/**
 CRC-32 as gzip and the header format use it (section 8 of RFC 1952): bytes enter a 32-bit
 register low bit first, and the register starts and ends complemented.
 */
module Crc32 {
  import opened Bytes

  const POLYNOMIAL: nat := 0xEDB88320
  const ALL_ONES: nat := 0xFFFFFFFF

  /** Shifts one bit out of the register. */
  function BitStep(c: u32): (r: u32) {
    XorBound32(c / 2, POLYNOMIAL);
    if c % 2 == 1 then XorBits(c / 2, POLYNOMIAL) else c / 2
  }

  function BitSteps(c: u32, n: nat): u32
    decreases n
  {
    if n == 0 then c else BitSteps(BitStep(c), n - 1)
  }

  function Xor32(a: u32, b: u32): u32 {
    XorBound32(a, b);
    XorBits(a, b)
  }

  function ByteStep(c: u32, b: byte): u32 {
    BitSteps(Xor32(c, b), 8)
  }

  function Fold(c: u32, s: seq<byte>): u32
    decreases |s|
  {
    if s == [] then c else Fold(ByteStep(c, s[0]), s[1..])
  }

  function Checksum(s: seq<byte>): u32 {
    Xor32(Fold(ALL_ONES, s), ALL_ONES)
  }

  lemma Pow2Of32()
    ensures Pow2(31) == 0x8000_0000 && Pow2(32) == 0x1_0000_0000
  {
    assert Pow2(8) == 256;
    Pow2Adds(8, 8);
    Pow2Adds(16, 8);
    Pow2Adds(24, 8);
    assert Pow2(32) == 2 * Pow2(31);
  }

  lemma {:induction false} Pow2Adds(i: nat, j: nat)
    ensures Pow2(i + j) == Pow2(i) * Pow2(j)
  {
    if j > 0 {
      Pow2Adds(i, j - 1);
      assert Pow2(i + j) == 2 * (Pow2(i) * Pow2(j - 1));
    }
  }

  lemma XorBound32(a: u32, b: u32)
    ensures XorBits(a, b) < TWO_32
  {
    Pow2Of32();
    XorBound(a, b, 32);
  }

  // ------------------------------------------------------------------ one bit, one byte

  /** A number with its top bit at `k` keeps it when a smaller number is added. */
  lemma {:induction false} TopBitStays(a: nat, b: nat, k: nat)
    requires a < Pow2(k) <= b < 2 * Pow2(k)
    ensures Pow2(k) <= XorBits(a, b)
  {
    if k > 0 {
      TopBitStays(a / 2, b / 2, k - 1);
    }
  }

  lemma XorInjective(a: nat, b: nat, x: nat)
    requires XorBits(a, x) == XorBits(b, x)
    ensures a == b
  {
    XorSelf(a, x);
    XorSelf(b, x);
  }

  /** The bit shifted out reappears as the top bit, so nothing is lost. */
  lemma BitStepInjective(c: u32, d: u32)
    requires BitStep(c) == BitStep(d)
    ensures c == d
  {
    Pow2Of32();
    TopBitStays(c / 2, POLYNOMIAL, 31);
    TopBitStays(d / 2, POLYNOMIAL, 31);
    assert c % 2 == d % 2;
    if c % 2 == 1 {
      XorInjective(c / 2, d / 2, POLYNOMIAL);
    }
  }

  lemma {:induction false} BitStepsInjective(c: u32, d: u32, n: nat)
    requires BitSteps(c, n) == BitSteps(d, n)
    ensures c == d
    decreases n
  {
    if n > 0 {
      BitStepsInjective(BitStep(c), BitStep(d), n - 1);
      BitStepInjective(c, d);
    }
  }

  /** A byte step is injective in the register. */
  lemma ByteStepInjective(c: u32, d: u32, b: byte)
    requires ByteStep(c, b) == ByteStep(d, b)
    ensures c == d
  {
    hide BitSteps;
    BitStepsInjective(Xor32(c, b), Xor32(d, b), 8);
    XorInjective(c, d, b);
  }

  lemma {:induction false} FoldInjective(c: u32, d: u32, s: seq<byte>)
    requires Fold(c, s) == Fold(d, s)
    ensures c == d
    decreases |s|
  {
    hide ByteStep;
    if s != [] {
      FoldInjective(ByteStep(c, s[0]), ByteStep(d, s[0]), s[1..]);
      ByteStepInjective(c, d, s[0]);
    }
  }

  lemma {:induction false} FoldConcat(c: u32, a: seq<byte>, b: seq<byte>)
    ensures Fold(c, a + b) == Fold(Fold(c, a), b)
    decreases |a|
  {
    hide ByteStep;
    if a == [] {
      assert a + b == b;
    } else {
      assert (a + b)[1..] == a[1..] + b;
      FoldConcat(ByteStep(c, a[0]), a[1..], b);
    }
  }

  // ------------------------------------------------------------------ which polynomial

  /** The coefficient of x^i in the polynomial that a register stands for, its lowest bit being that of
      x^31. */
  predicate Coefficient(c: u32, i: nat)
    requires i < 32
  {
    Bit(c, 31 - i)
  }

  lemma {:induction false} NoHighBit(n: nat, k: nat)
    requires n < Pow2(k)
    ensures !Bit(n, k)
  {
    if k > 0 {
      NoHighBit(n / 2, k - 1);
    }
  }

  lemma BitOfHigherNibble(n: nat, k: nat)
    requires k >= 4
    ensures Bit(n, k) == Bit(n / 16, k - 4)
  {
    assert Bit(n, k) == Bit(n / 2, k - 1) == Bit(n / 4, k - 2) == Bit(n / 8, k - 3) == Bit(n / 16, k - 4);
  }

  lemma BitsOfNibble(n: nat, k: nat)
    requires k < 4
    ensures Bit(n, k) <==> (if k == 0 then n else if k == 1 then n / 2 else if k == 2 then n / 4 else n / 8) % 2 == 1
  {
    assert k >= 1 ==> Bit(n, k) == Bit(n / 2, k - 1);
    assert k >= 2 ==> Bit(n / 2, k - 1) == Bit(n / 4, k - 2);
    assert k >= 3 ==> Bit(n / 4, k - 2) == Bit(n / 8, k - 3);
  }

  /** The bits of the polynomial, from x^31 down to 1. */
  lemma PolynomialBits(k: nat)
    requires k < 32
    ensures Bit(POLYNOMIAL, k) <==> 31 - k in {0, 1, 2, 4, 5, 7, 8, 10, 11, 12, 16, 22, 23, 26}
  {
    hide Bit;
    if k >= 4 {
      BitOfHigherNibble(0xEDB88320, k);
    }
    if k >= 8 {
      BitOfHigherNibble(0xEDB8832, k - 4);
    }
    if k >= 12 {
      BitOfHigherNibble(0xEDB883, k - 8);
    }
    if k >= 16 {
      BitOfHigherNibble(0xEDB88, k - 12);
    }
    if k >= 20 {
      BitOfHigherNibble(0xEDB8, k - 16);
    }
    if k >= 24 {
      BitOfHigherNibble(0xEDB, k - 20);
    }
    if k >= 28 {
      BitOfHigherNibble(0xED, k - 24);
    }
    if k < 4 {
      BitsOfNibble(0xEDB88320, k);
    } else if k < 8 {
      BitsOfNibble(0xEDB8832, k - 4);
    } else if k < 12 {
      BitsOfNibble(0xEDB883, k - 8);
    } else if k < 16 {
      BitsOfNibble(0xEDB88, k - 12);
    } else if k < 20 {
      BitsOfNibble(0xEDB8, k - 16);
    } else if k < 24 {
      BitsOfNibble(0xEDB, k - 20);
    } else if k < 28 {
      BitsOfNibble(0xED, k - 24);
    } else {
      BitsOfNibble(0xE, k - 28);
    }
  }

  /** Multiplies the polynomial by x modulo x^32 + x^26 + x^23 + x^22 + x^16 + x^12 + x^11 + x^10 + x^8
      + x^7 + x^5 + x^4 + x^2 + x + 1. */
  lemma BitStepIsTimesX(c: u32, i: nat)
    requires i < 32
    ensures Coefficient(BitStep(c), i)
         == ((i > 0 && Coefficient(c, i - 1))
             != (Coefficient(c, 31) && i in {0, 1, 2, 4, 5, 7, 8, 10, 11, 12, 16, 22, 23, 26}))
  {
    hide XorBits;
    Pow2Of32();
    var k := 31 - i;
    XorBit(c / 2, POLYNOMIAL, k);
    PolynomialBits(k);
    if i == 0 {
      NoHighBit(c / 2, 31);
    } else {
      assert Bit(c, k + 1) == Bit(c / 2, k);
    }
  }

  // ------------------------------------------------------------------ a window of four bytes

  lemma XorDoubled(c: nat, y: nat)
    ensures XorBits(c, 2 * y) == 2 * XorBits(c / 2, y) + c % 2
  {
    assert 2 * y / 2 == y;
  }

  /** Adding an even number to the register adds its half after one step. */
  lemma BitStepOfSum(c: u32, y: nat)
    requires 2 * y < TWO_32
    ensures Xor32(c, 2 * y) % 2 == c % 2
    ensures BitStep(Xor32(c, 2 * y)) == Xor32(BitStep(c), y)
  {
    hide XorBits;
    XorDoubled(c, y);
    if c % 2 == 1 {
      XorAssociates(c / 2, y, POLYNOMIAL);
      XorCommutes(y, POLYNOMIAL);
      XorAssociates(c / 2, POLYNOMIAL, y);
    }
  }

  lemma {:induction false} BitStepsOfSum(c: u32, y: nat, n: nat)
    requires Pow2(n) * y < TWO_32
    ensures BitSteps(Xor32(c, Pow2(n) * y), n) == Xor32(BitSteps(c, n), y)
    decreases n
  {
    hide BitStep, Xor32;
    if n > 0 {
      var half := Pow2(n - 1) * y;
      assert Pow2(n) * y == 2 * half;
      BitStepOfSum(c, half);
      BitStepsOfSum(BitStep(c), y, n - 1);
    }
  }

  lemma {:induction false} BitStepsAdd(c: u32, m: nat, n: nat)
    ensures BitSteps(c, m + n) == BitSteps(BitSteps(c, m), n)
    decreases m
  {
    if m > 0 {
      BitStepsAdd(BitStep(c), m - 1, n);
    }
  }

  /** The bits of a byte and of a multiple of 256 do not meet. */
  lemma {:induction false} DisjointSum(a: nat, y: nat, k: nat)
    requires a < Pow2(k)
    ensures XorBits(a, Pow2(k) * y) == a + Pow2(k) * y
  {
    if k == 0 {
      XorCommutes(a, y);
      XorZero(y);
    } else {
      assert Pow2(k) * y == 2 * (Pow2(k - 1) * y);
      assert (Pow2(k) * y) / 2 == Pow2(k - 1) * y && (Pow2(k) * y) % 2 == 0;
      DisjointSum(a / 2, y, k - 1);
    }
  }

  lemma {:induction false} LeValueBound(s: seq<byte>)
    ensures LeValue(s) < Pow256(|s|)
  {
    if s != [] {
      LeValueBound(s[1..]);
    }
  }

  lemma {:induction false} LeValueInjective(s: seq<byte>, t: seq<byte>)
    requires |s| == |t| && LeValue(s) == LeValue(t)
    ensures s == t
    decreases |s|
  {
    if s != [] {
      assert s[0] == LeValue(s) % 256 && t[0] == LeValue(t) % 256;
      LeValueInjective(s[1..], t[1..]);
      assert s == [s[0]] + s[1..] && t == [t[0]] + t[1..];
    }
  }

  lemma FirstByte(c: u32, b: byte, v: nat)
    requires b + 256 * v < TWO_32
    ensures BitSteps(Xor32(c, b + 256 * v), 8) == Xor32(ByteStep(c, b), v)
  {
    hide BitSteps, BitStep;
    assert Pow2(8) == 256;
    DisjointSum(b, v, 8);
    XorAssociates(c, b, 256 * v);
    BitStepsOfSum(Xor32(c, b), v, 8);
  }

  function Halved(n: nat, k: nat): nat {
    if k == 0 then n else Halved(n / 2, k - 1)
  }

  lemma {:induction false} XorHalved(a: nat, b: nat, k: nat)
    ensures Halved(XorBits(a, b), k) == XorBits(Halved(a, k), Halved(b, k))
  {
    if k > 0 {
      XorHalved(a / 2, b / 2, k - 1);
    }
  }

  lemma {:induction false} HalvedAgain(n: nat, i: nat, j: nat)
    ensures Halved(n, i + j) == Halved(Halved(n, i), j)
    decreases i
  {
    if i > 0 {
      HalvedAgain(n / 2, i - 1, j);
    }
  }

  lemma TwoHalvings(n: nat)
    ensures Halved(n, 2) == n / 4
  {
    assert Halved(n, 2) == Halved(n / 2, 1) == Halved(n / 2 / 2, 0);
  }

  lemma EightHalvings(n: nat)
    ensures Halved(n, 8) == n / 256
  {
    hide Halved;
    HalvedAgain(n, 4, 4);
    HalvedAgain(n, 2, 2);
    HalvedAgain(n / 16, 2, 2);
    TwoHalvings(n);
    TwoHalvings(n / 4);
    TwoHalvings(n / 16);
    TwoHalvings(n / 64);
  }

  /** The table-driven update of section 8 of RFC 1952 is the same step: `BitSteps(i, 8)` is
      entry `i` of its table. */
  lemma TableForm(c: u32, b: byte)
    ensures ByteStep(c, b) == XorBits(BitSteps(Xor32(c, b) % 256, 8), c / 256)
  {
    hide BitSteps, BitStep, Halved;
    assert Pow2(8) == 256;
    var z := Xor32(c, b);
    XorHalved(c, b, 8);
    EightHalvings(c);
    EightHalvings(b);
    EightHalvings(z);
    XorZero(c / 256);
    assert z / 256 == c / 256;
    DisjointSum(z % 256, z / 256, 8);
    BitStepsOfSum(z % 256, z / 256, 8);
  }

  /** Up to four bytes enter the register as one number. */
  lemma {:induction false} FoldIsOneNumber(c: u32, w: seq<byte>)
    requires |w| <= 4
    ensures LeValue(w) < TWO_32
    ensures Fold(c, w) == BitSteps(Xor32(c, LeValue(w)), 8 * |w|)
    decreases |w|
  {
    hide BitSteps, BitStep, ByteStep, Xor32;
    SmallValue(w);
    if w == [] {
      EmptyWindow(c);
    } else {
      SmallValue(w[1..]);
      FoldIsOneNumber(ByteStep(c, w[0]), w[1..]);
      FirstByte(c, w[0], LeValue(w[1..]));
      BitStepsAdd(Xor32(c, LeValue(w)), 8, 8 * |w[1..]|);
    }
  }

  lemma EmptyWindow(c: u32)
    ensures BitSteps(Xor32(c, 0), 0) == c
  {
    XorZero(c);
  }

  lemma SmallValue(w: seq<byte>)
    requires |w| <= 4
    ensures LeValue(w) < TWO_32
  {
    LeValueBound(w);
    assert Pow256(4) == 0x1_0000_0000;
    PowersGrow(|w|, 4);
  }

  lemma {:induction false} PowersGrow(i: nat, j: nat)
    requires i <= j
    ensures Pow256(i) <= Pow256(j)
    decreases j
  {
    if i < j {
      PowersGrow(i, j - 1);
    }
  }

  lemma FoldWindowInjective(c: u32, v: seq<byte>, w: seq<byte>)
    requires |v| == |w| <= 4 && Fold(c, v) == Fold(c, w)
    ensures v == w
  {
    hide BitSteps, BitStep, ByteStep, Fold;
    FoldIsOneNumber(c, v);
    FoldIsOneNumber(c, w);
    BitStepsInjective(Xor32(c, LeValue(v)), Xor32(c, LeValue(w)), 8 * |v|);
    XorCommutes(c, LeValue(v));
    XorCommutes(c, LeValue(w));
    XorInjective(LeValue(v), LeValue(w), c);
    LeValueInjective(v, w);
  }

  /** A change confined to four consecutive bytes always shows in the checksum. */
  lemma WindowShows(x: seq<byte>, v: seq<byte>, w: seq<byte>, y: seq<byte>)
    requires |v| == |w| <= 4 && Checksum(x + v + y) == Checksum(x + w + y)
    ensures v == w
  {
    hide Fold, BitSteps;
    XorInjective(Fold(ALL_ONES, x + v + y), Fold(ALL_ONES, x + w + y), ALL_ONES);
    var c := Fold(ALL_ONES, x);
    FoldConcat(ALL_ONES, x + v, y);
    FoldConcat(ALL_ONES, x + w, y);
    FoldConcat(ALL_ONES, x, v);
    FoldConcat(ALL_ONES, x, w);
    FoldInjective(Fold(c, v), Fold(c, w), y);
    FoldWindowInjective(c, v, w);
  }

  // ------------------------------------------------------------------ how it starts and ends

  /** Exclusive-or of two bits, two pairs, two triples and two hexadecimal digits, from the top. */
  function OneBit(a: nat, b: nat): nat {
    if a == b then 0 else 1
  }

  function TwoBits(a: nat, b: nat): nat
    requires a < 4 && b < 4
  {
    if a < 2 then (if b < 2 then OneBit(a, b) else 2 + OneBit(a, b - 2))
    else if b < 2 then 2 + OneBit(a - 2, b)
    else OneBit(a - 2, b - 2)
  }

  function ThreeBits(a: nat, b: nat): nat
    requires a < 8 && b < 8
  {
    if a < 4 then (if b < 4 then TwoBits(a, b) else 4 + TwoBits(a, b - 4))
    else if b < 4 then 4 + TwoBits(a - 4, b)
    else TwoBits(a - 4, b - 4)
  }

  function Digit(a: nat, b: nat): nat
    requires a < 16 && b < 16
  {
    if a < 8 then (if b < 8 then ThreeBits(a, b) else 8 + ThreeBits(a, b - 8))
    else if b < 8 then 8 + ThreeBits(a - 8, b)
    else ThreeBits(a - 8, b - 8)
  }

  lemma XorOneBit(a: nat, b: nat)
    ensures XorBits(a, b) == 2 * XorBits(a / 2, b / 2) + (if a % 2 != b % 2 then 1 else 0)
  {
  }

  lemma SmallXors(a: nat, b: nat)
    requires a < 2 && b < 2
    ensures XorBits(a, b) == OneBit(a, b)
  {
    XorOneBit(a, b);
    XorZero(0);
  }

  /** Numbers in two parts are added part by part. */
  lemma SplitAtOne(a: nat, b: nat, x: nat, y: nat)
    requires a < 2 && b < 2
    ensures XorBits(a + 2 * x, b + 2 * y) == XorBits(a, b) + 2 * XorBits(x, y)
  {
    hide XorBits;
    XorOneBit(a + 2 * x, b + 2 * y);
    XorOneBit(a, b);
    XorZero(0);
    assert (a + 2 * x) / 2 == x && (b + 2 * y) / 2 == y;
  }

  lemma SplitAtTwo(a: nat, b: nat, x: nat, y: nat)
    requires a < 4 && b < 4
    ensures XorBits(a + 4 * x, b + 4 * y) == XorBits(a, b) + 4 * XorBits(x, y)
  {
    hide XorBits;
    SplitAtOne(a % 2, b % 2, a / 2 + 2 * x, b / 2 + 2 * y);
    SplitAtOne(a % 2, b % 2, a / 2, b / 2);
    SplitAtOne(a / 2, b / 2, x, y);
  }

  lemma SplitAtThree(a: nat, b: nat, x: nat, y: nat)
    requires a < 8 && b < 8
    ensures XorBits(a + 8 * x, b + 8 * y) == XorBits(a, b) + 8 * XorBits(x, y)
  {
    hide XorBits;
    SplitAtOne(a % 2, b % 2, a / 2 + 4 * x, b / 2 + 4 * y);
    SplitAtOne(a % 2, b % 2, a / 2, b / 2);
    SplitAtTwo(a / 2, b / 2, x, y);
  }

  lemma SplitAtFour(a: nat, b: nat, x: nat, y: nat)
    requires a < 16 && b < 16
    ensures XorBits(a + 16 * x, b + 16 * y) == XorBits(a, b) + 16 * XorBits(x, y)
  {
    hide XorBits;
    SplitAtOne(a % 2, b % 2, a / 2 + 8 * x, b / 2 + 8 * y);
    SplitAtOne(a % 2, b % 2, a / 2, b / 2);
    SplitAtThree(a / 2, b / 2, x, y);
  }

  lemma DigitIsXor(a: nat, b: nat)
    requires a < 16 && b < 16
    ensures Digit(a, b) == XorBits(a, b)
  {
    hide XorBits;
    var x, y := if a < 8 then 0 else 1, if b < 8 then 0 else 1;
    var c, d := a - 8 * x, b - 8 * y;
    SplitAtThree(c, d, x, y);
    SmallXors(x, y);
    var u, v := if c < 4 then 0 else 1, if d < 4 then 0 else 1;
    var e, f := c - 4 * u, d - 4 * v;
    SplitAtTwo(e, f, u, v);
    SmallXors(u, v);
    var g, h := if e < 2 then 0 else 1, if f < 2 then 0 else 1;
    SplitAtOne(e - 2 * g, f - 2 * h, g, h);
    SmallXors(g, h);
    SmallXors(e - 2 * g, f - 2 * h);
  }

  /** A number from its hexadecimal digits. */
  function Digits(d7: nat, d6: nat, d5: nat, d4: nat, d3: nat, d2: nat, d1: nat, d0: nat): nat {
    d0 + 16 * (d1 + 16 * (d2 + 16 * (d3 + 16 * (d4 + 16 * (d5 + 16 * (d6 + 16 * d7))))))
  }

  lemma NextDigit(d: nat, e: nat, a: nat, b: nat)
    requires d < 16 && e < 16
    ensures XorBits(d + 16 * a, e + 16 * b) == Digit(d, e) + 16 * XorBits(a, b)
  {
    hide XorBits;
    SplitAtFour(d, e, a, b);
    DigitIsXor(d, e);
  }

  lemma EvenStep(c: u32, d: u32, n: nat)
    requires n > 0 && c == 2 * d
    ensures BitSteps(c, n) == BitSteps(d, n - 1)
  {
  }

  /** A step that shifts out a one, digit by digit: `a` is half of the register, `z` the new one. */
  lemma OddStep(n: nat, a7: nat, a6: nat, a5: nat, a4: nat, a3: nat, a2: nat, a1: nat, a0: nat,
                z7: nat, z6: nat, z5: nat, z4: nat, z3: nat, z2: nat, z1: nat, z0: nat)
    requires n > 0 && a7 < 8 && a6 < 16 && a5 < 16 && a4 < 16 && a3 < 16 && a2 < 16 && a1 < 16 && a0 < 16
    requires z7 == Digit(a7, 0xE) && z6 == Digit(a6, 0xD) && z5 == Digit(a5, 0xB) && z4 == Digit(a4, 8)
    requires z3 == Digit(a3, 8) && z2 == Digit(a2, 3) && z1 == Digit(a1, 2) && z0 == Digit(a0, 0)
    ensures 2 * Digits(a7, a6, a5, a4, a3, a2, a1, a0) + 1 < TWO_32 && Digits(z7, z6, z5, z4, z3, z2, z1, z0) < TWO_32
    ensures BitSteps(2 * Digits(a7, a6, a5, a4, a3, a2, a1, a0) + 1, n)
         == BitSteps(Digits(z7, z6, z5, z4, z3, z2, z1, z0), n - 1)
  {
    var x6 := a6 + 16 * a7;
    var x5 := a5 + 16 * x6;
    var x4 := a4 + 16 * x5;
    var x3 := a3 + 16 * x4;
    var x2 := a2 + 16 * x3;
    var x1 := a1 + 16 * x2;
    var x0 := a0 + 16 * x1;
    hide XorBits, Digit;
    XorZero(0);
    NextDigit(a7, 0xE, 0, 0);
    NextDigit(a6, 0xD, a7, 0xE);
    NextDigit(a5, 0xB, x6, 0xED);
    NextDigit(a4, 8, x5, 0xEDB);
    NextDigit(a3, 8, x4, 0xEDB8);
    NextDigit(a2, 3, x3, 0xEDB88);
    NextDigit(a1, 2, x2, 0xEDB883);
    NextDigit(a0, 0, x1, 0xEDB8832);
    XorBound32(x0, POLYNOMIAL);
    OddStepOf(x0, n);
  }

  lemma OddStepOf(a: nat, n: nat)
    requires n > 0 && 2 * a + 1 < TWO_32
    ensures XorBits(a, 0xEDB8_8320) < TWO_32
    ensures BitSteps(2 * a + 1, n) == BitSteps(XorBits(a, 0xEDB8_8320), n - 1)
  {
    hide XorBits;
    XorBound32(a, POLYNOMIAL);
    assert (2 * a + 1) / 2 == a && (2 * a + 1) % 2 == 1;
  }

  lemma StepsFrom32()
    ensures BitSteps(0xFFFFFFFF, 32) == BitSteps(0xB2420DE3, 28)
  {
    hide BitSteps;
    OddStep(32, 7, 0xF, 0xF, 0xF, 0xF, 0xF, 0xF, 0xF,
            9, 2, 4, 7, 7, 0xC, 0xD, 0xF);
    OddStep(31, 4, 9, 2, 3, 0xB, 0xE, 6, 0xF,
            0xA, 4, 9, 0xB, 3, 0xD, 4, 0xF);
    OddStep(30, 5, 2, 4, 0xD, 9, 0xE, 0xA, 7,
            0xB, 0xF, 0xF, 5, 1, 0xD, 8, 7);
    OddStep(29, 5, 0xF, 0xF, 0xA, 8, 0xE, 0xC, 3,
            0xB, 2, 4, 2, 0, 0xD, 0xE, 3);
  }

  lemma StepsFrom28()
    ensures BitSteps(0xB2420DE3, 28) == BitSteps(0x2DFD1072, 24)
  {
    hide BitSteps;
    OddStep(28, 5, 9, 2, 1, 0, 6, 0xF, 1,
            0xB, 4, 9, 9, 8, 5, 0xD, 1);
    OddStep(27, 5, 0xA, 4, 0xC, 0xC, 2, 0xE, 8,
            0xB, 7, 0xF, 4, 4, 1, 0xC, 8);
    EvenStep(0xB7F441C8, 0x5BFA20E4, 26);
    EvenStep(0x5BFA20E4, 0x2DFD1072, 25);
  }

  lemma StepsFrom24()
    ensures BitSteps(0x2DFD1072, 24) == BitSteps(0x39B1F1CF, 20)
  {
    hide BitSteps;
    EvenStep(0x2DFD1072, 0x16FE8839, 24);
    OddStep(23, 0, 0xB, 7, 0xF, 4, 4, 1, 0xC,
            0xE, 6, 0xC, 7, 0xC, 7, 3, 0xC);
    EvenStep(0xE6C7C73C, 0x7363E39E, 22);
    EvenStep(0x7363E39E, 0x39B1F1CF, 21);
  }

  lemma StepsFrom20()
    ensures BitSteps(0x39B1F1CF, 20) == BitSteps(0xBE26ED00, 16)
  {
    hide BitSteps;
    OddStep(20, 1, 0xC, 0xD, 8, 0xF, 8, 0xE, 7,
            0xF, 1, 6, 0, 7, 0xB, 0xC, 7);
    OddStep(19, 7, 8, 0xB, 0, 3, 0xD, 0xE, 3,
            9, 5, 0, 8, 0xB, 0xE, 0xC, 3);
    OddStep(18, 4, 0xA, 8, 4, 5, 0xF, 6, 1,
            0xA, 7, 3, 0xC, 0xD, 0xC, 4, 1);
    OddStep(17, 5, 3, 9, 0xE, 6, 0xE, 2, 0,
            0xB, 0xE, 2, 6, 0xE, 0xD, 0, 0);
  }

  lemma StepsFrom16()
    ensures BitSteps(0xBE26ED00, 16) == BitSteps(0x0BE26ED0, 12)
  {
    hide BitSteps;
    EvenStep(0xBE26ED00, 0x5F137680, 16);
    EvenStep(0x5F137680, 0x2F89BB40, 15);
    EvenStep(0x2F89BB40, 0x17C4DDA0, 14);
    EvenStep(0x17C4DDA0, 0x0BE26ED0, 13);
  }

  lemma StepsFrom12()
    ensures BitSteps(0x0BE26ED0, 12) == BitSteps(0x00BE26ED, 8)
  {
    hide BitSteps;
    EvenStep(0x0BE26ED0, 0x05F13768, 12);
    EvenStep(0x05F13768, 0x02F89BB4, 11);
    EvenStep(0x02F89BB4, 0x017C4DDA, 10);
    EvenStep(0x017C4DDA, 0x00BE26ED, 9);
  }

  lemma StepsFrom8()
    ensures BitSteps(0x00BE26ED, 8) == BitSteps(0x86D830BA, 4)
  {
    hide BitSteps;
    OddStep(8, 0, 0, 5, 0xF, 1, 3, 7, 6,
            0xE, 0xD, 0xE, 7, 9, 0, 5, 6);
    EvenStep(0xEDE79056, 0x76F3C82B, 7);
    OddStep(6, 3, 0xB, 7, 9, 0xE, 4, 1, 5,
            0xD, 6, 0xC, 1, 6, 7, 3, 5);
    OddStep(5, 6, 0xB, 6, 0, 0xB, 3, 9, 0xA,
            8, 6, 0xD, 8, 3, 0, 0xB, 0xA);
  }

  lemma StepsFrom4()
    ensures BitSteps(0x86D830BA, 4) == BitSteps(0xDEBB20E3, 0)
  {
    hide BitSteps;
    EvenStep(0x86D830BA, 0x436C185D, 4);
    OddStep(3, 2, 1, 0xB, 6, 0, 0xC, 2, 0xE,
            0xC, 0xC, 0, 0xE, 8, 0xF, 0, 0xE);
    EvenStep(0xCC0E8F0E, 0x66074787, 2);
    OddStep(1, 3, 3, 0, 3, 0xA, 3, 0xC, 3,
            0xD, 0xE, 0xB, 0xB, 2, 0, 0xE, 3);
  }

  /** The register after thirty-two steps from all ones. */
  lemma StepsFromOnes()
    ensures BitSteps(0xFFFF_FFFF, 32) == 0xDEBB_20E3
  {
    StepsFrom32();
    StepsFrom28();
    StepsFrom24();
    StepsFrom20();
    StepsFrom16();
    StepsFrom12();
    StepsFrom8();
    StepsFrom4();
  }

  lemma {:induction false} LeValueOfBytes(n: nat, k: nat)
    requires n < Pow256(k)
    ensures LeValue(LeBytes(n, k)) == n
  {
    if k > 0 {
      LeValueOfBytes(n / 256, k - 1);
    }
  }

  /** Feeding a checksum back, least significant byte first, leaves one value in the register, whatever
      it is the checksum of: the register starts and ends complemented. */
  lemma ChecksumResidue(s: seq<byte>)
    ensures Fold(0xFFFF_FFFF, s + LeBytes(Checksum(s), 4)) == 0xDEBB_20E3
  {
    hide Fold, BitSteps, XorBits;
    var c, w := Fold(ALL_ONES, s), LeBytes(Checksum(s), 4);
    FoldConcat(ALL_ONES, s, w);
    SmallValue(w);
    assert Pow256(4) == 0x1_0000_0000;
    LeValueOfBytes(Checksum(s), 4);
    FoldIsOneNumber(c, w);
    XorBack(c, ALL_ONES);
    StepsFromOnes();
  }

  lemma XorBack(a: nat, b: nat)
    ensures XorBits(a, XorBits(a, b)) == b
  {
    XorCommutes(a, XorBits(a, b));
    XorCommutes(a, b);
    XorSelf(b, a);
  }
}
