/**
 The XTS tweak chain: multiplication by the primitive element alpha of GF(2^128), as
 section 5.2 of IEEE Std 1619-2007 defines it on bytes, as a polynomial operation on the
 128 coefficients, and as the two-word shift the program runs.
 */
module Tweak {
  import opened Bytes

  type Block = b: seq<byte> | |b| == 16 witness Zeros(16)

  // ------------------------------------------------------------------ the byte recurrence

  /** alpha * t: every byte shifts left, its top bit carries into the next byte, and the
      carry out of byte 15 comes back as 0x87 into byte 0. */
  function Double(t: Block): (d: Block) {
    seq(16, i requires 0 <= i < 16 => DoubleByte(t, i))
  }

  function DoubleByte(t: Block, i: nat): byte
    requires i < 16
  {
    if i == 0 then LowByte(t[0], t[15]) else Shifted(t[i], t[i - 1] / 128)
  }

  /** A byte shifted left, with `carry` in its lowest bit. */
  function Shifted(b: byte, carry: nat): byte
    requires carry < 2
  {
    2 * (b % 128) + carry
  }

  function LowByte(b: byte, top: byte): byte {
    if top / 128 == 1 then XorByte(Shifted(b, 0), 0x87) else Shifted(b, 0)
  }

  /** alpha^j * t */
  function Power(t: Block, j: nat): Block {
    if j == 0 then t else Double(Power(t, j - 1))
  }

  lemma {:induction false} PowerShift(t: Block, j: nat)
    ensures Power(Double(t), j) == Power(t, j + 1)
  {
    if j > 0 {
      PowerShift(t, j - 1);
    }
  }

  // ------------------------------------------------------------------ the polynomial reading

  /** Coefficient of x^i in the polynomial a block stands for. */
  predicate Coefficient(t: Block, i: nat)
    requires i < 128
  {
    Bit(t[i / 8], i % 8)
  }

  /** A number below 2^7 keeps its bits when a higher multiple of 2^7 is added. */
  lemma {:induction false} LowBits(n: nat, m: nat, k: nat)
    requires k < m
    ensures Bit(n % Pow2(m), k) == Bit(n, k)
  {
    HalfOfRemainder(n, m);
    if k > 0 {
      LowBits(n / 2, m - 1, k - 1);
    }
  }

  lemma HalfOfRemainder(n: nat, m: nat)
    requires m > 0
    ensures (n % Pow2(m)) % 2 == n % 2
    ensures (n % Pow2(m)) / 2 == (n / 2) % Pow2(m - 1)
  {
    RemainderHalved(n, Pow2(m - 1));
  }

  lemma RemainderHalved(n: nat, p: nat)
    requires p > 0
    ensures n % (2 * p) % 2 == n % 2 && n % (2 * p) / 2 == n / 2 % p
  {
    var q, t := n / 2 / p, n / 2 % p;
    var m, low := p * q, n % 2;
    assert n / 2 == m + t;
    TwiceProduct(p, q);
    RemainderIs(n, 2 * p, q, 2 * t + low);
    HalfOfSum(t, low);
  }

  lemma TwiceProduct(p: nat, q: nat)
    ensures 2 * p * q == 2 * (p * q)
  {
  }

  lemma HalfOfSum(m: nat, r: nat)
    ensures (2 * m + r) % 2 == r % 2 && (2 * m + r) / 2 == m + r / 2
  {
  }

  lemma RemainderIs(n: nat, p: nat, q: nat, r: nat)
    requires r < p && n == p * q + r
    ensures n % p == r
  {
    var d := n / p - q;
    assert p * d == r - n % p by {
      assert p * (n / p) + n % p == n;
      assert p * d == p * (n / p) - p * q;
    }
    if d >= 1 {
      ProductAtLeast(p, d);
    } else if d <= -1 {
      ProductAtLeast(p, -d);
    }
  }

  lemma {:induction false} ProductAtLeast(p: nat, d: nat)
    requires d >= 1
    ensures p * d >= p
  {
    if d > 1 {
      ProductAtLeast(p, d - 1);
      assert p * d == p * (d - 1) + p;
    }
  }

  lemma ShiftedBit(b: byte, carry: nat, k: nat)
    requires carry < 2 && k < 8
    ensures Bit(Shifted(b, carry), k) == if k == 0 then carry == 1 else Bit(b, k - 1)
  {
    if k > 0 {
      assert Pow2(7) == 128;
      LowBits(b, 7, k - 1);
      assert Shifted(b, carry) / 2 == b % 128;
    }
  }

  lemma BitStep(n: nat, k: nat)
    ensures Bit(n, k + 1) == Bit(n / 2, k)
  {
  }

  lemma TopBit(b: byte)
    ensures Bit(b, 7) == (b / 128 == 1)
  {
    BitStep(b, 6);
    BitStep(b / 2, 5);
    BitStep(b / 4, 4);
    BitStep(b / 8, 3);
    BitStep(b / 16, 2);
    BitStep(b / 32, 1);
    BitStep(b / 64, 0);
  }

  lemma ReductionBits(k: nat)
    requires k < 8
    ensures Bit(0x87, k) == (k in {0, 1, 2, 7})
  {
    assert Bit(0x87, 3) == Bit(0x43, 2) == Bit(0x21, 1) == Bit(0x10, 0);
    assert Bit(0x87, 4) == Bit(0x10, 1) == Bit(8, 0);
    assert Bit(0x87, 5) == Bit(0x10, 2) == Bit(4, 0);
    assert Bit(0x87, 6) == Bit(0x10, 3) == Bit(2, 0);
    assert Bit(0x87, 7) == Bit(0x10, 4) == Bit(1, 0);
  }

  /** Doubling multiplies by x modulo x^128 + x^7 + x^2 + x + 1: coefficient `i` of the
      result is coefficient `i - 1` of `t`, plus the coefficient that left at x^128 when
      x^i occurs in the reduction polynomial. */
  lemma DoubleIsTimesX(t: Block, i: nat)
    requires i < 128
    ensures Coefficient(Double(t), i)
         == ((i != 0 && Coefficient(t, i - 1)) != (Coefficient(t, 127) && i in {0, 1, 2, 7}))
  {
    var n, k := i / 8, i % 8;
    assert Double(t)[n] == DoubleByte(t, n);
    if n == 0 {
      TopBit(t[15]);
      ShiftedBit(t[0], 0, k);
      XorBit(Shifted(t[0], 0), 0x87, k);
      ReductionBits(k);
    } else {
      ShiftedBit(t[n], t[n - 1] / 128, k);
      TopBit(t[n - 1]);
      if k == 0 {
        assert (i - 1) / 8 == n - 1 && (i - 1) % 8 == 7;
      } else {
        assert (i - 1) / 8 == n && (i - 1) % 8 == k - 1;
      }
    }
  }

  // ------------------------------------------------------------------ algebra of the chain

  lemma {:induction false} EqualBits(a: nat, b: nat, k: nat)
    requires a < Pow2(k) && b < Pow2(k)
    requires forall j: nat :: j < k ==> Bit(a, j) == Bit(b, j)
    ensures a == b
  {
    if k > 0 {
      assert Bit(a, 0) == Bit(b, 0);
      forall j: nat | j < k - 1
        ensures Bit(a / 2, j) == Bit(b / 2, j)
      {
        assert Bit(a, j + 1) == Bit(b, j + 1);
      }
      EqualBits(a / 2, b / 2, k - 1);
    }
  }

  /** The coefficients determine the block. */
  lemma EqualCoefficients(a: Block, b: Block)
    requires forall i: nat :: i < 128 ==> Coefficient(a, i) == Coefficient(b, i)
    ensures a == b
  {
    forall n | 0 <= n < 16
      ensures a[n] == b[n]
    {
      forall j: nat | j < 8
        ensures Bit(a[n], j) == Bit(b[n], j)
      {
        var i := 8 * n + j;
        assert i / 8 == n && i % 8 == j;
        assert Coefficient(a, i) == Coefficient(b, i);
      }
      assert Pow2(8) == 256;
      EqualBits(a[n], b[n], 8);
    }
  }

  lemma XorCoefficient(a: Block, b: Block, i: nat)
    requires i < 128
    ensures Coefficient(Xor(a, b), i) == (Coefficient(a, i) != Coefficient(b, i))
  {
    XorBit(a[i / 8], b[i / 8], i % 8);
  }

  /** Doubling distributes over exclusive-or. */
  lemma DoubleIsLinear(a: Block, b: Block)
    ensures Double(Xor(a, b)) == Xor(Double(a), Double(b))
  {
    forall i: nat | i < 128
      ensures Coefficient(Double(Xor(a, b)), i) == Coefficient(Xor(Double(a), Double(b)), i)
    {
      DoubleIsTimesX(Xor(a, b), i);
      DoubleIsTimesX(a, i);
      DoubleIsTimesX(b, i);
      XorCoefficient(Double(a), Double(b), i);
      XorCoefficient(a, b, 127);
      if i != 0 {
        XorCoefficient(a, b, i - 1);
      }
    }
    EqualCoefficients(Double(Xor(a, b)), Xor(Double(a), Double(b)));
  }

  lemma DoubleIsInjective(a: Block, b: Block)
    requires Double(a) == Double(b)
    ensures a == b
  {
    DoubleIsTimesX(a, 0);
    DoubleIsTimesX(b, 0);
    forall i: nat | i < 127
      ensures Coefficient(a, i) == Coefficient(b, i)
    {
      DoubleIsTimesX(a, i + 1);
      DoubleIsTimesX(b, i + 1);
    }
    EqualCoefficients(a, b);
  }

  lemma DoubleOfZero()
    ensures Double(Zeros(16)) == Zeros(16)
  {
  }

  lemma {:induction false} ZeroStaysZero(j: nat)
    ensures Power(Zeros(16), j) == Zeros(16)
  {
    DoubleOfZero();
    if j > 0 {
      ZeroStaysZero(j - 1);
    }
  }

  lemma DoubleIsNonZero(t: Block)
    requires t != Zeros(16)
    ensures Double(t) != Zeros(16)
  {
    if Double(t) == Zeros(16) {
      DoubleOfZero();
      DoubleIsInjective(t, Zeros(16));
    }
  }

  /** A chain of any length started at a non-zero tweak never reaches the zero tweak. */
  lemma {:induction false} ChainNeverZero(t: Block, j: nat)
    requires t != Zeros(16)
    ensures Power(t, j) != Zeros(16)
  {
    if j > 0 {
      ChainNeverZero(t, j - 1);
      DoubleIsNonZero(Power(t, j - 1));
    }
  }

  // ------------------------------------------------------------------ the two-word form

  /** The bytes of `s` shifted left as one number, `carry` coming in at the bottom. */
  function ShiftedBytes(s: seq<byte>, carry: nat): (r: seq<byte>)
    requires carry < 2
    ensures |r| == |s|
    ensures forall i :: 0 <= i < |s| ==> r[i] == Shifted(s[i], if i == 0 then carry else s[i - 1] / 128)
  {
    if s == [] then [] else [Shifted(s[0], carry)] + ShiftedBytes(s[1..], s[0] / 128)
  }

  lemma {:induction false} ShiftedNumber(s: seq<byte>, carry: nat)
    requires carry < 2
    ensures LeBytes(2 * LeValue(s) + carry, |s|) == ShiftedBytes(s, carry)
  {
    if s != [] {
      var rest := LeValue(s[1..]);
      assert 2 * LeValue(s) + carry == 2 * s[0] + carry + 512 * rest;
      assert (2 * LeValue(s) + carry) / 256 == 2 * rest + s[0] / 128;
      assert (2 * LeValue(s) + carry) % 256 == Shifted(s[0], carry);
      ShiftedNumber(s[1..], s[0] / 128);
    }
  }

  lemma {:induction false} LeBytesTruncate(n: nat, k: nat)
    ensures LeBytes(n % Pow256(k), k) == LeBytes(n, k)
  {
    if k > 0 {
      DigitsOfRemainder(n, Pow256(k - 1));
      LeBytesTruncate(n / 256, k - 1);
    }
  }

  /** The lowest byte of a remainder modulo a multiple of 256, and the rest of it. */
  lemma DigitsOfRemainder(n: nat, p: nat)
    requires p > 0
    ensures n % (256 * p) % 256 == n % 256 && n % (256 * p) / 256 == n / 256 % p
  {
    var q, r := n / (256 * p), n % (256 * p);
    var m := p * q;
    assert n == 256 * m + r;
    RemainderIs(n / 256, p, q, r / 256);
  }

  lemma WordOfEight(s: seq<byte>)
    requires |s| == 8
    ensures LeValue(s) < TWO_64
    ensures LeValue(s) / TWO_63 == s[7] / 128
  {
    assert LeValue(s) == s[0] + 256 * LeValue(s[1..]);
    assert LeValue(s[1..]) == s[1] + 256 * LeValue(s[2..]) by { assert s[1..][1..] == s[2..]; }
    assert LeValue(s[2..]) == s[2] + 256 * LeValue(s[3..]) by { assert s[2..][1..] == s[3..]; }
    assert LeValue(s[3..]) == s[3] + 256 * LeValue(s[4..]) by { assert s[3..][1..] == s[4..]; }
    assert LeValue(s[4..]) == s[4] + 256 * LeValue(s[5..]) by { assert s[4..][1..] == s[5..]; }
    assert LeValue(s[5..]) == s[5] + 256 * LeValue(s[6..]) by { assert s[5..][1..] == s[6..]; }
    assert LeValue(s[6..]) == s[6] + 256 * LeValue(s[7..]) by { assert s[6..][1..] == s[7..]; }
    assert LeValue(s[7..]) == s[7] by { assert s[7..][1..] == []; }
  }

  /** A word shifted left one bit in a 64-bit register, with `carry` or-ed into bit 0: the
      two operands of the program's `|` share no bit, so it is `+`. */
  function ShiftWord(word: nat, carry: nat): nat {
    Wrap64(2 * word) + carry
  }

  lemma ShiftWordIsBytes(s: seq<byte>, carry: nat)
    requires |s| == 8 && carry < 2
    ensures LeBytes(ShiftWord(LeValue(s), carry), |s|) == ShiftedBytes(s, carry)
  {
    var n := LeValue(s);
    WordOfEight(s);
    var k := |s|;
    assert Pow256(8) == TWO_64;
    assert ShiftWord(n, carry) == (2 * n + carry) % TWO_64;
    LeBytesTruncate(2 * n + carry, k);
    ShiftedNumber(s, carry);
  }

  lemma FoldedIsDouble(t: Block, shifted: seq<byte>, folded: seq<byte>)
    requires shifted == ShiftedBytes(t, 0)
    requires folded == if t[15] / 128 == 1 then shifted[0 := XorByte(shifted[0], 0x87)] else shifted
    ensures folded == Double(t)
  {
    assert shifted[0] == Shifted(t[0], 0);
    assert forall i :: 1 <= i < 16 ==> DoubleByte(t, i) == shifted[i];
  }

  lemma {:induction false} ShiftedConcat(a: seq<byte>, b: seq<byte>, carry: nat)
    requires carry < 2 && a != []
    ensures ShiftedBytes(a + b, carry) == ShiftedBytes(a, carry) + ShiftedBytes(b, a[|a| - 1] / 128)
  {
    assert (a + b)[1..] == a[1..] + b;
    if |a| > 1 {
      ShiftedConcat(a[1..], b, a[0] / 128);
    } else {
      assert ShiftedBytes(a, carry) == [Shifted(a[0], carry)];
      assert a[1..] + b == b;
    }
  }

  /** What the program stores back: both words shifted, low word first. */
  function ShiftedWords(low: nat, high: nat, width: nat): (r: seq<byte>)
    ensures |r| == 2 * width
  {
    LeBytes(ShiftWord(low, 0), width) + LeBytes(ShiftWord(high, low / TWO_63), width)
  }

  lemma LoadedWords(t: Block, width: nat)
    requires width == 8
    ensures LeValue(t[8..]) / TWO_63 == t[15] / 128
    ensures ShiftedWords(LeValue(t[..8]), LeValue(t[8..]), width) == ShiftedBytes(t, 0)
  {
    var a, b := t[..8], t[8..];
    WordOfEight(a);
    WordOfEight(b);
    ShiftWordIsBytes(a, 0);
    ShiftWordIsBytes(b, a[7] / 128);
    ShiftedConcat(a, b, 0);
    assert a + b == t;
  }

  /** The program's doubling: load two words, shift them as one 128-bit number, store them,
      and fold the carry back into byte 0. */
  method MultiplyTweak(tweak: array<byte>)
    requires tweak.Length == 16
    modifies tweak
    ensures tweak[..] == Double(old(tweak[..]))
  {
    hide Double, ShiftWord, LeValue, XorBits;
    ghost var t := tweak[..];
    var width := tweak.Length / 2;
    LoadedWords(t, width);
    assert t[..8] == tweak[..8] && t[8..] == tweak[8..];
    var low, high := LeValue(tweak[..8]), LeValue(tweak[8..]);
    var stored := ShiftedWords(low, high, width);
    StoreAll(tweak, stored);
    if (high / TWO_63) % 2 != 0 {
      tweak[0] := XorByte(tweak[0], 0x87);
      assert tweak[..] == stored[0 := XorByte(stored[0], 0x87)];
    }
    FoldedIsDouble(t, stored, tweak[..]);
  }

  method StoreAll(a: array<byte>, d: seq<byte>)
    requires a.Length == |d|
    modifies a
    ensures a[..] == d
  {
    forall k | 0 <= k < |d| {
      a[k] := d[k];
    }
  }
}
