/** Bytes, bytewise exclusive-or and byte strings: the operations every other module shares. */
module Bytes {

  type byte = b: int | 0 <= b < 256

  datatype Option<+T> = None | Some(value: T)

  datatype Result<+T, +E> = Ok(value: T) | Err(error: E)

  const TWO_64: nat := 0x1_0000_0000_0000_0000
  const TWO_63: nat := 0x8000_0000_0000_0000
  const TWO_32: nat := 0x1_0000_0000

  type u16 = n: nat | n < 0x1_0000
  type u32 = n: nat | n < TWO_32
  type u64 = n: nat | n < TWO_64

  /** `u64` arithmetic in a release build wraps. */
  function Wrap64(x: int): (r: nat)
    ensures r < TWO_64
    ensures 0 <= x < TWO_64 ==> r == x
  {
    x % 0x1_0000_0000_0000_0000
  }

  /** A cast to `u32`. */
  function Wrap32(x: nat): (r: nat)
    ensures r < TWO_32
    ensures x < TWO_32 ==> r == x
  {
    x % 0x1_0000_0000
  }

  function Min(a: int, b: int): int {
    if a < b then a else b
  }

  function Max(a: int, b: int): int {
    if a < b then b else a
  }

  // ------------------------------------------------------------------ exclusive-or

  /** Bitwise exclusive-or of two numbers, lowest bit first. */
  function XorBits(a: nat, b: nat): nat {
    if a == 0 && b == 0 then 0 else 2 * XorBits(a / 2, b / 2) + (if a % 2 != b % 2 then 1 else 0)
  }

  function Pow2(k: nat): (m: nat)
    ensures m > 0
  {
    if k == 0 then 1 else 2 * Pow2(k - 1)
  }

  lemma {:induction false} XorBound(a: nat, b: nat, k: nat)
    requires a < Pow2(k) && b < Pow2(k)
    ensures XorBits(a, b) < Pow2(k)
  {
    if k > 0 {
      XorBound(a / 2, b / 2, k - 1);
    }
  }

  function XorByte(a: byte, b: byte): byte {
    assert Pow2(8) == 256;
    XorBound(a, b, 8);
    XorBits(a, b)
  }

  lemma XorSelf(a: nat, b: nat)
    ensures XorBits(XorBits(a, b), b) == a
  {
  }

  lemma XorZero(a: nat)
    ensures XorBits(a, 0) == a
  {
  }

  lemma XorCommutes(a: nat, b: nat)
    ensures XorBits(a, b) == XorBits(b, a)
  {
  }

  /** The lowest bit of an exclusive-or, and the rest. */
  lemma XorParts(a: nat, b: nat)
    ensures XorBits(a, b) / 2 == XorBits(a / 2, b / 2)
    ensures XorBits(a, b) % 2 == if a % 2 != b % 2 then 1 else 0
  {
  }

  lemma {:induction false} XorAssociates(a: nat, b: nat, c: nat)
    ensures XorBits(XorBits(a, b), c) == XorBits(a, XorBits(b, c))
    decreases a + b + c
  {
    if a > 0 || b > 0 || c > 0 {
      XorAssociates(a / 2, b / 2, c / 2);
      hide XorBits;
      XorParts(a, b);
      XorParts(b, c);
      XorParts(XorBits(a, b), c);
      XorParts(a, XorBits(b, c));
    }
  }

  /** Bit `k` of a number. */
  predicate Bit(n: nat, k: nat) {
    if k == 0 then n % 2 == 1 else Bit(n / 2, k - 1)
  }

  lemma {:induction false} XorBit(a: nat, b: nat, k: nat)
    ensures Bit(XorBits(a, b), k) == (Bit(a, k) != Bit(b, k))
  {
    if k > 0 {
      XorBit(a / 2, b / 2, k - 1);
    }
  }

  // ------------------------------------------------------------------ byte strings

  function Zeros(n: nat): (z: seq<byte>)
    ensures |z| == n
    ensures forall i :: 0 <= i < n ==> z[i] == 0
  {
    seq(n, _ => 0)
  }

  function Xor(a: seq<byte>, b: seq<byte>): (r: seq<byte>)
    requires |a| == |b|
    ensures |r| == |a|
    ensures forall i :: 0 <= i < |a| ==> r[i] == XorByte(a[i], b[i])
  {
    seq(|a|, i requires 0 <= i < |a| => XorByte(a[i], b[i]))
  }

  lemma XorCancels(a: seq<byte>, b: seq<byte>)
    requires |a| == |b|
    ensures Xor(Xor(a, b), b) == a
  {
    forall i | 0 <= i < |a|
      ensures XorByte(XorByte(a[i], b[i]), b[i]) == a[i]
    {
      XorSelf(a[i], b[i]);
    }
  }

  lemma XorZeros(a: seq<byte>)
    ensures Xor(a, Zeros(|a|)) == a
  {
    forall i | 0 <= i < |a|
      ensures XorByte(a[i], 0) == a[i]
    {
      XorZero(a[i]);
    }
  }

  lemma XorConcat(a: seq<byte>, b: seq<byte>, c: seq<byte>, d: seq<byte>)
    requires |a| == |c| && |b| == |d|
    ensures Xor(a + b, c + d) == Xor(a, c) + Xor(b, d)
  {
  }

  /** `s` with the bytes from `off` on replaced by `d`. */
  function Splice(s: seq<byte>, off: nat, d: seq<byte>): (r: seq<byte>)
    requires off + |d| <= |s|
    ensures |r| == |s|
  {
    seq(|s|, i requires 0 <= i < |s| => if off <= i < off + |d| then d[i - off] else s[i])
  }

  /** What a splice leaves where: the new bytes in the middle, the old ones around them. */
  lemma SpliceParts(s: seq<byte>, off: nat, d: seq<byte>)
    requires off + |d| <= |s|
    ensures Splice(s, off, d)[off..off + |d|] == d
    ensures Splice(s, off, d)[..off] == s[..off]
    ensures Splice(s, off, d)[off + |d|..] == s[off + |d|..]
  {
  }

  /** A slice on either side of a splice is the old slice. */
  lemma SliceBesideSplice(s: seq<byte>, off: nat, d: seq<byte>, lo: nat, hi: nat)
    requires off + |d| <= |s| && lo <= hi <= |s|
    requires hi <= off || off + |d| <= lo
    ensures Splice(s, off, d)[lo..hi] == s[lo..hi]
  {
  }

  /** Writes `d` into a buffer, from `off` on. */
  method Store(a: array<byte>, off: nat, d: seq<byte>)
    requires off + |d| <= a.Length
    modifies a
    ensures a[..] == Splice(old(a[..]), off, d)
  {
    forall k | 0 <= k < |d| {
      a[off + k] := d[k];
    }
  }

  lemma SpliceNothing(s: seq<byte>, off: nat)
    requires off <= |s|
    ensures Splice(s, off, []) == s
  {
  }

  lemma SpliceAll(s: seq<byte>, d: seq<byte>)
    requires |s| == |d|
    ensures Splice(s, 0, d) == d
  {
  }

  lemma SpliceTwice(s: seq<byte>, off: nat, a: seq<byte>, b: seq<byte>)
    requires off + |a| <= |s| && |a| == |b|
    ensures Splice(Splice(s, off, a), off, b) == Splice(s, off, b)
  {
  }

  lemma SpliceExtends(s: seq<byte>, off: nat, a: seq<byte>, b: seq<byte>)
    requires off + |a| + |b| <= |s|
    ensures Splice(Splice(s, off, a), off + |a|, b) == Splice(s, off, a + b)
  {
  }

  lemma SliceOfSlice(s: seq<byte>, from: nat, to: nat, lo: nat, hi: nat)
    requires from <= to <= |s| && lo <= hi <= to - from
    ensures s[from..to][lo..hi] == s[from + lo..from + hi]
  {
    var x, y := s[from..to][lo..hi], s[from + lo..from + hi];
    assert |x| == |y| && forall i :: 0 <= i < |x| ==> x[i] == y[i];
  }

  lemma SpliceOfThree(x: seq<byte>, y: seq<byte>, z: seq<byte>, d: seq<byte>)
    requires |d| == |y|
    ensures Splice(x + y + z, |x|, d) == x + d + z
  {
  }

  /** A file after a write; a write past the end extends the file, with zeros in any gap. */
  function WriteAt(file: seq<byte>, off: nat, d: seq<byte>): (r: seq<byte>)
    ensures |r| == if d == [] then |file| else Max(|file|, off + |d|)
    ensures off + |d| <= |file| ==> r == Splice(file, off, d)
  {
    if d == [] then
      assert off <= |file| ==> Splice(file, off, d) == file;
      file
    else if off + |d| <= |file| then Splice(file, off, d)
    else if off <= |file| then file[..off] + d
    else file + Zeros(off - |file|) + d
  }

  /** Every byte after a write: the new one, the old one, or zero in a gap. */
  lemma WrittenByte(file: seq<byte>, off: nat, d: seq<byte>, i: nat)
    requires i < |WriteAt(file, off, d)|
    ensures WriteAt(file, off, d)[i]
         == if off <= i < off + |d| then d[i - off] else if i < |file| then file[i] else 0
  {
  }

  // ------------------------------------------------------------------ numbers as bytes

  /** The `k` low bytes of `n`, least significant first. */
  function LeBytes(n: nat, k: nat): (r: seq<byte>)
    ensures |r| == k
  {
    if k == 0 then [] else [n % 256] + LeBytes(n / 256, k - 1)
  }

  function LeValue(s: seq<byte>): nat {
    if s == [] then 0 else s[0] + 256 * LeValue(s[1..])
  }

  /** The `k` low bytes of `n`, most significant first. */
  function BeBytes(n: nat, k: nat): (r: seq<byte>)
    ensures |r| == k
  {
    if k == 0 then [] else BeBytes(n / 256, k - 1) + [n % 256]
  }

  function BeValue(s: seq<byte>): nat {
    if s == [] then 0 else 256 * BeValue(s[..|s| - 1]) + s[|s| - 1]
  }

  function Pow256(k: nat): (m: nat)
    ensures m > 0
  {
    if k == 0 then 1 else 256 * Pow256(k - 1)
  }

  lemma {:induction false} BeRoundTrip(n: nat, k: nat)
    requires n < Pow256(k)
    ensures BeValue(BeBytes(n, k)) == n
  {
    if k > 0 {
      BeRoundTrip(n / 256, k - 1);
      assert BeBytes(n, k)[..k - 1] == BeBytes(n / 256, k - 1);
    }
  }

  lemma {:induction false} BeBytesOfValue(s: seq<byte>)
    ensures BeValue(s) < Pow256(|s|)
    ensures BeBytes(BeValue(s), |s|) == s
  {
    if s != [] {
      var init, last := s[..|s| - 1], s[|s| - 1];
      BeBytesOfValue(init);
      assert BeValue(s) / 256 == BeValue(init) && BeValue(s) % 256 == last;
      assert s == init + [last];
    }
  }
}
