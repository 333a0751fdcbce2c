/**
 The hand-written HMAC (section 2 of RFC 2104) and PBKDF2 (section 5.2 of RFC 8018) over a
 32-byte hash with 64-byte blocks, and why a slice of a long derivation is a short one.
 */
module Pbkdf2 {
  import opened Bytes
  import opened Ciphers
  import opened HeaderCrypto

  const BLOCK_SIZE := 64

  /** The hash itself is not modelled: any function to 32 bytes. */
  type Hash = h: seq<byte> -> seq<byte> | forall s :: |h(s)| == 32 witness (s: seq<byte>) => Zeros(32)

  type Digest = d: seq<byte> | |d| == 32 witness Zeros(32)

  // ------------------------------------------------------------------ HMAC

  /** A key brought to the block size: hashed when longer, then filled up with zeros. */
  function BlockKey(h: Hash, key: seq<byte>): (k: seq<byte>)
    ensures |k| == BLOCK_SIZE
  {
    var short: seq<byte> := if |key| > BLOCK_SIZE then h(key) else key;
    short + Zeros(BLOCK_SIZE - |short|)
  }

  function Pad(k: seq<byte>, b: byte): (r: seq<byte>)
    ensures |r| == |k|
  {
    seq(|k|, i requires 0 <= i < |k| => XorByte(k[i], b))
  }

  function Hmac(h: Hash, key: seq<byte>, text: seq<byte>): Digest {
    var k := BlockKey(h, key);
    h(Pad(k, 0x5C) + h(Pad(k, 0x36) + text))
  }

  method Resize(s: seq<byte>, size: nat) returns (r: seq<byte>)
    ensures r == if |s| <= size then s + Zeros(size - |s|) else s[..size]
  {
    if |s| > size {
      return s[..size];
    }
    r := s + Zeros(size - |s|);
  }

  method HmacBlake2s(h: Hash, key: seq<byte>, data: seq<byte>) returns (mac: Digest)
    ensures mac == Hmac(h, key, data)
  {
    var k := key;
    if |k| > BLOCK_SIZE {
      k := h(key);
    }
    k := Resize(k, BLOCK_SIZE);
    var innerHash := h(Pad(k, 0x36) + data);
    mac := h(Pad(k, 0x5C) + innerHash);
  }

  /** Zero bytes at the end of a key shorter than a block make no difference. */
  lemma TrailingZeros(h: Hash, key: seq<byte>, n: nat, text: seq<byte>)
    requires |key| + n <= BLOCK_SIZE
    ensures Hmac(h, key + Zeros(n), text) == Hmac(h, key, text)
  {
    assert key + Zeros(n) + Zeros(BLOCK_SIZE - |key| - n) == key + Zeros(BLOCK_SIZE - |key|);
  }

  /** A key longer than a block stands for its hash. */
  lemma LongKeys(h: Hash, key: seq<byte>, text: seq<byte>)
    requires |key| > BLOCK_SIZE
    ensures Hmac(h, key, text) == Hmac(h, h(key), text)
  {
  }

  /** The whole construction from the hash alone: `key`, or its hash if it is longer than 64 bytes, filled
      up with zeros to 64 and added to 0x36 goes before the text, and added to 0x5C before the result. */
  lemma HmacWrittenOut(h: Hash, key: seq<byte>, text: seq<byte>, inner: seq<byte>, outer: seq<byte>)
    requires |inner| == |outer| == 64
    requires var short: seq<byte> := if |key| > 64 then h(key) else key;
             forall i :: 0 <= i < 64 ==>
               && inner[i] == XorByte(if i < |short| then short[i] else 0, 0x36)
               && outer[i] == XorByte(if i < |short| then short[i] else 0, 0x5C)
    ensures Hmac(h, key, text) == h(outer + h(inner + text))
  {
    var k := BlockKey(h, key);
    assert Pad(k, 0x36) == inner && Pad(k, 0x5C) == outer;
  }

  /** With a hash that keeps the first 32 bytes, the result is the first half of the filled-up key added to
      0x5C. */
  lemma OuterPadShows(h: Hash, key: seq<byte>, text: seq<byte>, i: nat)
    requires forall s :: |s| >= 32 ==> h(s) == s[..32]
    requires |key| <= 64 && i < 32
    ensures Hmac(h, key, text)[i] == XorByte(if i < |key| then key[i] else 0, 0x5C)
  {
    hide XorByte;
    var outer: seq<byte>, inner: seq<byte> := Pad(BlockKey(h, key), 0x5C), h(Pad(BlockKey(h, key), 0x36) + text);
    assert (outer + inner)[..32] == outer[..32];
  }

  /** With one that keeps the last 32 bytes, and no text, it is the second half added to 0x36. */
  lemma InnerPadShows(h: Hash, key: seq<byte>, i: nat)
    requires forall s :: |s| >= 32 ==> h(s) == s[|s| - 32..]
    requires |key| <= 64 && i < 32
    ensures Hmac(h, key, [])[i] == XorByte(if 32 + i < |key| then key[32 + i] else 0, 0x36)
  {
    hide BlockKey, Pad;
    var k := BlockKey(h, key);
    var outer: seq<byte>, inner: seq<byte> := Pad(k, 0x5C), Pad(k, 0x36);
    assert inner + [] == inner;
    LastKept(h, inner);
    LastKept(h, outer + h(inner));
    EndOf(outer, h(inner));
    PaddedByte(h, key, 0x36, 32 + i);
  }

  lemma LastKept(h: Hash, s: seq<byte>)
    requires |s| >= 32 && forall t :: |t| >= 32 ==> h(t) == t[|t| - 32..]
    ensures h(s) == s[|s| - 32..]
  {
  }

  lemma EndOf(a: seq<byte>, d: seq<byte>)
    requires |d| == 32
    ensures (a + d)[|a + d| - 32..] == d
  {
  }

  lemma PaddedByte(h: Hash, key: seq<byte>, b: byte, i: nat)
    requires |key| <= 64 && i < 64
    ensures Pad(BlockKey(h, key), b)[i] == XorByte(if i < |key| then key[i] else 0, b)
  {
    hide XorByte;
  }

  // ------------------------------------------------------------------ PBKDF2

  /** U_j of block `i`. */
  function U(h: Hash, password: seq<byte>, salt: seq<byte>, i: nat, j: nat): Digest
    requires j > 0
    decreases j
  {
    if j == 1 then Hmac(h, password, salt + BeBytes(i, 4)) else Hmac(h, password, U(h, password, salt, i, j - 1))
  }

  /** U_1 to U_c, added up. */
  function T(h: Hash, password: seq<byte>, salt: seq<byte>, i: nat, c: nat): Digest
    requires c > 0
    decreases c
  {
    if c == 1 then U(h, password, salt, i, 1) else Xor(T(h, password, salt, i, c - 1), U(h, password, salt, i, c))
  }

  /** T_1 to T_l, one after another. */
  function Blocks(h: Hash, password: seq<byte>, salt: seq<byte>, c: nat, l: nat): (r: seq<byte>)
    requires c > 0
    ensures |r| == 32 * l
    decreases l
  {
    if l == 0 then [] else Blocks(h, password, salt, c, l - 1) + T(h, password, salt, l, c)
  }

  function BlockCount(n: nat): nat {
    (n + 32 - 1) / 32
  }

  /** The first `n` bytes of the blocks. */
  function DerivedKey(h: Hash, password: seq<byte>, salt: seq<byte>, c: nat, n: nat): (r: seq<byte>)
    requires c > 0
    ensures |r| == n
  {
    Blocks(h, password, salt, c, BlockCount(n))[..n]
  }

  /** An iteration count of zero runs like one. */
  function Rounds(iterations: u32): (c: nat)
    ensures c >= 1 && (iterations >= 1 ==> c == iterations) && (iterations == 0 ==> c == 1)
  {
    if iterations == 0 then 1 else iterations
  }

  /** Adds `u` into `t`, byte by byte. */
  method AddInto(t: array<byte>, u: Digest)
    requires t.Length == 32
    modifies t
    ensures t[..] == Xor(old(t[..]), u)
  {
    for i := 0 to 32
      invariant forall k :: 0 <= k < i ==> t[k] == XorByte(old(t[k]), u[k])
      invariant forall k :: i <= k < 32 ==> t[k] == old(t[k])
    {
      t[i] := XorByte(t[i], u[i]);
    }
  }

  lemma FirstRound(h: Hash, password: seq<byte>, salt: seq<byte>, i: nat)
    ensures U(h, password, salt, i, 1) == T(h, password, salt, i, 1) == Hmac(h, password, salt + BeBytes(i, 4))
  {
  }

  lemma NextRound(h: Hash, password: seq<byte>, salt: seq<byte>, i: nat, j: nat)
    requires j > 0
    ensures U(h, password, salt, i, j + 1) == Hmac(h, password, U(h, password, salt, i, j))
    ensures T(h, password, salt, i, j + 1) == Xor(T(h, password, salt, i, j), U(h, password, salt, i, j + 1))
  {
  }

  /** One block: the inner loop over the iterations. */
  method BlockInto(h: Hash, password: seq<byte>, salt: seq<byte>, i: nat, iterations: u32, t: array<byte>)
    requires t.Length == 32
    modifies t
    ensures t[..] == T(h, password, salt, i, Rounds(iterations))
  {
    hide Hmac, Xor, U, T, Splice, BeBytes;
    FirstRound(h, password, salt, i);
    var u := HmacBlake2s(h, password, salt + BeBytes(i, 4));
    SpliceAll(t[..], u);
    Store(t, 0, u);
    var j := 1;
    while j < iterations
      invariant 1 <= j <= Rounds(iterations)
      invariant u == U(h, password, salt, i, j)
      invariant t[..] == T(h, password, salt, i, j)
    {
      NextRound(h, password, salt, i, j);
      u := HmacBlake2s(h, password, u);
      AddInto(t, u);
      j := j + 1;
    }
  }

  /** The bytes a derivation reaches: the number of blocks is cast to `u32`. */
  function Reached(n: nat): (r: nat)
    ensures r <= n
    ensures BlockCount(n) < TWO_32 ==> r == n
  {
    Min(n, 32 * Wrap32(BlockCount(n)))
  }

  lemma OneMoreBlock(h: Hash, password: seq<byte>, salt: seq<byte>, c: nat, l: nat)
    requires c > 0
    ensures Blocks(h, password, salt, c, l + 1) == Blocks(h, password, salt, c, l) + T(h, password, salt, l + 1, c)
    ensures Blocks(h, password, salt, c, 0) == []
  {
  }

  /** Block `l + 1` into its place, cut at the end of the output. */
  method PutBlock(h: Hash, password: seq<byte>, salt: seq<byte>, iterations: u32, l: nat, output: array<byte>)
    requires 32 * l < output.Length
    requires output[..32 * l] == Blocks(h, password, salt, Rounds(iterations), l)
    modifies output
    ensures var c, to := Rounds(iterations), Min(32 * l + 32, output.Length);
            output[..to] == Blocks(h, password, salt, c, l + 1)[..to] && output[to..] == old(output[to..])
  {
    hide T, Blocks, Splice, Rounds;
    var t := new byte[32](_ => 0);
    BlockInto(h, password, salt, l + 1, iterations, t);
    var from := 32 * l;
    var to := Min(from + 32, output.Length);
    ghost var before, c := output[..], Rounds(iterations);
    assert before[..from] == Blocks(h, password, salt, c, l);
    Store(output, from, t[..to - from]);
    OneMoreBlock(h, password, salt, c, l);
    PutNext(before, from, t[..], Blocks(h, password, salt, c, l + 1));
    assert t[..][..to - from] == t[..to - from];
    assert output[..to] == output[..][..to] && output[to..] == output[..][to..];
  }

  /** `t`, cut at the end of a buffer, is put after the part of it that is done. */
  lemma PutNext(before: seq<byte>, from: nat, t: seq<byte>, next: seq<byte>)
    requires |t| == 32 && from < |before| && next == before[..from] + t
    ensures var to := Min(from + 32, |before|);
            var after := Splice(before, from, t[..to - from]);
            after[..to] == next[..to] && after[to..] == before[to..]
  {
    hide Splice;
    var to := Min(from + 32, |before|);
    PutInPlace(before, from, t[..to - from]);
    assert next[..to] == before[..from] + t[..to - from];
  }

  lemma PutInPlace(before: seq<byte>, from: nat, block: seq<byte>)
    requires from + |block| <= |before|
    ensures Splice(before, from, block)[..from + |block|] == before[..from] + block
    ensures Splice(before, from, block)[from + |block|..] == before[from + |block|..]
  {
  }

  method Pbkdf2Blake2s(h: Hash, password: seq<byte>, salt: seq<byte>, iterations: u32, output: array<byte>)
    modifies output
    ensures var reached := Reached(output.Length);
            && output[..reached] == DerivedKey(h, password, salt, Rounds(iterations), reached)
            && output[reached..] == old(output[reached..])
  {
    hide T, Blocks, Splice, Rounds;
    ghost var c, start := Rounds(iterations), output[..];
    OneMoreBlock(h, password, salt, c, 0);
    var nBlocks := Wrap32((output.Length + 32 - 1) / 32);
    assert nBlocks == Wrap32(BlockCount(output.Length));
    hide Wrap32, BlockCount, Reached;
    var l := 0;
    while l < nBlocks
      invariant l <= nBlocks
      invariant var done := Min(32 * l, output.Length);
                && output[..done] == Blocks(h, password, salt, c, l)[..done] && output[done..] == start[done..]
    {
      BlockFits(output.Length, l);
      assert Blocks(h, password, salt, c, l)[..32 * l] == Blocks(h, password, salt, c, l);
      PutBlock(h, password, salt, iterations, l, output);
      l := l + 1;
    }
    ReachedBlocks(h, password, salt, c, output.Length);
  }

  /** The block count counts no block that would start past the end. */
  lemma BlockFits(n: nat, l: nat)
    requires l < Wrap32(BlockCount(n))
    ensures 32 * l < n
  {
  }

  lemma ReachedBlocks(h: Hash, password: seq<byte>, salt: seq<byte>, c: nat, n: nat)
    requires c > 0
    ensures var reached, l := Reached(n), Wrap32(BlockCount(n));
            && reached == Min(32 * l, n)
            && Blocks(h, password, salt, c, l)[..reached] == DerivedKey(h, password, salt, c, reached)
  {
    var reached, l := Reached(n), Wrap32(BlockCount(n));
    assert BlockCount(reached) <= l;
    BlocksGrow(h, password, salt, c, BlockCount(reached), l);
  }

  /** A 32-bit number, most significant byte first. */
  predicate IsBlockNumber(b: seq<byte>, i: nat) {
    |b| == 4 && 0x100_0000 * b[0] as int + 0x1_0000 * b[1] as int + 0x100 * b[2] as int + b[3] as int == i
  }

  lemma BlockNumber(b: seq<byte>, i: nat)
    requires IsBlockNumber(b, i)
    ensures BeBytes(i, 4) == b
  {
    hide BeBytes;
    var n0: nat := b[0];
    var n1: nat := 256 * n0 + b[1] as int;
    var n2: nat := 256 * n1 + b[2] as int;
    LastBeByte(n2, b[3], 3);
    LastBeByte(n1, b[2], 2);
    LastBeByte(n0, b[1], 1);
    LastBeByte(0, b[0], 0);
    NoBeBytes();
    assert b == [b[0], b[1], b[2], b[3]];
  }

  lemma LastBeByte(n: nat, low: byte, k: nat)
    ensures BeBytes(256 * n + low as int, k + 1) == BeBytes(n, k) + [low]
  {
    assert (256 * n + low as int) / 256 == n && (256 * n + low as int) % 256 == low;
  }

  lemma NoBeBytes()
    ensures BeBytes(0, 0) == []
  {
  }

  /** Every whole block of a derived key, from HMAC alone: `u` is the chain that starts with the salt and
      the number of the block, counted from one, and `t` its running sums. */
  lemma BlockWrittenOut(h: Hash, password: seq<byte>, salt: seq<byte>, c: nat, n: nat, l: nat, number: seq<byte>,
                        u: seq<Digest>, t: seq<Digest>)
    requires c > 0 && 32 * l + 32 <= n && |u| == |t| == c && IsBlockNumber(number, l + 1)
    requires u[0] == t[0] == Hmac(h, password, salt + number)
    requires forall j :: 0 < j < c ==> u[j] == Hmac(h, password, u[j - 1]) && t[j] == Xor(t[j - 1], u[j])
    ensures DerivedKey(h, password, salt, c, n)[32 * l..32 * l + 32] == t[c - 1]
  {
    hide Blocks, Hmac, T, U;
    BlockNumber(number, l + 1);
    SumsAre(h, password, salt, l + 1, u, t, c - 1);
    BlocksGrow(h, password, salt, c, l + 1, BlockCount(n));
    OneMoreBlock(h, password, salt, c, l);
    LastBlock(Blocks(h, password, salt, c, BlockCount(n)), n, Blocks(h, password, salt, c, l), t[c - 1]);
  }

  lemma LastBlock(all: seq<byte>, n: nat, before: seq<byte>, block: seq<byte>)
    requires |before| + |block| <= n <= |all| && all[..|before| + |block|] == before + block
    ensures all[..n][|before|..|before| + |block|] == block
  {
    assert all[..n][|before|..|before| + |block|] == all[..|before| + |block|][|before|..];
  }

  lemma {:induction false} SumsAre(h: Hash, password: seq<byte>, salt: seq<byte>, i: nat, u: seq<Digest>,
                                   t: seq<Digest>, k: nat)
    requires k < |u| == |t| && u[0] == t[0] == Hmac(h, password, salt + BeBytes(i, 4))
    requires forall j :: 0 < j < |u| ==> u[j] == Hmac(h, password, u[j - 1]) && t[j] == Xor(t[j - 1], u[j])
    ensures U(h, password, salt, i, k + 1) == u[k] && T(h, password, salt, i, k + 1) == t[k]
  {
    hide Hmac;
    if k > 0 {
      SumsAre(h, password, salt, i, u, t, k - 1);
    }
  }

  // ------------------------------------------------------------------ prefixes

  lemma {:induction false} BlocksGrow(h: Hash, password: seq<byte>, salt: seq<byte>, c: nat, l: nat, m: nat)
    requires c > 0 && l <= m
    ensures Blocks(h, password, salt, c, l) == Blocks(h, password, salt, c, m)[..32 * l]
    decreases m
  {
    hide T;
    if l < m {
      BlocksGrow(h, password, salt, c, l, m - 1);
    }
  }

  /** A shorter derivation is a prefix of a longer one. */
  lemma ShorterIsPrefix(h: Hash, password: seq<byte>, salt: seq<byte>, c: nat, m: nat, n: nat)
    requires c > 0 && m <= n
    ensures DerivedKey(h, password, salt, c, m) == DerivedKey(h, password, salt, c, n)[..m]
  {
    BlocksGrow(h, password, salt, c, BlockCount(m), BlockCount(n));
  }

  /** So the part of the 192-byte key that opening slices off for a cipher is the key that
      deriving just as many bytes as that cipher needs would give. */
  lemma SlicedKeyIsDerivedKey(h: Hash, password: seq<byte>, salt: seq<byte>, c: nat, ct: CipherType)
    requires c > 0
    ensures CipherKey(DerivedKey(h, password, salt, c, 192), ct) == DerivedKey(h, password, salt, c, KeySize(ct) * 2)
  {
    ShorterIsPrefix(h, password, salt, c, KeySize(ct) * 2, MAX_HEADER_KEY_SIZE);
  }
}
