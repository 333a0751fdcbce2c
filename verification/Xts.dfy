/**
 XTS mode (sections 5.3 and 5.4 of IEEE Std 1619-2007): the per-block definition, the batch
 form the program runs on a buffer in place, and the proof that they are the same function
 and that decryption undoes encryption.
 */
module Xts {
  import opened Bytes
  import opened Ciphers
  import opened Tweak

  /** One cipher with its data key and its tweak key. */
  datatype XtsMode = XtsMode(ct: CipherType, dataKey: seq<byte>, tweakKey: seq<byte>)

  /** Splits a key into its halves; `ct` is one of the single ciphers, all with 32-byte keys. */
  function NewXts(ct: CipherType, key: seq<byte>): (r: Result<XtsMode, CryptoError>)
    requires IsSingle(ct)
    ensures r.Ok? <==> |key| == 64
    ensures r.Ok? ==> r.value.ct == ct && r.value.dataKey + r.value.tweakKey == key && |r.value.dataKey| == 32
  {
    if |key| != 64 then Err(InvalidKeySize(64, |key|)) else Ok(XtsMode(ct, key[..32], key[32..]))
  }

  // ------------------------------------------------------------------ the definition, block by block

  /** The sector number as a block, least significant byte first, encrypted with the tweak key. */
  function FirstTweak(s: Suite, x: XtsMode, sector: nat): Block {
    s.encrypt(x.ct, x.tweakKey, LeBytes(sector, 8) + Zeros(8))
  }

  function EncryptBlock(s: Suite, x: XtsMode, tweak: Block, b: Block): Block {
    Xor(s.encrypt(x.ct, x.dataKey, Xor(b, tweak)), tweak)
  }

  function DecryptBlock(s: Suite, x: XtsMode, tweak: Block, b: Block): Block {
    Xor(s.decrypt(x.ct, x.dataKey, Xor(b, tweak)), tweak)
  }

  predicate Whole(data: seq<byte>) {
    |data| % 16 == 0
  }

  /** Encrypts consecutive blocks, the tweak doubling from one to the next. */
  function EncryptFrom(s: Suite, x: XtsMode, tweak: Block, data: seq<byte>): (r: seq<byte>)
    requires Whole(data)
    ensures |r| == |data|
    decreases |data|
  {
    if data == [] then [] else EncryptBlock(s, x, tweak, data[..16]) + EncryptFrom(s, x, Double(tweak), data[16..])
  }

  function DecryptFrom(s: Suite, x: XtsMode, tweak: Block, data: seq<byte>): (r: seq<byte>)
    requires Whole(data)
    ensures |r| == |data|
    decreases |data|
  {
    if data == [] then [] else DecryptBlock(s, x, tweak, data[..16]) + DecryptFrom(s, x, Double(tweak), data[16..])
  }

  function Encrypted(s: Suite, x: XtsMode, sector: nat, data: seq<byte>): (r: seq<byte>)
    requires Whole(data)
    ensures |r| == |data|
  {
    EncryptFrom(s, x, FirstTweak(s, x, sector), data)
  }

  function Decrypted(s: Suite, x: XtsMode, sector: nat, data: seq<byte>): (r: seq<byte>)
    requires Whole(data)
    ensures |r| == |data|
  {
    DecryptFrom(s, x, FirstTweak(s, x, sector), data)
  }

  /** Block `j` of the result depends on block `j` of the data only, under the tweak
      alpha^j * E(sector). */
  lemma {:induction false} EncryptFromAt(s: Suite, x: XtsMode, tweak: Block, data: seq<byte>, j: nat)
    requires Whole(data) && 16 * j < |data|
    ensures EncryptFrom(s, x, tweak, data)[16 * j..16 * j + 16]
         == EncryptBlock(s, x, Power(tweak, j), data[16 * j..16 * j + 16])
    decreases j
  {
    var first: seq<byte>, rest := EncryptBlock(s, x, tweak, data[..16]), EncryptFrom(s, x, Double(tweak), data[16..]);
    if j > 0 {
      EncryptFromAt(s, x, Double(tweak), data[16..], j - 1);
      PowerShift(tweak, j - 1);
      assert data[16..][16 * (j - 1)..16 * (j - 1) + 16] == data[16 * j..16 * j + 16];
      assert (first + rest)[16 * j..16 * j + 16] == rest[16 * (j - 1)..16 * (j - 1) + 16];
    }
  }

  lemma DecryptBlockInverts(s: Suite, x: XtsMode, tweak: Block, b: Block)
    ensures DecryptBlock(s, x, tweak, EncryptBlock(s, x, tweak, b)) == b
  {
    var inner: Block := Xor(b, tweak);
    XorCancels(s.encrypt(x.ct, x.dataKey, inner), tweak);
    XorCancels(b, tweak);
  }

  lemma {:induction false} DecryptFromInverts(s: Suite, x: XtsMode, tweak: Block, data: seq<byte>)
    requires Whole(data)
    ensures DecryptFrom(s, x, tweak, EncryptFrom(s, x, tweak, data)) == data
    decreases |data|
  {
    if data != [] {
      var first: seq<byte>, rest := EncryptBlock(s, x, tweak, data[..16]), EncryptFrom(s, x, Double(tweak), data[16..]);
      DecryptBlockInverts(s, x, tweak, data[..16]);
      DecryptFromInverts(s, x, Double(tweak), data[16..]);
      assert (first + rest)[..16] == first && (first + rest)[16..] == rest;
    }
  }

  /** Decryption undoes encryption for every key, sector number and whole number of blocks. */
  lemma DecryptInverts(s: Suite, x: XtsMode, sector: nat, data: seq<byte>)
    requires Whole(data)
    ensures Decrypted(s, x, sector, Encrypted(s, x, sector, data)) == data
  {
    DecryptFromInverts(s, x, FirstTweak(s, x, sector), data);
  }

  // ------------------------------------------------------------------ written out

  /** A sector number as the bytes of a block, least significant first. */
  predicate IsNumber(b: Block, sector: nat) {
    && b[0] as int + 0x100 * b[1] as int + 0x1_0000 * b[2] as int + 0x100_0000 * b[3] as int
       + 0x1_0000_0000 * b[4] as int + 0x100_0000_0000 * b[5] as int + 0x1_0000_0000_0000 * b[6] as int
       + 0x100_0000_0000_0000 * b[7] as int == sector
    && b[8..] == [0, 0, 0, 0, 0, 0, 0, 0]
  }

  lemma NumberBlock(b: Block, sector: nat)
    requires IsNumber(b, sector)
    ensures LeBytes(sector, 8) + Zeros(8) == b
  {
    hide LeBytes;
    var n7: nat := b[7];
    var n6: nat := b[6] as nat + 256 * n7;
    var n5: nat := b[5] as nat + 256 * n6;
    var n4: nat := b[4] as nat + 256 * n5;
    var n3: nat := b[3] as nat + 256 * n4;
    var n2: nat := b[2] as nat + 256 * n3;
    var n1: nat := b[1] as nat + 256 * n2;
    assert sector == b[0] as nat + 256 * n1;
    OneMoreLeByte(b[0], n1, 7);
    OneMoreLeByte(b[1], n2, 6);
    OneMoreLeByte(b[2], n3, 5);
    OneMoreLeByte(b[3], n4, 4);
    OneMoreLeByte(b[4], n5, 3);
    OneMoreLeByte(b[5], n6, 2);
    OneMoreLeByte(b[6], n7, 1);
    OneMoreLeByte(b[7], 0, 0);
    NoLeBytes();
    assert b == b[..8] + b[8..];
  }

  lemma OneMoreLeByte(low: byte, rest: nat, k: nat)
    ensures LeBytes(low as nat + 256 * rest, k + 1) == [low] + LeBytes(rest, k)
  {
    LowDigit(low, rest);
  }

  lemma LowDigit(low: byte, rest: nat)
    ensures (low as nat + 256 * rest) % 256 == low && (low as nat + 256 * rest) / 256 == rest
  {
  }

  lemma NoLeBytes()
    ensures LeBytes(0, 0) == []
  {
  }

  lemma {:induction false} DecryptFromAt(s: Suite, x: XtsMode, tweak: Block, data: seq<byte>, j: nat)
    requires Whole(data) && 16 * j < |data|
    ensures DecryptFrom(s, x, tweak, data)[16 * j..16 * j + 16]
         == DecryptBlock(s, x, Power(tweak, j), data[16 * j..16 * j + 16])
    decreases j
  {
    hide DecryptBlock, Double;
    var first: seq<byte>, rest := DecryptBlock(s, x, tweak, data[..16]), DecryptFrom(s, x, Double(tweak), data[16..]);
    if j > 0 {
      DecryptFromAt(s, x, Double(tweak), data[16..], j - 1);
      PowerShift(tweak, j - 1);
      assert data[16..][16 * (j - 1)..16 * (j - 1) + 16] == data[16 * j..16 * j + 16];
      assert (first + rest)[16 * j..16 * j + 16] == rest[16 * (j - 1)..16 * (j - 1) + 16];
    }
  }

  /** Every block of a result, from the block cipher alone: the tweak is the sector number encrypted under
      the tweak key and doubled once for each block before; it masks the block before and after the
      cipher, which works under the data key. */
  lemma BlockWrittenOut(s: Suite, x: XtsMode, sector: nat, number: Block, data: seq<byte>, j: nat, encrypt: bool)
    requires Whole(data) && 16 * j < |data| && IsNumber(number, sector)
    ensures var start := s.encrypt(x.ct, x.tweakKey, number);
            var t, b: Block := Power(start, j), data[16 * j..16 * j + 16];
            && Processed(s, x, sector, data, encrypt)[16 * j..16 * j + 16]
               == Xor(if encrypt then s.encrypt(x.ct, x.dataKey, Xor(b, t))
                      else s.decrypt(x.ct, x.dataKey, Xor(b, t)),
                      t)
            && Power(start, 0) == start && Power(start, j + 1) == Double(t)
  {
    hide Double;
    NumberBlock(number, sector);
    var start := FirstTweak(s, x, sector);
    if encrypt {
      EncryptFromAt(s, x, start, data, j);
    } else {
      DecryptFromAt(s, x, start, data, j);
    }
  }

  // ------------------------------------------------------------------ the batch form

  /** `n` tweaks in a row. */
  function TweakRun(tweak: Block, n: nat): (r: seq<byte>)
    ensures |r| == 16 * n
    decreases n
  {
    if n == 0 then [] else tweak + TweakRun(Double(tweak), n - 1)
  }

  lemma {:induction false} TweakRunExtends(tweak: Block, n: nat)
    ensures TweakRun(tweak, n + 1) == TweakRun(tweak, n) + Power(tweak, n)
    decreases n
  {
    if n > 0 {
      TweakRunExtends(Double(tweak), n - 1);
      PowerShift(tweak, n - 1);
      assert TweakRun(tweak, n + 1) == tweak + (TweakRun(Double(tweak), n - 1) + Power(Double(tweak), n - 1));
    }
  }

  /** Every block on its own, with the data key. */
  function EachBlock(s: Suite, x: XtsMode, data: seq<byte>, encrypt: bool): (r: seq<byte>)
    requires Whole(data)
    ensures |r| == |data|
    decreases |data|
  {
    if data == [] then [] else OneBlock(s, x, data[..16], encrypt) + EachBlock(s, x, data[16..], encrypt)
  }

  function OneBlock(s: Suite, x: XtsMode, b: Block, encrypt: bool): Block {
    if encrypt then s.encrypt(x.ct, x.dataKey, b) else s.decrypt(x.ct, x.dataKey, b)
  }

  lemma {:induction false} EachBlockConcat(s: Suite, x: XtsMode, a: seq<byte>, b: seq<byte>, encrypt: bool)
    requires Whole(a) && Whole(b)
    ensures EachBlock(s, x, a + b, encrypt) == EachBlock(s, x, a, encrypt) + EachBlock(s, x, b, encrypt)
    decreases |a|
  {
    if a == [] {
      assert a + b == b;
    } else {
      assert (a + b)[..16] == a[..16] && (a + b)[16..] == a[16..] + b;
      EachBlockConcat(s, x, a[16..], b, encrypt);
    }
  }

  function Processed(s: Suite, x: XtsMode, sector: nat, data: seq<byte>, encrypt: bool): (r: seq<byte>)
    requires Whole(data)
    ensures |r| == |data|
  {
    if encrypt then Encrypted(s, x, sector, data) else Decrypted(s, x, sector, data)
  }

  /** The three passes over the whole buffer. */
  function Batch(s: Suite, x: XtsMode, tweak: Block, data: seq<byte>, encrypt: bool): (r: seq<byte>)
    requires Whole(data)
    ensures |r| == |data|
  {
    var run := TweakRun(tweak, |data| / 16);
    Masked(s, x, data, run, encrypt)
  }

  function Masked(s: Suite, x: XtsMode, data: seq<byte>, run: seq<byte>, encrypt: bool): (r: seq<byte>)
    requires Whole(data) && |run| == |data|
    ensures |r| == |data|
  {
    Xor(EachBlock(s, x, Xor(data, run), encrypt), run)
  }

  /** Masking everything with all the tweaks, running the cipher over everything and masking
      everything again is the block-by-block definition. */
  lemma {:induction false} BatchIsXts(s: Suite, x: XtsMode, tweak: Block, data: seq<byte>, encrypt: bool)
    requires Whole(data)
    ensures Batch(s, x, tweak, data, encrypt)
         == if encrypt then EncryptFrom(s, x, tweak, data) else DecryptFrom(s, x, tweak, data)
    decreases |data|
  {
    if data != [] {
      var rest := data[16..];
      var run := TweakRun(Double(tweak), |rest| / 16);
      assert TweakRun(tweak, |data| / 16) == tweak + run;
      assert data == data[..16] + rest;
      XorConcat(data[..16], rest, tweak, run);
      var masked: Block := Xor(data[..16], tweak);
      assert Xor(data, tweak + run) == masked + Xor(rest, run);
      assert (masked + Xor(rest, run))[..16] == masked && (masked + Xor(rest, run))[16..] == Xor(rest, run);
      var middle := EachBlock(s, x, Xor(rest, run), encrypt);
      XorConcat(OneBlock(s, x, masked, encrypt), middle, tweak, run);
      BatchIsXts(s, x, Double(tweak), rest, encrypt);
    }
  }

  /** Fills `tweaks` with the tweaks of `nBlocks` blocks; the rest of the buffer is untouched. */
  method PrecomputeTweaksInto(s: Suite, x: XtsMode, sector: nat, nBlocks: nat, tweaks: array<byte>)
    requires tweaks.Length >= nBlocks * 16
    modifies tweaks
    ensures tweaks[..] == Splice(old(tweaks[..]), 0, TweakRun(FirstTweak(s, x, sector), nBlocks))
  {
    hide FirstTweak, Double, Splice;
    ghost var was := tweaks[..];
    SpliceNothing(was, 0);
    ghost var first := FirstTweak(s, x, sector);
    var start := FirstTweak(s, x, sector);
    var t := new byte[16](i requires 0 <= i < 16 => start[i]);
    assert t[..] == start;
    for i := 0 to nBlocks
      invariant t[..] == Power(first, i)
      invariant tweaks[..] == Splice(was, 0, TweakRun(first, i))
    {
      SpliceExtends(was, 0, TweakRun(first, i), Power(first, i));
      TweakRunExtends(first, i);
      Store(tweaks, i * 16, t[..]);
      MultiplyTweak(t);
    }
  }

  /** Masks `nBlocks` blocks of `data`, from `lo` on, with the tweaks, sixteen bytes at a time. */
  method BatchXorBlocks(data: array<byte>, lo: nat, tweaks: array<byte>, nBlocks: nat)
    requires lo + nBlocks * 16 <= data.Length && nBlocks * 16 <= tweaks.Length && data != tweaks
    modifies data
    ensures data[..] == Splice(old(data[..]), lo, Xor(old(data[lo..lo + nBlocks * 16]), tweaks[..nBlocks * 16]))
  {
    for i := 0 to nBlocks
      invariant forall k :: 0 <= k < i * 16 ==> data[lo + k] == XorByte(old(data[lo + k]), tweaks[k])
      invariant forall k :: 0 <= k < lo || lo + i * 16 <= k < data.Length ==> data[k] == old(data[k])
    {
      var off := i * 16;
      forall k | off <= k < off + 16 {
        data[lo + k] := XorByte(data[lo + k], tweaks[k]);
      }
    }
  }

  lemma EachBlockExtends(s: Suite, x: XtsMode, data: seq<byte>, n: nat, encrypt: bool)
    requires n % 16 == 0 && n + 16 <= |data|
    ensures EachBlock(s, x, data[..n + 16], encrypt)
         == EachBlock(s, x, data[..n], encrypt) + OneBlock(s, x, data[n..n + 16], encrypt)
  {
    var next := data[n..n + 16];
    assert data[..n + 16] == data[..n] + next;
    EachBlockConcat(s, x, data[..n], next, encrypt);
    assert next[..16] == next && next[16..] == [];
  }

  /** One turn of the loop below: with `n` bytes done, the next block is still as it was, and
      storing its image leaves `n + 16` bytes done. */
  lemma CipherStep(s: Suite, x: XtsMode, start: seq<byte>, lo: nat, hi: nat, n: nat, encrypt: bool)
    requires lo + n + 16 <= hi <= |start| && n % 16 == 0
    ensures var input := start[lo..hi];
            var now := Splice(start, lo, EachBlock(s, x, input[..n], encrypt));
            var chunk := now[lo + n..lo + n + 16];
            Splice(now, lo + n, OneBlock(s, x, chunk, encrypt))
            == Splice(start, lo, EachBlock(s, x, input[..n + 16], encrypt))
  {
    var input := start[lo..hi];
    var done := EachBlock(s, x, input[..n], encrypt);
    var next := input[n..n + 16];
    SliceBesideSplice(start, lo, done, lo + n, lo + n + 16);
    SliceOfSlice(start, lo, hi, n, n + 16);
    EachBlockExtends(s, x, input, n, encrypt);
    SpliceExtends(start, lo, done, OneBlock(s, x, next, encrypt));
  }

  /** Runs the block cipher over `data[lo..hi]`, one block at a time. */
  method CipherBlocks(s: Suite, x: XtsMode, data: array<byte>, lo: nat, hi: nat, encrypt: bool)
    requires lo <= hi <= data.Length && (hi - lo) % 16 == 0
    modifies data
    ensures data[..] == Splice(old(data[..]), lo, EachBlock(s, x, old(data[lo..hi]), encrypt))
  {
    ghost var start := data[..];
    ghost var input := data[lo..hi];
    var n := 0;
    while n < hi - lo
      invariant n <= hi - lo && n % 16 == 0
      invariant data[..] == Splice(start, lo, EachBlock(s, x, input[..n], encrypt))
    {
      CipherStep(s, x, start, lo, hi, n, encrypt);
      var chunk := data[lo + n..lo + n + 16];
      Store(data, lo + n, OneBlock(s, x, chunk, encrypt));
      n := n + 16;
    }
    assert input[..n] == input;
  }

  /** The length check of every entry point: a non-zero multiple of the block size. */
  function ValidateDataLength(length: nat): (r: Result<(), CryptoError>)
    ensures r.Ok? <==> length >= 16 && length % 16 == 0
    ensures r.Err? ==> r.error == if length < 16 then InvalidBlockSize(16, length) else InvalidDataLength(length)
  {
    if length < 16 then Err(InvalidBlockSize(16, length))
    else if length % 16 != 0 then Err(InvalidDataLength(length))
    else Ok(())
  }

  /** Replacing a masked stretch by its image leaves the image there. */
  lemma CipherBlocksAfter(s: Suite, x: XtsMode, start: seq<byte>, lo: nat, masked: seq<byte>, encrypt: bool)
    requires Whole(masked) && lo + |masked| <= |start|
    ensures var image := EachBlock(s, x, masked, encrypt);
            && Splice(start, lo, masked)[lo..lo + |masked|] == masked
            && Splice(Splice(start, lo, masked), lo, image) == Splice(start, lo, image)
            && Splice(start, lo, image)[lo..lo + |masked|] == image
  {
    var image := EachBlock(s, x, masked, encrypt);
    SpliceParts(start, lo, masked);
    SpliceTwice(start, lo, masked, image);
    SpliceParts(start, lo, image);
  }

  /** The three passes over `data[lo..hi]`, with the tweaks already laid out. */
  method MaskCipherMask(s: Suite, x: XtsMode, data: array<byte>, lo: nat, hi: nat, encrypt: bool, tweaks: array<byte>)
    requires lo <= hi <= data.Length && (hi - lo) % 16 == 0
    requires data != tweaks && tweaks.Length >= hi - lo
    modifies data
    ensures data[..] == Splice(old(data[..]), lo, Masked(s, x, old(data[lo..hi]), tweaks[..hi - lo], encrypt))
  {
    hide EachBlock, Splice, Xor;
    ghost var start, input, run := data[..], data[lo..hi], tweaks[..hi - lo];
    var nBlocks := (hi - lo) / 16;
    assert nBlocks * 16 == hi - lo;
    BatchXorBlocks(data, lo, tweaks, nBlocks);
    CipherBlocksAfter(s, x, start, lo, Xor(input, run), encrypt);
    CipherBlocks(s, x, data, lo, hi, encrypt);
    BatchXorBlocks(data, lo, tweaks, nBlocks);
    ghost var image := EachBlock(s, x, Xor(input, run), encrypt);
    SpliceTwice(start, lo, image, Xor(image, run));
  }

  /** The work shared by every entry point, on a buffer of tweaks that is large enough. */
  method Run(s: Suite, x: XtsMode, sector: nat, data: array<byte>, lo: nat, hi: nat, encrypt: bool, tweaks: array<byte>)
    requires lo <= hi <= data.Length && (hi - lo) % 16 == 0
    requires data != tweaks && tweaks.Length >= hi - lo
    modifies data, tweaks
    ensures data[..] == Splice(old(data[..]), lo, Processed(s, x, sector, old(data[lo..hi]), encrypt))
  {
    ghost var first := FirstTweak(s, x, sector);
    var nBlocks := (hi - lo) / 16;
    SpliceParts(tweaks[..], 0, TweakRun(first, nBlocks));
    BatchIsXts(s, x, first, data[lo..hi], encrypt);
    PrecomputeTweaksInto(s, x, sector, nBlocks, tweaks);
    assert tweaks[..hi - lo] == TweakRun(first, nBlocks);
    MaskCipherMask(s, x, data, lo, hi, encrypt, tweaks);
  }

  /** `encrypt` and `decrypt`: any length, tweaks in a buffer of their own on the heap. */
  method Crypt(s: Suite, x: XtsMode, sector: nat, data: array<byte>, lo: nat, hi: nat, encrypt: bool)
    returns (r: Result<(), CryptoError>)
    requires lo <= hi <= data.Length
    modifies data
    ensures r == ValidateDataLength(hi - lo)
    ensures r.Ok? ==> data[..] == Splice(old(data[..]), lo, Processed(s, x, sector, old(data[lo..hi]), encrypt))
    ensures r.Err? ==> data[..] == old(data[..])
  {
    r := ValidateDataLength(hi - lo);
    if r.Ok? {
      var tweaks := new byte[hi - lo](_ => 0);
      Run(s, x, sector, data, lo, hi, encrypt, tweaks);
    }
  }

  /** `process_sector`: exactly 512 bytes, tweaks in a fixed 512-byte buffer. */
  method ProcessSector(s: Suite, x: XtsMode, sector: nat, data: array<byte>, lo: nat, encrypt: bool)
    requires lo + 512 <= data.Length
    modifies data
    ensures data[..] == Splice(old(data[..]), lo, Processed(s, x, sector, old(data[lo..lo + 512]), encrypt))
  {
    var tweaks := new byte[512](_ => 0);
    Run(s, x, sector, data, lo, lo + 512, encrypt, tweaks);
  }

  /** `process_arbitrary`: any length, tweaks in a buffer of the caller's, refused when short. */
  method ProcessArbitrary(s: Suite, x: XtsMode, sector: nat, data: array<byte>, lo: nat, hi: nat, encrypt: bool,
                          tweaks: array<byte>)
    returns (r: Result<(), CryptoError>)
    requires lo <= hi <= data.Length && data != tweaks
    modifies data, tweaks
    ensures r.Ok? <==> ValidateDataLength(hi - lo).Ok? && tweaks.Length >= hi - lo
    ensures r.Ok? ==> data[..] == Splice(old(data[..]), lo, Processed(s, x, sector, old(data[lo..hi]), encrypt))
    ensures r.Err? ==> data[..] == old(data[..]) && tweaks[..] == old(tweaks[..])
  {
    r := ValidateDataLength(hi - lo);
    if r.Ok? {
      if tweaks.Length < hi - lo {
        r := Err(InvalidDataLength(tweaks.Length));
      } else {
        Run(s, x, sector, data, lo, hi, encrypt, tweaks);
      }
    }
  }
}
