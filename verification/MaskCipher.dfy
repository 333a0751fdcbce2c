/**
 A family of lawful suites for which XTS can be computed by hand: the block cipher adds a
 fixed byte to every byte. They witness what goes wrong outside the conditions under which
 the disk theorems hold.
 */
module MaskCipher {
  import opened Bytes
  import opened Ciphers
  import opened Tweak
  import opened Xts
  import opened Cascade
  import opened DataUnits
  import opened SectorIo

  function Mask(v: byte, d: seq<byte>): (r: seq<byte>)
    ensures |r| == |d|
  {
    seq(|d|, i requires 0 <= i < |d| => XorByte(d[i], v))
  }

  function MaskSuite(v: byte): Suite {
    var s := RawSuite((ct: CipherType, key: seq<byte>, b: Block) => Mask(v, b),
                      (ct: CipherType, key: seq<byte>, b: Block) => Mask(v, b));
    assert Lawful(s) by {
      forall b: Block
        ensures Mask(v, Mask(v, b)) == b
      {
        MaskTwice(v, b);
      }
    }
    s
  }

  lemma MaskTwice(v: byte, d: seq<byte>)
    ensures Mask(v, Mask(v, d)) == d
  {
    forall i | 0 <= i < |d|
      ensures XorByte(XorByte(d[i], v), v) == d[i]
    {
      XorSelf(d[i], v);
    }
  }

  lemma MaskConcat(v: byte, a: seq<byte>, b: seq<byte>)
    ensures Mask(v, a + b) == Mask(v, a) + Mask(v, b)
  {
  }

  /** The tweak cancels out. */
  lemma MaskedByte(b: byte, t: byte, v: byte)
    ensures XorByte(XorByte(XorByte(b, t), v), t) == XorByte(b, v)
  {
    XorAssociates(b, t, v);
    XorCommutes(t, v);
    XorAssociates(b, v, t);
    XorSelf(XorBits(b, v), t);
  }

  lemma MaskedBlock(v: byte, tweak: Block, b: Block)
    ensures Xor(Mask(v, Xor(b, tweak)), tweak) == Mask(v, b)
  {
    forall i | 0 <= i < 16
      ensures XorByte(XorByte(XorByte(b[i], tweak[i]), v), tweak[i]) == XorByte(b[i], v)
    {
      MaskedByte(b[i], tweak[i], v);
    }
  }

  lemma {:induction false} MaskFrom(v: byte, x: XtsMode, tweak: Block, data: seq<byte>)
    requires Whole(data)
    ensures EncryptFrom(MaskSuite(v), x, tweak, data) == Mask(v, data)
    ensures DecryptFrom(MaskSuite(v), x, tweak, data) == Mask(v, data)
    decreases |data|
  {
    if data != [] {
      MaskedBlock(v, tweak, data[..16]);
      MaskFrom(v, x, Double(tweak), data[16..]);
      assert data == data[..16] + data[16..];
      MaskConcat(v, data[..16], data[16..]);
    }
  }

  /** The keys under which the witnesses run do not matter. */
  const ANY_MODE := XtsMode(Aes, Zeros(32), Zeros(32))

  lemma MaskOneUnit(v: byte, n: nat, d: seq<byte>, encrypt: bool)
    requires |d| == 512
    ensures OneUnit(KernelUnits(MaskSuite(v), Single(ANY_MODE)), n, d, encrypt) == Mask(v, d)
  {
    OnePass(MaskSuite(v), ANY_MODE, n, d);
    MaskFrom(v, ANY_MODE, FirstTweak(MaskSuite(v), ANY_MODE, n), d);
    UnitIsPasses(MaskSuite(v), [ANY_MODE], n, d, encrypt);
  }

  /** On a run of units the masked disk cipher is the mask. */
  lemma {:induction false} MaskUnits(v: byte, first: nat, data: seq<byte>, encrypt: bool)
    requires |data| % 512 == 0
    ensures Units(KernelUnits(MaskSuite(v), Single(ANY_MODE)), first, data, encrypt) == Mask(v, data)
    decreases |data|
  {
    hide KernelUnits, MaskSuite;
    if data != [] {
      MaskOneUnit(v, first, data[..512], encrypt);
      MaskUnits(v, first + 1, data[512..], encrypt);
      assert data == data[..512] + data[512..];
      MaskConcat(v, data[..512], data[512..]);
    }
  }
}
