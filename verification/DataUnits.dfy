/**
 Ciphers on numbered 512-byte data units, seen from outside: two functions that keep the
 length of a unit, the second undoing the first. Everything the disk proofs need to know
 about XTS and cascades is this.
 */
module DataUnits {
  import opened Bytes
  import opened Ciphers
  import opened Xts
  import opened Cascade

  datatype RawUnitCipher = RawUnitCipher(
    encrypt: (nat, seq<byte>) -> seq<byte>,
    decrypt: (nat, seq<byte>) -> seq<byte>)

  ghost predicate LawfulUnits(c: RawUnitCipher) {
    && (forall n, d :: |d| == 512 ==> |c.encrypt(n, d)| == 512)
    && (forall n, d :: |d| == 512 ==> |c.decrypt(n, d)| == 512)
    && (forall n, d :: |d| == 512 ==> c.decrypt(n, c.encrypt(n, d)) == d)
  }

  type UnitCipher = c: RawUnitCipher | LawfulUnits(c)
    witness RawUnitCipher((n: nat, d: seq<byte>) => d, (n: nat, d: seq<byte>) => d)

  function OneUnit(c: UnitCipher, n: nat, d: seq<byte>, encrypt: bool): (r: seq<byte>)
    requires |d| == 512
    ensures |r| == 512
  {
    if encrypt then c.encrypt(n, d) else c.decrypt(n, d)
  }

  /** Consecutive units, numbered from `first` on. */
  function Units(c: UnitCipher, first: nat, data: seq<byte>, encrypt: bool): (r: seq<byte>)
    requires |data| % 512 == 0
    ensures |r| == |data|
    decreases |data|
  {
    if data == [] then []
    else OneUnit(c, first, data[..512], encrypt) + Units(c, first + 1, data[512..], encrypt)
  }

  lemma {:induction false} UnitsConcat(c: UnitCipher, first: nat, a: seq<byte>, b: seq<byte>, encrypt: bool)
    requires |a| % 512 == 0 && |b| % 512 == 0
    ensures Units(c, first, a + b, encrypt) == Units(c, first, a, encrypt) + Units(c, first + |a| / 512, b, encrypt)
    decreases |a|
  {
    if a == [] {
      assert a + b == b;
    } else {
      assert (a + b)[..512] == a[..512] && (a + b)[512..] == a[512..] + b;
      UnitsConcat(c, first + 1, a[512..], b, encrypt);
      assert |a[512..]| / 512 + 1 == |a| / 512;
    }
  }

  lemma {:induction false} UnitsRoundTrip(c: UnitCipher, first: nat, data: seq<byte>)
    requires |data| % 512 == 0
    ensures Units(c, first, Units(c, first, data, true), false) == data
    decreases |data|
  {
    if data != [] {
      var head, rest := OneUnit(c, first, data[..512], true), Units(c, first + 1, data[512..], true);
      assert (head + rest)[..512] == head && (head + rest)[512..] == rest;
      UnitsRoundTrip(c, first + 1, data[512..]);
    }
  }

  lemma UnitsThree(c: UnitCipher, first: nat, x: seq<byte>, y: seq<byte>, z: seq<byte>, encrypt: bool)
    requires |x| % 512 == 0 && |y| % 512 == 0 && |z| % 512 == 0
    ensures Units(c, first, x + y + z, encrypt)
         == Units(c, first, x, encrypt) + Units(c, first + |x| / 512, y, encrypt)
            + Units(c, first + (|x| + |y|) / 512, z, encrypt)
  {
    UnitsConcat(c, first, x, y, encrypt);
    UnitsConcat(c, first, x + y, z, encrypt);
  }

  /** The result on a stretch of whole units depends on that stretch only. */
  lemma UnitsSlice(c: UnitCipher, first: nat, data: seq<byte>, lo: nat, hi: nat, encrypt: bool)
    requires |data| % 512 == 0 && lo % 512 == 0 && hi % 512 == 0 && lo <= hi <= |data|
    ensures (hi - lo) % 512 == 0
    ensures Units(c, first, data, encrypt)[lo..hi] == Units(c, first + lo / 512, data[lo..hi], encrypt)
  {
    hide Units;
    assert data == data[..lo] + data[lo..hi] + data[hi..];
    UnitsThree(c, first, data[..lo], data[lo..hi], data[hi..], encrypt);
  }

  /** Replacing a stretch of whole units replaces the same stretch of the result. */
  lemma UnitsSplice(c: UnitCipher, first: nat, data: seq<byte>, lo: nat, d: seq<byte>, encrypt: bool)
    requires |data| % 512 == 0 && lo % 512 == 0 && |d| % 512 == 0 && lo + |d| <= |data|
    ensures Units(c, first, Splice(data, lo, d), encrypt)
         == Splice(Units(c, first, data, encrypt), lo, Units(c, first + lo / 512, d, encrypt))
  {
    var x, y, z := data[..lo], data[lo..lo + |d|], data[lo + |d|..];
    assert data == x + y + z;
    UnitsMiddle(c, first, x, y, z, d, encrypt);
  }

  lemma UnitsMiddle(c: UnitCipher, first: nat, x: seq<byte>, y: seq<byte>, z: seq<byte>, d: seq<byte>, encrypt: bool)
    requires |x| % 512 == 0 && |y| % 512 == 0 && |z| % 512 == 0 && |d| == |y|
    ensures Units(c, first, Splice(x + y + z, |x|, d), encrypt)
         == Splice(Units(c, first, x + y + z, encrypt), |x|, Units(c, first + |x| / 512, d, encrypt))
  {
    hide Units, Splice;
    SpliceOfThree(x, y, z, d);
    SpliceOfThree(Units(c, first, x, encrypt), Units(c, first + |x| / 512, y, encrypt),
                  Units(c, first + (|x| + |y|) / 512, z, encrypt), Units(c, first + |x| / 512, d, encrypt));
    UnitsThree(c, first, x, y, z, encrypt);
    UnitsThree(c, first, x, d, z, encrypt);
  }

  lemma UnitStep(c: UnitCipher, first: nat, start: seq<byte>, n: nat, encrypt: bool)
    requires n * 512 + 512 <= |start|
    ensures var now := Splice(start, 0, Units(c, first, start[..n * 512], encrypt));
            Splice(now, n * 512, OneUnit(c, first + n, now[n * 512..n * 512 + 512], encrypt))
            == Splice(start, 0, Units(c, first, start[..n * 512 + 512], encrypt))
  {
    var done, next := Units(c, first, start[..n * 512], encrypt), start[n * 512..n * 512 + 512];
    SliceBesideSplice(start, 0, done, n * 512, n * 512 + 512);
    assert start[..n * 512 + 512] == start[..n * 512] + next;
    UnitsConcat(c, first, start[..n * 512], next, encrypt);
    assert next[..512] == next && next[512..] == [];
    SpliceExtends(start, 0, done, OneUnit(c, first + n, next, encrypt));
  }

  // ------------------------------------------------------------------ cascades as unit ciphers

  function UnitTransform(s: Suite, passes: seq<XtsMode>, encrypt: bool): (nat, seq<byte>) -> seq<byte> {
    (n: nat, d: seq<byte>) => if |d| == 512 then Transformed(s, passes, n, d, encrypt) else d
  }

  /** Any list of passes is a lawful unit cipher. */
  function UnitsOfPasses(s: Suite, passes: seq<XtsMode>): UnitCipher {
    var c := RawUnitCipher(UnitTransform(s, passes, true), UnitTransform(s, passes, false));
    assert LawfulUnits(c) by {
      forall n: nat, d: seq<byte> | |d| == 512
        ensures c.decrypt(n, c.encrypt(n, d)) == d
      {
        UndoRun(s, passes, n, d);
      }
    }
    c
  }

  lemma UnitIsPasses(s: Suite, passes: seq<XtsMode>, n: nat, d: seq<byte>, encrypt: bool)
    requires |d| == 512
    ensures OneUnit(UnitsOfPasses(s, passes), n, d, encrypt) == Transformed(s, passes, n, d, encrypt)
  {
  }
}
