/**
 Sector-aligned I/O for the driver: the arithmetic that widens a byte request to whole
 512-byte sectors of the host file, and the loops that run the cipher over those sectors.
 */
module SectorIo {
  import opened Bytes
  import opened Ciphers
  import opened Cascade
  import opened DataUnits

  datatype SectorIoError = OutOfBounds | ZeroLength | InvalidAlignment

  datatype SectorIoParams = SectorIoParams(
    alignedHostOffset: u64,
    alignedLength: u64,
    userDataOffset: u64,
    userDataLength: u64,
    sectorCount: nat,
    firstSectorIndex: u64)

  // ------------------------------------------------------------------ alignment arithmetic

  function AlignDown(x: nat): nat {
    x / 512 * 512
  }

  function AlignUp(x: nat): nat {
    (x + 512 - 1) / 512 * 512
  }

  /** In `u64` arithmetic that wraps. */
  function ComputeSectorIoParams(volDataAreaOffset: u64, firstDataUnitNo: u64, virtualOffset: u64, length: u64,
                                 diskLength: u64)
    : Result<SectorIoParams, SectorIoError>
  {
    if length == 0 then Err(ZeroLength)
    else if Wrap64(virtualOffset + length) > diskLength then Err(OutOfBounds)
    else
      var hostOffset := Wrap64(volDataAreaOffset + virtualOffset);
      var alignedOff := hostOffset / 512 * 512;
      var endByte := Wrap64(hostOffset + length);
      var alignedEnd := Wrap64(endByte + 512 - 1) / 512 * 512;
      var bufSize := Wrap64(alignedEnd - alignedOff);
      if bufSize % 512 != 0 then Err(InvalidAlignment)
      else
        var baseUnit := Wrap64(firstDataUnitNo + Wrap64(alignedOff - volDataAreaOffset) / 512);
        Ok(SectorIoParams(alignedOff, bufSize, Wrap64(hostOffset - alignedOff), length, bufSize / 512, baseUnit))
  }

  /** The last check can never fail, wrapping or not: 512 divides 2^64. */
  lemma NeverInvalidAlignment(vol: u64, first: u64, off: u64, length: u64, disk: u64)
    ensures ComputeSectorIoParams(vol, first, off, length, disk) != Err(InvalidAlignment)
  {
    hide Wrap64;
    var hostOffset := Wrap64(vol + off);
    var endByte := Wrap64(hostOffset + length);
    WrapKeepsAlignment(Wrap64(endByte + 512 - 1) / 512 - hostOffset / 512);
  }

  lemma WrapKeepsAlignment(sectors: int)
    ensures Wrap64(sectors * 512) % 512 == 0
  {
    var q := sectors * 512 / 0x1_0000_0000_0000_0000;
    assert Wrap64(sectors * 512) == (sectors - q * 0x80_0000_0000_0000) * 512;
    MultipleOf512(sectors - q * 0x80_0000_0000_0000);
  }

  lemma MultipleOf512(n: int)
    ensures n * 512 % 512 == 0
  {
  }

  lemma WrapTwice(a: int, b: int)
    ensures Wrap64(Wrap64(a) + b) == Wrap64(a + b)
  {
  }

  lemma WrapAligned(x: nat)
    ensures Wrap64(x) / 512 * 512 == Wrap64(x / 512 * 512)
  {
    var q, r := x / 0x1_0000_0000_0000_0000, x % 0x1_0000_0000_0000_0000;
    var sectors, rest := r / 512, r % 512;
    assert x == (q * 0x80_0000_0000_0000 + sectors) * 512 + rest;
    QuotientBy512(q * 0x80_0000_0000_0000 + sectors, rest);
    RemainderOf(q, sectors * 512);
  }

  lemma QuotientBy512(n: nat, rest: nat)
    requires rest < 512
    ensures (n * 512 + rest) / 512 == n
  {
  }

  lemma RunBounds(host: nat, length: nat)
    ensures AlignDown(host) % 512 == 0 && AlignDown(host) <= host < AlignDown(host) + 512
    ensures AlignUp(host + length) % 512 == 0 && host + length <= AlignUp(host + length) < host + length + 512
  {
  }

  lemma RemainderOf(q: nat, r: nat)
    requires r < TWO_64
    ensures Wrap64(q * 0x1_0000_0000_0000_0000 + r) == r
  {
  }

  /** What the parameters are for every accepted request, with every sum and difference taken
      modulo 2^64: the whole sectors around the place where the request begins. */
  lemma ParamsAre(vol: u64, first: u64, off: u64, length: u64, disk: u64)
    requires ComputeSectorIoParams(vol, first, off, length, disk).Ok?
    ensures var p, host := ComputeSectorIoParams(vol, first, off, length, disk).value, Wrap64(vol + off);
            && p.alignedHostOffset == AlignDown(host)
            && p.alignedLength == Wrap64(AlignUp(host + length) - AlignDown(host))
            && p.alignedLength % 512 == 0 && p.sectorCount * 512 == p.alignedLength
            && p.userDataOffset == host - AlignDown(host) < 512 && p.userDataLength == length
  {
    var host := Wrap64(vol + off);
    RunLength(host, length);
    NeverInvalidAlignment(vol, first, off, length, disk);
    hide Wrap64;
  }

  lemma RunLength(host: u64, length: u64)
    ensures Wrap64(Wrap64(Wrap64(host + length) + 512 - 1) / 512 * 512 - host / 512 * 512)
         == Wrap64(AlignUp(host + length) - AlignDown(host))
  {
    hide Wrap64;
    WrapTwice(host + length, 511);
    WrapAligned(host + length + 511);
    var down: int := AlignDown(host);
    WrapTwice(AlignUp(host + length), -down);
  }

  /** The parameters describe the smallest run of whole host sectors around a request. */
  predicate Cover(p: SectorIoParams, host: nat, length: nat) {
    && p.alignedHostOffset % 512 == 0 && p.alignedLength % 512 == 0
    && p.alignedHostOffset <= host < p.alignedHostOffset + 512
    && host + length <= p.alignedHostOffset + p.alignedLength < host + length + 512
    && p.userDataOffset == host - p.alignedHostOffset && p.userDataLength == length
    && p.sectorCount * 512 == p.alignedLength
  }

  /** They do so for a request that is accepted exactly when neither the place in the host file nor
      the length of the run wraps. */
  lemma ParamsCoverExactly(vol: u64, first: u64, off: u64, length: u64, disk: u64)
    requires ComputeSectorIoParams(vol, first, off, length, disk).Ok?
    ensures Cover(ComputeSectorIoParams(vol, first, off, length, disk).value, vol + off, length)
       <==> vol + off < TWO_64 && AlignUp(vol + off + length) - AlignDown(vol + off) < TWO_64
  {
    hide ComputeSectorIoParams;
    ParamsAre(vol, first, off, length, disk);
    var p := ComputeSectorIoParams(vol, first, off, length, disk).value;
    if vol + off < TWO_64 {
      WrappedRun(vol + off, length);
      RunBounds(vol + off, length);
      hide Wrap64, AlignDown, AlignUp;
    } else {
      assert Wrap64(vol + off) == vol + off - TWO_64;
      assert p.alignedHostOffset <= vol + off - TWO_64;
    }
  }

  lemma WrappedRun(host: u64, length: u64)
    ensures var run := AlignUp(host + length) - AlignDown(host);
            0 <= run && (run >= TWO_64 ==> Wrap64(run) <= run - TWO_64)
  {
  }

  /** The offsets and lengths of the driver's requests are too small for the length to wrap, wherever
      the data area is said to lie, and for the bounds check to be fooled. */
  lemma DriverRequests(vol: u64, first: u64, off: u64, length: u64, disk: u64)
    requires off < TWO_63 && 0 < length < TWO_32
    ensures ComputeSectorIoParams(vol, first, off, length, disk).Ok? <==> off + length <= disk
    ensures off + length <= disk ==>
      var p := ComputeSectorIoParams(vol, first, off, length, disk).value;
      Cover(p, Wrap64(vol + off), length)
  {
    NeverInvalidAlignment(vol, first, off, length, disk);
    if off + length <= disk {
      ParamsAre(vol, first, off, length, disk);
      RunBounds(Wrap64(vol + off), length);
      hide ComputeSectorIoParams, AlignDown, AlignUp;
    }
  }

  /** Nothing in the computation wraps when the whole data area lies below 2^64. */
  predicate NoWrap(vol: nat, first: nat, disk: nat) {
    vol + disk + 512 <= TWO_64 && first + disk <= TWO_64
  }

  /** Then the request is accepted exactly when it is non-empty and lies on the disk, and the
      parameters cover it. */
  lemma ParamsCover(vol: u64, first: u64, off: u64, length: u64, disk: u64)
    requires NoWrap(vol, first, disk) && off + length < TWO_64
    ensures var r := ComputeSectorIoParams(vol, first, off, length, disk);
            && (length == 0 ==> r == Err(ZeroLength))
            && (length > 0 && off + length > disk ==> r == Err(OutOfBounds))
            && (length > 0 && off + length <= disk ==> r.Ok? && Cover(r.value, vol + off, length))
  {
    NeverInvalidAlignment(vol, first, off, length, disk);
  }

  /** The unit number is the distance from the start of the data area, in whole units, exactly
      when the data area starts on a sector boundary. */
  lemma UnitNumberExact(vol: u64, first: u64, off: u64, length: u64, disk: u64)
    requires NoWrap(vol, first, disk) && 0 < length && off + length <= disk
    ensures var r := ComputeSectorIoParams(vol, first, off, length, disk);
            r.Ok? && (vol + (r.value.firstSectorIndex - first) * 512 == r.value.alignedHostOffset <==> vol % 512 == 0)
  {
    ParamsCover(vol, first, off, length, disk);
    var p := ComputeSectorIoParams(vol, first, off, length, disk).value;
    if vol % 512 == 0 {
      assert p.alignedHostOffset >= vol;
    }
  }

  /** The bounds check lets a request through that ends past the disk exactly when the sum of
      its offset and length wraps to something that is on the disk. */
  lemma BoundsCheckExact(vol: u64, first: u64, off: u64, length: u64, disk: u64)
    requires length > 0
    ensures ComputeSectorIoParams(vol, first, off, length, disk).Ok? && off + length > disk
       <==> off + length >= TWO_64 && off + length - TWO_64 <= disk
  {
    NeverInvalidAlignment(vol, first, off, length, disk);
    if off + length >= TWO_64 {
      assert Wrap64(off + length) == off + length - TWO_64;
    }
  }

  // ------------------------------------------------------------------ the sector loops

  /** The unit cipher a kernel cipher stands for. */
  function KernelUnits(s: Suite, k: KernelSectorCipher): UnitCipher {
    UnitsOfPasses(s, PassesOf(k))
  }

  /** `c` is what the kernel cipher does to a unit. */
  ghost predicate Stands(s: Suite, k: KernelSectorCipher, c: UnitCipher) {
    forall n: nat, d: seq<byte>, encrypt: bool | |d| == 512 ::
      OneUnit(c, n, d, encrypt) == Transformed(s, PassesOf(k), n, d, encrypt)
  }

  lemma KernelUnitsStand(s: Suite, k: KernelSectorCipher)
    ensures Stands(s, k, KernelUnits(s, k))
  {
    forall n: nat, d: seq<byte>, encrypt: bool | |d| == 512
      ensures OneUnit(KernelUnits(s, k), n, d, encrypt) == Transformed(s, PassesOf(k), n, d, encrypt)
    {
      UnitIsPasses(s, PassesOf(k), n, d, encrypt);
    }
  }

  method CryptSector(s: Suite, k: KernelSectorCipher, ghost c: UnitCipher, n: nat, data: array<byte>, lo: nat,
                     encrypt: bool)
    requires lo + 512 <= data.Length && Stands(s, k, c)
    modifies data
    ensures data[..] == Splice(old(data[..]), lo, OneUnit(c, n, old(data[lo..lo + 512]), encrypt))
  {
    KernelSector(s, k, n, data, lo, encrypt);
  }

  lemma NoUnits(c: UnitCipher, first: nat, start: seq<byte>, encrypt: bool)
    ensures Splice(start, 0, Units(c, first, start[..0], encrypt)) == start
  {
  }

  /** `encrypt_sectors` and `decrypt_sectors`: the first `sectorCount` sectors of the buffer in
      place, one after another. Numbers past 2^64 are not reduced: the tweak takes the low
      eight bytes of the number anyway. */
  method CryptSectors(s: Suite, k: KernelSectorCipher, ghost c: UnitCipher, first: nat, sectorCount: nat,
                      data: array<byte>, encrypt: bool)
    requires sectorCount * 512 <= data.Length && Stands(s, k, c)
    modifies data
    ensures data[..] == Splice(old(data[..]), 0, Units(c, first, old(data[..sectorCount * 512]), encrypt))
  {
    hide Splice, Stands, OneUnit;
    ghost var start := data[..];
    NoUnits(c, first, start, encrypt);
    for i := 0 to sectorCount
      invariant data[..] == Splice(start, 0, Units(c, first, start[..i * 512], encrypt))
    {
      UnitStep(c, first, start, i, encrypt);
      CryptSector(s, k, c, first + i, data, i * 512, encrypt);
      assert (i + 1) * 512 == i * 512 + 512;
    }
  }
}
