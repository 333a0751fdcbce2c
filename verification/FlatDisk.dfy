/**
 The encrypted host file as a flat plaintext disk: what reads and writes mean on the disk,
 over single requests of any alignment and over whole runs of aligned ones.
 */
module FlatDisk {
  import opened Bytes
  import opened Ciphers
  import opened Cascade
  import opened DataUnits
  import opened SectorIo
  import opened EncryptedIoQueue
  import opened MaskCipher

  /** The data area starts on a sector boundary and the host file holds all of it. */
  predicate Placed(g: Geometry, host: seq<byte>) {
    && Fits(g)
    && g.dataOffset % 512 == 0
    && g.dataOffset + AlignUp(g.diskLength) <= |host|
  }

  /** The disk's ciphertext. */
  function Area(g: Geometry, host: seq<byte>): (r: seq<byte>)
    requires Placed(g, host)
    ensures |r| == AlignUp(g.diskLength)
  {
    host[g.dataOffset..g.dataOffset + AlignUp(g.diskLength)]
  }

  /** The disk's plaintext, up to the end of its last sector. */
  function Plain(c: UnitCipher, g: Geometry, host: seq<byte>): (r: seq<byte>)
    requires Placed(g, host)
    ensures |r| == AlignUp(g.diskLength)
  {
    Units(c, g.firstUnit, Area(g, host), false)
  }

  /** A non-empty request that lies on the disk and whose span the system calls can express. */
  predicate OnDisk(g: Geometry, off: nat, length: nat) {
    && 0 < length < TWO_32
    && off + length <= g.diskLength
    && AlignUp(off + length) - AlignDown(off) < TWO_32
  }

  // ------------------------------------------------------------------ single requests

  /** The parameters of a request on a well-placed disk, in disk coordinates. */
  function Span(g: Geometry, off: nat, length: nat): (p: SectorIoParams)
    requires Fits(g) && 0 < length < TWO_32 && off + length <= g.diskLength
    ensures Sane(p) && p.userDataLength == length
  {
    SpanBetween(g, AlignDown(off), AlignUp(off + length), off, length)
  }

  function SpanBetween(g: Geometry, lo: nat, hi: nat, off: nat, length: nat): (p: SectorIoParams)
    requires Fits(g) && lo % 512 == 0 && hi % 512 == 0 && lo <= off && off + length <= hi < g.diskLength + 512
    requires 0 < length && off + length <= g.diskLength
    ensures Sane(p) && p.userDataLength == length
  {
    SectorIoParams(g.dataOffset + lo, hi - lo, off - lo, length, (hi - lo) / 512, g.firstUnit + lo / 512)
  }

  /** The two ends of a span are pinned down by lying on sector boundaries around the request. */
  lemma AlignmentIsUnique(x: nat, down: nat, up: nat)
    requires down % 512 == 0 && up % 512 == 0
    ensures down <= x < down + 512 ==> down == AlignDown(x)
    ensures x <= up < x + 512 ==> up == AlignUp(x)
  {
  }

  lemma SpanIsParams(g: Geometry, off: nat, length: nat)
    requires Fits(g) && g.dataOffset % 512 == 0 && 0 < length < TWO_32 && off + length <= g.diskLength
    ensures Params(g, off, length) == Ok(Span(g, off, length))
  {
    ParamsCover(g.dataOffset, g.firstUnit, off, length, g.diskLength);
    UnitNumberExact(g.dataOffset, g.firstUnit, off, length, g.diskLength);
    PinnedDown(g, off, length, Params(g, off, length).value);
  }

  lemma PinnedDown(g: Geometry, off: nat, length: nat, p: SectorIoParams)
    requires Fits(g) && g.dataOffset % 512 == 0 && 0 < length < TWO_32 && off + length <= g.diskLength
    requires p.alignedHostOffset % 512 == 0 && p.alignedLength % 512 == 0
    requires p.alignedHostOffset <= g.dataOffset + off < p.alignedHostOffset + 512
    requires g.dataOffset + off + length <= p.alignedHostOffset + p.alignedLength < g.dataOffset + off + length + 512
    requires p.userDataOffset == g.dataOffset + off - p.alignedHostOffset && p.userDataLength == length
    requires p.sectorCount * 512 == p.alignedLength
    requires g.dataOffset + (p.firstSectorIndex - g.firstUnit) * 512 == p.alignedHostOffset
    ensures p == Span(g, off, length)
  {
    var start, end := p.alignedHostOffset - g.dataOffset, p.alignedHostOffset + p.alignedLength - g.dataOffset;
    AlignmentIsUnique(off, start, end);
    AlignmentIsUnique(off + length, start, end);
  }

  /** A request on the disk is the span work on those parameters. */
  lemma ReadIsSpan(c: UnitCipher, g: Geometry, host: seq<byte>, off: nat, length: nat, env: Environment)
    requires Fits(g) && g.dataOffset % 512 == 0 && 0 < length < TWO_32 && off + length <= g.diskLength
    ensures ReadOutcome(c, g, host, off, length, env) == ReadSpan(c, host, Span(g, off, length), env)
  {
    SpanIsParams(g, off, length);
  }

  lemma WriteIsSpan(c: UnitCipher, g: Geometry, host: seq<byte>, off: nat, data: seq<byte>, env: Environment)
    requires Fits(g) && g.dataOffset % 512 == 0 && 0 < |data| < TWO_32 && off + |data| <= g.diskLength
    ensures WriteOutcome(c, g, false, host, off, data, env) == WriteSpan(c, host, Span(g, off, |data|), data, env)
  {
    SpanIsParams(g, off, |data|);
  }

  lemma FilledInside(host: seq<byte>, off: nat, size: nat)
    requires off + size <= |host| && size < TWO_32
    ensures FilledBuffer(host, off, size) == host[off..off + size]
  {
  }

  lemma AreaSlice(g: Geometry, host: seq<byte>, lo: nat, hi: nat)
    requires Placed(g, host) && lo <= hi <= AlignUp(g.diskLength)
    ensures host[g.dataOffset + lo..g.dataOffset + hi] == Area(g, host)[lo..hi]
  {
    SliceOfSlice(host, g.dataOffset, g.dataOffset + AlignUp(g.diskLength), lo, hi);
  }

  lemma SpanInside(g: Geometry, off: nat, length: nat)
    requires OnDisk(g, off, length)
    ensures AlignDown(off) <= off && off + length <= AlignUp(off + length) <= AlignUp(g.diskLength)
    ensures AlignDown(off) % 512 == 0 && AlignUp(off + length) % 512 == 0 && AlignDown(off) / 512 == off / 512
    ensures off - AlignDown(off) == off % 512
  {
  }

  /** The pool buffer of a request on a well-placed disk holds the ciphertext of its span. */
  lemma SpanBuffer(g: Geometry, host: seq<byte>, lo: nat, hi: nat, off: nat, length: nat)
    requires Placed(g, host) && lo % 512 == 0 && hi % 512 == 0
    requires lo <= off && off + length <= hi <= AlignUp(g.diskLength) && hi - lo < TWO_32
    requires 0 < length && off + length <= g.diskLength
    ensures var p := SpanBetween(g, lo, hi, off, length);
            && FilledBuffer(host, p.alignedHostOffset, p.alignedLength) == Area(g, host)[lo..hi]
            && ReadStatus(host, p.alignedHostOffset, p.alignedLength, NO_FAULTS) == Success
  {
    hide FilledBuffer, HostRead;
    FilledInside(host, g.dataOffset + lo, hi - lo);
    AreaSlice(g, host, lo, hi);
  }

  /** The span work of a READ, in disk coordinates: `lo..hi` is the span. */
  lemma ReadSpanReturnsPlain(c: UnitCipher, g: Geometry, host: seq<byte>, lo: nat, hi: nat, off: nat, length: nat)
    requires Placed(g, host) && lo % 512 == 0 && hi % 512 == 0
    requires lo <= off && off + length <= hi <= AlignUp(g.diskLength) && hi - lo < TWO_32
    requires 0 < length && off + length <= g.diskLength
    ensures ReadSpan(c, host, SpanBetween(g, lo, hi, off, length), NO_FAULTS)
         == (Success, Plain(c, g, host)[off..off + length])
  {
    hide FilledBuffer, ReadStatus, Units, Area;
    SpanBuffer(g, host, lo, hi, off, length);
    UnitsSlice(c, g.firstUnit, Area(g, host), lo, hi, false);
    SliceOfSlice(Plain(c, g, host), lo, hi, off - lo, off - lo + length);
  }

  /** A READ of any alignment hands out exactly the disk's plaintext. */
  lemma ReadReturnsPlain(c: UnitCipher, g: Geometry, host: seq<byte>, off: nat, length: nat)
    requires Placed(g, host) && OnDisk(g, off, length)
    ensures ReadOutcome(c, g, host, off, length, NO_FAULTS) == (Success, Plain(c, g, host)[off..off + length])
  {
    hide ReadOutcome, ReadSpan, Plain;
    ReadIsSpan(c, g, host, off, length, NO_FAULTS);
    SpanInside(g, off, length);
    ReadSpanReturnsPlain(c, g, host, AlignDown(off), AlignUp(off + length), off, length);
  }

  /** The host file after a WRITE whose span is `lo..hi`: the encryption of the bytes the host
      held there, with the caller's bytes laid over them. */
  function HostAfterSpan(c: UnitCipher, g: Geometry, host: seq<byte>, lo: nat, hi: nat, off: nat, data: seq<byte>)
    : (r: seq<byte>)
    requires Placed(g, host) && lo % 512 == 0 && hi % 512 == 0
    requires lo <= off && off + |data| <= hi <= AlignUp(g.diskLength)
    ensures |r| == |host|
  {
    assert (hi - lo) % 512 == 0;
    Splice(host, g.dataOffset + lo,
           Units(c, g.firstUnit + lo / 512, Splice(Area(g, host)[lo..hi], off - lo, data), true))
  }

  function HostAfterWrite(c: UnitCipher, g: Geometry, host: seq<byte>, off: nat, data: seq<byte>): (r: seq<byte>)
    requires Placed(g, host) && OnDisk(g, off, |data|)
    ensures |r| == |host|
  {
    SpanInside(g, off, |data|);
    HostAfterSpan(c, g, host, AlignDown(off), AlignUp(off + |data|), off, data)
  }

  lemma WriteSpanStores(c: UnitCipher, g: Geometry, host: seq<byte>, lo: nat, hi: nat, off: nat, data: seq<byte>)
    requires Placed(g, host) && lo % 512 == 0 && hi % 512 == 0
    requires lo <= off && off + |data| <= hi <= AlignUp(g.diskLength) && hi - lo < TWO_32
    requires 0 < |data| && off + |data| <= g.diskLength
    ensures WriteSpan(c, host, SpanBetween(g, lo, hi, off, |data|), data, NO_FAULTS)
         == (Success, HostAfterSpan(c, g, host, lo, hi, off, data))
  {
    SpanBuffer(g, host, lo, hi, off, |data|);
    var sent := Units(c, g.firstUnit + lo / 512, Splice(Area(g, host)[lo..hi], off - lo, data), true);
    assert sent[..hi - lo] == sent;
  }

  lemma WriteStoresSpan(c: UnitCipher, g: Geometry, host: seq<byte>, off: nat, data: seq<byte>)
    requires Placed(g, host) && OnDisk(g, off, |data|)
    ensures WriteOutcome(c, g, false, host, off, data, NO_FAULTS) == (Success, HostAfterWrite(c, g, host, off, data))
  {
    hide WriteOutcome, WriteSpan, HostAfterSpan;
    WriteIsSpan(c, g, host, off, data, NO_FAULTS);
    SpanInside(g, off, |data|);
    WriteSpanStores(c, g, host, AlignDown(off), AlignUp(off + |data|), off, data);
  }

  lemma AreaAfterSplice(g: Geometry, host: seq<byte>, lo: nat, d: seq<byte>)
    requires Placed(g, host) && lo + |d| <= AlignUp(g.diskLength)
    ensures Placed(g, Splice(host, g.dataOffset + lo, d))
    ensures Area(g, Splice(host, g.dataOffset + lo, d)) == Splice(Area(g, host), lo, d)
  {
  }

  lemma PlainAfterSpan(c: UnitCipher, g: Geometry, host: seq<byte>, lo: nat, hi: nat, off: nat, data: seq<byte>)
    requires Placed(g, host) && lo % 512 == 0 && hi % 512 == 0
    requires lo <= off && off + |data| <= hi <= AlignUp(g.diskLength)
    ensures Placed(g, HostAfterSpan(c, g, host, lo, hi, off, data))
    ensures Plain(c, g, HostAfterSpan(c, g, host, lo, hi, off, data))
         == Splice(Plain(c, g, host), lo, Splice(Area(g, host)[lo..hi], off - lo, data))
  {
    var overlaid := Splice(Area(g, host)[lo..hi], off - lo, data);
    var sent := Units(c, g.firstUnit + lo / 512, overlaid, true);
    AreaAfterSplice(g, host, lo, sent);
    UnitsSplice(c, g.firstUnit, Area(g, host), lo, sent, false);
    UnitsRoundTrip(c, g.firstUnit + lo / 512, overlaid);
  }

  /** What the disk reads as after a WRITE of any alignment: the caller's bytes where they were
      written, the old ciphertext in the rest of the touched sectors, the old plaintext in
      every other sector. */
  lemma PlainAfterWrite(c: UnitCipher, g: Geometry, host: seq<byte>, off: nat, data: seq<byte>)
    requires Placed(g, host) && OnDisk(g, off, |data|)
    ensures AlignDown(off) <= off && off + |data| <= AlignUp(off + |data|) <= AlignUp(g.diskLength)
    ensures Placed(g, HostAfterWrite(c, g, host, off, data))
    ensures Plain(c, g, HostAfterWrite(c, g, host, off, data))
         == Splice(Plain(c, g, host), AlignDown(off),
                   Splice(Area(g, host)[AlignDown(off)..AlignUp(off + |data|)], off - AlignDown(off), data))
  {
    SpanInside(g, off, |data|);
    PlainAfterSpan(c, g, host, AlignDown(off), AlignUp(off + |data|), off, data);
  }

  /** A WRITE of any alignment is read back exactly. */
  lemma WriteThenRead(c: UnitCipher, g: Geometry, host: seq<byte>, off: nat, data: seq<byte>)
    requires Placed(g, host) && OnDisk(g, off, |data|)
    ensures Placed(g, WriteOutcome(c, g, false, host, off, data, NO_FAULTS).1)
    ensures ReadOutcome(c, g, WriteOutcome(c, g, false, host, off, data, NO_FAULTS).1, off, |data|, NO_FAULTS)
         == (Success, data)
  {
    hide WriteOutcome, ReadOutcome, HostAfterWrite, Plain;
    WriteStoresSpan(c, g, host, off, data);
    PlainAfterWrite(c, g, host, off, data);
    var after := HostAfterWrite(c, g, host, off, data);
    ReadReturnsPlain(c, g, after, off, |data|);
    var lo, hi := AlignDown(off), AlignUp(off + |data|);
    var span := Splice(Area(g, host)[lo..hi], off - lo, data);
    SpliceParts(Plain(c, g, host), lo, span);
    SpliceParts(Area(g, host)[lo..hi], off - lo, data);
    SliceOfSlice(Plain(c, g, after), lo, hi, off - lo, off - lo + |data|);
  }

  lemma SpanIsLocal(c: UnitCipher, g: Geometry, host: seq<byte>, a: nat, b: nat, off: nat, data: seq<byte>, lo: nat,
                    hi: nat)
    requires Placed(g, host) && a % 512 == 0 && b % 512 == 0
    requires a <= off && off + |data| <= b <= AlignUp(g.diskLength)
    requires lo <= hi <= a || b <= lo <= hi
    ensures var after := HostAfterSpan(c, g, host, a, b, off, data);
            && Placed(g, after)
            && (hi <= AlignUp(g.diskLength) ==> Plain(c, g, after)[lo..hi] == Plain(c, g, host)[lo..hi])
            && (g.dataOffset + hi <= |host| ==>
                after[g.dataOffset + lo..g.dataOffset + hi] == host[g.dataOffset + lo..g.dataOffset + hi])
            && after[..g.dataOffset] == host[..g.dataOffset]
  {
    hide HostAfterSpan, Plain, AlignUp;
    SpanKeepsHost(c, g, host, a, b, off, data, lo, hi);
    PlainAfterSpan(c, g, host, a, b, off, data);
    if hi <= AlignUp(g.diskLength) {
      hide Splice;
      SliceBesideSplice(Plain(c, g, host), a, Splice(Area(g, host)[a..b], off - a, data), lo, hi);
    }
  }

  lemma SpanKeepsHost(c: UnitCipher, g: Geometry, host: seq<byte>, a: nat, b: nat, off: nat, data: seq<byte>, lo: nat,
                      hi: nat)
    requires Placed(g, host) && a % 512 == 0 && b % 512 == 0
    requires a <= off && off + |data| <= b <= AlignUp(g.diskLength)
    requires lo <= hi <= a || b <= lo <= hi
    ensures var after := HostAfterSpan(c, g, host, a, b, off, data);
            && (g.dataOffset + hi <= |host| ==>
                after[g.dataOffset + lo..g.dataOffset + hi] == host[g.dataOffset + lo..g.dataOffset + hi])
            && after[..g.dataOffset] == host[..g.dataOffset]
  {
    hide Units, Splice, Area;
    var sent := Units(c, g.firstUnit + a / 512, Splice(Area(g, host)[a..b], off - a, data), true);
    if g.dataOffset + hi <= |host| {
      SliceBesideSplice(host, g.dataOffset + a, sent, g.dataOffset + lo, g.dataOffset + hi);
    }
    SliceBesideSplice(host, g.dataOffset + a, sent, 0, g.dataOffset);
  }

  /** A WRITE of any alignment leaves every sector it does not touch readable as before, and
      every host byte outside the touched sectors as it was. */
  lemma WriteIsLocal(c: UnitCipher, g: Geometry, host: seq<byte>, off: nat, data: seq<byte>, lo: nat, hi: nat)
    requires Placed(g, host) && OnDisk(g, off, |data|)
    requires lo <= hi <= AlignDown(off) || AlignUp(off + |data|) <= lo <= hi
    ensures var after := WriteOutcome(c, g, false, host, off, data, NO_FAULTS).1;
            && Placed(g, after) && |after| == |host|
            && (hi <= AlignUp(g.diskLength) ==> Plain(c, g, after)[lo..hi] == Plain(c, g, host)[lo..hi])
            && (g.dataOffset + hi <= |host| ==>
                after[g.dataOffset + lo..g.dataOffset + hi] == host[g.dataOffset + lo..g.dataOffset + hi])
            && after[..g.dataOffset] == host[..g.dataOffset]
  {
    hide WriteOutcome, Plain, HostAfterSpan;
    WriteStoresSpan(c, g, host, off, data);
    SpanInside(g, off, |data|);
    SpanIsLocal(c, g, host, AlignDown(off), AlignUp(off + |data|), off, data, lo, hi);
  }

  // ------------------------------------------------------------------ when the system fails

  /** Whatever fails, a READ that reports success has delivered the plaintext, and a WRITE that
      reports success has done all of its work. */
  lemma SuccessMeansDone(c: UnitCipher, g: Geometry, host: seq<byte>, off: nat, length: nat, data: seq<byte>,
                         env: Environment)
    requires Placed(g, host) && OnDisk(g, off, length) && |data| == length
    ensures ReadOutcome(c, g, host, off, length, env).0 == Success ==>
      ReadOutcome(c, g, host, off, length, env) == (Success, Plain(c, g, host)[off..off + length])
    ensures WriteOutcome(c, g, false, host, off, data, env).0 == Success ==>
      WriteOutcome(c, g, false, host, off, data, env) == (Success, HostAfterWrite(c, g, host, off, data))
  {
    hide ReadOutcome, WriteOutcome, Plain, HostAfterWrite, Span;
    ReadIsSpan(c, g, host, off, length, env);
    ReadIsSpan(c, g, host, off, length, NO_FAULTS);
    WriteIsSpan(c, g, host, off, data, env);
    WriteIsSpan(c, g, host, off, data, NO_FAULTS);
    ReadReturnsPlain(c, g, host, off, length);
    WriteStoresSpan(c, g, host, off, data);
    SpanSuccess(c, host, Span(g, off, length), data, env);
  }

  lemma SpanSuccess(c: UnitCipher, host: seq<byte>, p: SectorIoParams, data: seq<byte>, env: Environment)
    requires Sane(p) && |data| == p.userDataLength
    ensures ReadSpan(c, host, p, env).0 == Success ==> ReadSpan(c, host, p, env) == ReadSpan(c, host, p, NO_FAULTS)
    ensures WriteSpan(c, host, p, data, env).0 == Success ==>
      WriteSpan(c, host, p, data, env) == WriteSpan(c, host, p, data, NO_FAULTS)
  {
    hide FilledBuffer, Units, Splice, WriteAt;
  }

  /** Exactly when requests succeed. An empty READ does wherever it is; an empty WRITE only at an
      offset that is not negative. */
  lemma SucceedsExactly(c: UnitCipher, g: Geometry, host: seq<byte>, off: int, length: nat, data: seq<byte>,
                        env: Environment)
    requires Placed(g, host) && off < TWO_63 && length < TWO_32 && |data| == length
    requires 0 <= off && 0 < length && off + length <= g.diskLength ==> OnDisk(g, off, length)
    ensures ReadOutcome(c, g, host, off, length, env).0 == Success
       <==> length == 0 || (0 <= off && off + length <= g.diskLength
                            && env.poolAvailable && env.readFailure.None? && env.bufferMapped)
    ensures WriteOutcome(c, g, false, host, off, data, env).0 == Success
       <==> 0 <= off && (length == 0 || (off + length <= g.diskLength && env.poolAvailable && env.readFailure.None?
                                         && env.bufferMapped && env.writeFailure.None?))
  {
    if 0 <= off && 0 < length && off + length <= g.diskLength {
      hide ReadOutcome, WriteOutcome;
      ReadIsSpan(c, g, host, off, length, env);
      WriteIsSpan(c, g, host, off, data, env);
      SpanInside(g, off, length);
      SpanSucceeds(c, g, host, AlignDown(off), AlignUp(off + length), off, data, env);
    } else if 0 <= off {
      OffDiskStatus(c, g, host, off, length, data, env);
    }
  }

  lemma OffDiskStatus(c: UnitCipher, g: Geometry, host: seq<byte>, off: nat, length: nat, data: seq<byte>,
                      env: Environment)
    requires Fits(g) && off < TWO_63 && length < TWO_32 && |data| == length
    requires length == 0 || off + length > g.diskLength
    ensures ReadOutcome(c, g, host, off, length, env).0 == if length == 0 then Success else InvalidParameter
    ensures WriteOutcome(c, g, false, host, off, data, env).0 == if length == 0 then Success else InvalidParameter
  {
    hide ReadSpan, WriteSpan;
    ParamsCover(g.dataOffset, g.firstUnit, off, length, g.diskLength);
  }

  lemma SpanSucceeds(c: UnitCipher, g: Geometry, host: seq<byte>, lo: nat, hi: nat, off: nat, data: seq<byte>,
                     env: Environment)
    requires Placed(g, host) && lo % 512 == 0 && hi % 512 == 0
    requires lo <= off && off + |data| <= hi <= AlignUp(g.diskLength) && hi - lo < TWO_32
    requires 0 < |data| && off + |data| <= g.diskLength
    ensures var p := SpanBetween(g, lo, hi, off, |data|);
            && (ReadSpan(c, host, p, env).0 == Success
                <==> env.poolAvailable && env.readFailure.None? && env.bufferMapped)
            && (WriteSpan(c, host, p, data, env).0 == Success
                <==> env.poolAvailable && env.readFailure.None? && env.bufferMapped && env.writeFailure.None?)
  {
    hide Units, Splice, WriteAt, FilledBuffer;
  }

  /** And a WRITE that fails, at whatever point, changes no host byte outside its sectors; unless
      it was the host write itself that failed it changes nothing at all. */
  lemma FailedWriteIsConfined(c: UnitCipher, g: Geometry, readOnly: bool, host: seq<byte>, off: nat, data: seq<byte>,
                              env: Environment)
    requires Placed(g, host) && OnDisk(g, off, |data|)
    ensures var (status, after) := WriteOutcome(c, g, readOnly, host, off, data, env);
            var lo, hi := g.dataOffset + AlignDown(off), g.dataOffset + AlignUp(off + |data|);
            && lo <= hi <= |host| == |after|
            && after[..lo] == host[..lo] && after[hi..] == host[hi..]
            && (status != Success && (readOnly || env.writeFailure.None?) ==> after == host)
  {
    hide WriteOutcome;
    SpanInside(g, off, |data|);
    if readOnly {
      ReadOnlyWrite(c, g, host, off, data, env);
    } else {
      WriteIsSpan(c, g, host, off, data, env);
      SpanConfined(c, g, host, AlignDown(off), AlignUp(off + |data|), off, data, env);
    }
  }

  lemma ReadOnlyWrite(c: UnitCipher, g: Geometry, host: seq<byte>, off: int, data: seq<byte>, env: Environment)
    requires Fits(g) && off < TWO_63 && |data| < TWO_32
    ensures WriteOutcome(c, g, true, host, off, data, env) == (MediaWriteProtected, host)
  {
  }

  lemma SpanConfined(c: UnitCipher, g: Geometry, host: seq<byte>, lo: nat, hi: nat, off: nat, data: seq<byte>,
                     env: Environment)
    requires Placed(g, host) && lo % 512 == 0 && hi % 512 == 0
    requires lo <= off && off + |data| <= hi <= AlignUp(g.diskLength) && hi - lo < TWO_32
    requires 0 < |data| && off + |data| <= g.diskLength
    ensures var (status, after) := WriteSpan(c, host, SpanBetween(g, lo, hi, off, |data|), data, env);
            && |after| == |host|
            && after[..g.dataOffset + lo] == host[..g.dataOffset + lo]
            && after[g.dataOffset + hi..] == host[g.dataOffset + hi..]
            && (status != Success && env.writeFailure.None? ==> after == host)
  {
    hide FilledBuffer, ReadStatus, Units, WriteAt;
    var p := SpanBetween(g, lo, hi, off, |data|);
    var buf := FilledBuffer(host, p.alignedHostOffset, p.alignedLength);
    var sent := Units(c, p.firstSectorIndex, Splice(buf, p.userDataOffset, data), true);
    LandsInside(host, g.dataOffset + lo, g.dataOffset + hi, sent);
    if env.writeFailure.Some? {
      var torn := env.writeFailure.value.1;
      LandsInside(host, g.dataOffset + lo, g.dataOffset + hi, torn[..Min(|torn|, |sent[..Wrap32(p.alignedLength)]|)]);
    }
    assert sent[..hi - lo] == sent;
  }

  lemma LandsInside(host: seq<byte>, lo: nat, hi: nat, d: seq<byte>)
    requires lo + |d| <= hi <= |host|
    ensures var after := WriteAt(host, lo, d);
            |after| == |host| && after[..lo] == host[..lo] && after[hi..] == host[hi..]
  {
  }

  // ------------------------------------------------------------------ splitting a request

  lemma SplitSpan(c: UnitCipher, g: Geometry, host: seq<byte>, lo: nat, mid: nat, hi: nat, off: nat, a: seq<byte>,
                  b: seq<byte>)
    requires Placed(g, host) && lo % 512 == 0 && mid % 512 == 0 && hi % 512 == 0
    requires lo <= off && off + |a| == mid && mid + |b| <= hi <= AlignUp(g.diskLength)
    ensures Placed(g, HostAfterSpan(c, g, host, lo, mid, off, a))
    ensures HostAfterSpan(c, g, host, lo, hi, off, a + b)
         == HostAfterSpan(c, g, HostAfterSpan(c, g, host, lo, mid, off, a), mid, hi, mid, b)
  {
    hide Units, Splice, Area;
    var area := Area(g, host);
    SplitOverlay(area, lo, mid, hi, off, a, b);
    var x, y := Splice(area[lo..mid], off - lo, a), Splice(area[mid..hi], 0, b);
    UnitsBetween(lo, mid);
    UnitsBetween(mid, hi);
    UnitsConcat(c, g.firstUnit + lo / 512, x, y, true);
    var sentX, sentY := Units(c, g.firstUnit + lo / 512, x, true), Units(c, g.firstUnit + mid / 512, y, true);
    AreaAfterSplice(g, host, lo, sentX);
    SliceBesideSplice(area, lo, sentX, mid, hi);
    SpliceExtends(host, g.dataOffset + lo, sentX, sentY);
  }

  lemma UnitsBetween(lo: nat, hi: nat)
    requires lo <= hi && lo % 512 == 0 && hi % 512 == 0
    ensures (hi - lo) % 512 == 0 && lo / 512 + (hi - lo) / 512 == hi / 512
  {
  }

  lemma SplitOverlay(area: seq<byte>, lo: nat, mid: nat, hi: nat, off: nat, a: seq<byte>, b: seq<byte>)
    requires lo <= off && off + |a| == mid && mid + |b| <= hi <= |area|
    ensures Splice(area[lo..hi], off - lo, a + b) == Splice(area[lo..mid], off - lo, a) + Splice(area[mid..hi], 0, b)
  {
  }

  /** Splitting a WRITE at a sector boundary leaves the same host file as writing it whole. */
  lemma SplitWrite(c: UnitCipher, g: Geometry, host: seq<byte>, off: nat, a: seq<byte>, b: seq<byte>)
    requires Placed(g, host) && OnDisk(g, off, |a + b|) && a != [] && b != [] && (off + |a|) % 512 == 0
    ensures WriteOutcome(c, g, false, host, off, a + b, NO_FAULTS)
         == WriteOutcome(c, g, false, WriteOutcome(c, g, false, host, off, a, NO_FAULTS).1, off + |a|, b, NO_FAULTS)
  {
    hide WriteOutcome;
    var mid := off + |a|;
    BoundaryAligns(mid);
    SpanInside(g, off, |a + b|);
    WriteStoresSpan(c, g, host, off, a + b);
    WriteStoresSpan(c, g, host, off, a);
    SplitSpan(c, g, host, AlignDown(off), mid, AlignUp(mid + |b|), off, a, b);
    WriteStoresSpan(c, g, HostAfterWrite(c, g, host, off, a), mid, b);
  }

  lemma BoundaryAligns(x: nat)
    requires x % 512 == 0
    ensures AlignDown(x) == x && AlignUp(x) == x
  {
  }

  /** Splitting a READ anywhere delivers the same bytes. */
  lemma SplitRead(c: UnitCipher, g: Geometry, host: seq<byte>, off: nat, m: nat, n: nat)
    requires Placed(g, host) && OnDisk(g, off, m + n) && OnDisk(g, off, m) && OnDisk(g, off + m, n)
    ensures ReadOutcome(c, g, host, off, m + n, NO_FAULTS).1
         == ReadOutcome(c, g, host, off, m, NO_FAULTS).1 + ReadOutcome(c, g, host, off + m, n, NO_FAULTS).1
  {
    hide ReadOutcome, Plain, OnDisk;
    ReadReturnsPlain(c, g, host, off, m + n);
    ReadReturnsPlain(c, g, host, off, m);
    ReadReturnsPlain(c, g, host, off + m, n);
    ReadWithinDisk(g, off, m + n);
    var plain := Plain(c, g, host);
    assert plain[off..off + (m + n)] == plain[off..off + m] + plain[off + m..off + m + n];
  }

  lemma ReadWithinDisk(g: Geometry, off: nat, length: nat)
    requires OnDisk(g, off, length)
    ensures off + length <= AlignUp(g.diskLength)
  {
  }

  // ------------------------------------------------------------------ runs of requests

  datatype Request = Read(offset: int, length: nat) | Write(offset: int, data: seq<byte>)

  datatype Response = Response(status: IoStatus, bytes: seq<byte>)

  function DriverStep(c: UnitCipher, g: Geometry, host: seq<byte>, r: Request): (seq<byte>, Response)
    requires Fits(g) && Expressible(g, r)
  {
    match r
    case Read(off, length) =>
      var (status, bytes) := ReadOutcome(c, g, host, off, length, NO_FAULTS);
      (host, Response(status, bytes))
    case Write(off, data) =>
      var (status, after) := WriteOutcome(c, g, false, host, off, data, NO_FAULTS);
      (after, Response(status, []))
  }

  /** The same request on a plain array of bytes. */
  function FlatStep(disk: seq<byte>, diskLength: nat, r: Request): (seq<byte>, Response)
    requires diskLength <= |disk|
  {
    match r
    case Read(off, length) =>
      if length == 0 then (disk, Response(Success, []))
      else if off < 0 || off + length > diskLength then (disk, Response(InvalidParameter, []))
      else (disk, Response(Success, disk[off..off + length]))
    case Write(off, data) =>
      if off < 0 then (disk, Response(InvalidParameter, []))
      else if data == [] then (disk, Response(Success, []))
      else if off + |data| > diskLength then (disk, Response(InvalidParameter, []))
      else (Splice(disk, off, data), Response(Success, []))
  }

  function Length(r: Request): nat {
    match r
    case Read(_, length) => length
    case Write(_, data) => |data|
  }

  /** Offset and length have the widths of the request packet's fields, and the whole-sector
      span of the request has a length the host call can express. */
  predicate Expressible(g: Geometry, r: Request) {
    && r.offset < TWO_63 && Length(r) < TWO_32
    && (0 <= r.offset && 0 < Length(r) && r.offset + Length(r) <= g.diskLength ==> OnDisk(g, r.offset, Length(r)))
  }

  predicate SectorAligned(r: Request) {
    r.offset % 512 == 0 && Length(r) % 512 == 0
  }

  lemma AlignedWriteRefines(c: UnitCipher, g: Geometry, host: seq<byte>, off: nat, data: seq<byte>)
    requires Placed(g, host) && OnDisk(g, off, |data|) && off % 512 == 0 && |data| % 512 == 0
    ensures var (status, after) := WriteOutcome(c, g, false, host, off, data, NO_FAULTS);
            && status == Success && |after| == |host| && Placed(g, after)
            && Plain(c, g, after) == Splice(Plain(c, g, host), off, data)
            && after[..g.dataOffset] == host[..g.dataOffset]
            && after[g.dataOffset + AlignUp(g.diskLength)..] == host[g.dataOffset + AlignUp(g.diskLength)..]
  {
    hide WriteOutcome, HostAfterSpan, Plain, Area, Splice;
    WriteStoresSpan(c, g, host, off, data);
    BoundaryAligns(off);
    BoundaryAligns(off + |data|);
    SpanInside(g, off, |data|);
    PlainAfterSpan(c, g, host, off, off + |data|, off, data);
    SpliceAll(Area(g, host)[off..off + |data|], data);
    var end := AlignUp(g.diskLength);
    SpanIsLocal(c, g, host, off, off + |data|, off, data, end, |host| - g.dataOffset);
  }

  lemma RejectedOffDisk(c: UnitCipher, g: Geometry, host: seq<byte>, off: nat, length: nat)
    requires Fits(g) && off < TWO_63 && length < TWO_32 && (length == 0 || off + length > g.diskLength)
    ensures ReadOutcome(c, g, host, off, length, NO_FAULTS) == (if length == 0 then Success else InvalidParameter, [])
    ensures forall data {:trigger WriteOutcome(c, g, false, host, off, data, NO_FAULTS)} | |data| == length ::
              WriteOutcome(c, g, false, host, off, data, NO_FAULTS)
              == (if length == 0 then Success else InvalidParameter, host)
  {
    ParamsCover(g.dataOffset, g.firstUnit, off, length, g.diskLength);
  }

  /** One request: the driver on the encrypted host file answers, and leaves behind, what the
      plain array would. */
  lemma StepRefines(c: UnitCipher, g: Geometry, host: seq<byte>, r: Request)
    requires Placed(g, host) && Expressible(g, r) && (r.Write? ==> SectorAligned(r))
    ensures var (after, answer) := DriverStep(c, g, host, r);
            && |after| == |host| && Placed(g, after)
            && (Plain(c, g, after), answer) == FlatStep(Plain(c, g, host), g.diskLength, r)
            && after[..g.dataOffset] == host[..g.dataOffset]
            && after[g.dataOffset + AlignUp(g.diskLength)..] == host[g.dataOffset + AlignUp(g.diskLength)..]
  {
    hide Units, Splice, NoWrap, WriteSpan, ReadSpan, ComputeSectorIoParams;
    if r.offset >= 0 {
      if 0 < Length(r) && r.offset + Length(r) <= g.diskLength {
        match r
        case Read(off, length) => ReadReturnsPlain(c, g, host, off, length);
        case Write(off, data) => AlignedWriteRefines(c, g, host, off, data);
      } else {
        RejectedOffDisk(c, g, host, r.offset, Length(r));
      }
    }
  }

  function DriverRun(c: UnitCipher, g: Geometry, host: seq<byte>, rs: seq<Request>): (seq<byte>, seq<Response>)
    requires Fits(g) && forall r :: r in rs ==> Expressible(g, r)
    decreases |rs|
  {
    if rs == [] then (host, []) else
      var (after, answer) := DriverStep(c, g, host, rs[0]);
      var (end, answers) := DriverRun(c, g, after, rs[1..]);
      (end, [answer] + answers)
  }

  function FlatRun(disk: seq<byte>, diskLength: nat, rs: seq<Request>): (seq<byte>, seq<Response>)
    requires diskLength <= |disk|
    decreases |rs|
  {
    if rs == [] then (disk, []) else
      var (after, answer) := FlatStep(disk, diskLength, rs[0]);
      var (end, answers) := FlatRun(after, diskLength, rs[1..]);
      (end, [answer] + answers)
  }

  /** Over every run the encrypted host file refines the flat array: the same answers to every
      request, the same plaintext at the end, and nothing outside the data area touched. */
  lemma {:induction false} RunRefines(c: UnitCipher, g: Geometry, host: seq<byte>, rs: seq<Request>)
    requires Placed(g, host)
    requires forall r :: r in rs ==> Expressible(g, r)
    requires forall r :: r in rs && r.Write? ==> SectorAligned(r)
    ensures var (end, answers) := DriverRun(c, g, host, rs);
            && |end| == |host| && Placed(g, end)
            && (Plain(c, g, end), answers) == FlatRun(Plain(c, g, host), g.diskLength, rs)
            && end[..g.dataOffset] == host[..g.dataOffset]
            && end[g.dataOffset + AlignUp(g.diskLength)..] == host[g.dataOffset + AlignUp(g.diskLength)..]
    decreases |rs|
  {
    hide DriverStep, FlatStep;
    if rs != [] {
      assert rs[0] in rs;
      StepRefines(c, g, host, rs[0]);
      RunRefines(c, g, DriverStep(c, g, host, rs[0]).0, rs[1..]);
    }
  }

  /** The byte that a run last wrote at place `i`, if it wrote one. */
  function LastWritten(rs: seq<Request>, diskLength: nat, i: nat): Option<byte> {
    if rs == [] then None else
      var r := rs[|rs| - 1];
      if r.Write? && 0 <= r.offset <= i < r.offset + |r.data| <= diskLength then Some(r.data[i - r.offset])
      else LastWritten(rs[..|rs| - 1], diskLength, i)
  }

  lemma {:induction false} FlatRunAppends(disk: seq<byte>, diskLength: nat, rs: seq<Request>, r: Request)
    requires diskLength <= |disk|
    ensures |FlatRun(disk, diskLength, rs).0| == |disk|
    ensures FlatRun(disk, diskLength, rs + [r]).0 == FlatStep(FlatRun(disk, diskLength, rs).0, diskLength, r).0
    decreases |rs|
  {
    hide FlatStep;
    FlatStepKeepsLength(disk, diskLength, r);
    if rs == [] {
      assert rs + [r] == [r] && [r][1..] == [];
    } else {
      FlatStepKeepsLength(disk, diskLength, rs[0]);
      assert (rs + [r])[1..] == rs[1..] + [r];
      FlatRunAppends(FlatStep(disk, diskLength, rs[0]).0, diskLength, rs[1..], r);
    }
  }

  lemma FlatStepKeepsLength(disk: seq<byte>, diskLength: nat, r: Request)
    requires diskLength <= |disk|
    ensures |FlatStep(disk, diskLength, r).0| == |disk|
  {
  }

  /** After a run every byte of the flat array is the one last written there, or was there before. */
  lemma {:induction false} LastWriteWins(disk: seq<byte>, diskLength: nat, rs: seq<Request>, i: nat)
    requires diskLength <= |disk| && i < |disk|
    ensures |FlatRun(disk, diskLength, rs).0| == |disk|
    ensures FlatRun(disk, diskLength, rs).0[i]
         == match LastWritten(rs, diskLength, i) case Some(b) => b case None => disk[i]
    decreases |rs|
  {
    if rs != [] {
      var before, r := rs[..|rs| - 1], rs[|rs| - 1];
      assert rs == before + [r];
      FlatRunAppends(disk, diskLength, before, r);
      LastWriteWins(disk, diskLength, before, i);
    }
  }

  /** So the plaintext of the encrypted host file after any run of requests is, byte by byte, what
      was last written, or the decryption of the initial file. */
  lemma PlainIsLastWritten(c: UnitCipher, g: Geometry, host: seq<byte>, rs: seq<Request>, i: nat)
    requires Placed(g, host) && i < AlignUp(g.diskLength)
    requires forall r :: r in rs ==> Expressible(g, r)
    requires forall r :: r in rs && r.Write? ==> SectorAligned(r)
    ensures var end := DriverRun(c, g, host, rs).0;
            && Placed(g, end)
            && Plain(c, g, end)[i]
               == match LastWritten(rs, g.diskLength, i) case Some(b) => b case None => Plain(c, g, host)[i]
  {
    hide DriverRun, Plain, Placed, FlatRun, LastWritten;
    RunRefines(c, g, host, rs);
    LastWriteWins(Plain(c, g, host), g.diskLength, rs, i);
  }

  // ------------------------------------------------------------------ what the conditions are for

  /** The bytes of the disk that share a sector with a WRITE but were not written. */
  predicate IsNeighbour(g: Geometry, off: nat, length: nat, i: nat) {
    && AlignDown(off) <= i < AlignUp(off + length) && i < g.diskLength
    && !(off <= i < off + length)
  }

  ghost predicate NeighboursKept(c: UnitCipher, g: Geometry, before: seq<byte>, after: seq<byte>, off: nat, length: nat)
    requires Placed(g, before)
  {
    && Placed(g, after)
    && forall i: nat :: IsNeighbour(g, off, length, i) ==> Plain(c, g, after)[i] == Plain(c, g, before)[i]
  }

  /** What becomes of a neighbour: its old ciphertext is its new plaintext. */
  lemma NeighbourBecomesCiphertext(c: UnitCipher, g: Geometry, host: seq<byte>, off: nat, data: seq<byte>, i: nat)
    requires Placed(g, host) && OnDisk(g, off, |data|) && IsNeighbour(g, off, |data|, i)
    ensures var after := WriteOutcome(c, g, false, host, off, data, NO_FAULTS).1;
            Placed(g, after) && i < AlignUp(g.diskLength) && Plain(c, g, after)[i] == Area(g, host)[i]
  {
    hide WriteOutcome, HostAfterWrite, Plain;
    WriteStoresSpan(c, g, host, off, data);
    PlainAfterWrite(c, g, host, off, data);
  }

  /** A geometry at whose offsets a host file of `v`s exists. */
  function Filled(g: Geometry, v: byte): (host: seq<byte>)
    requires Fits(g) && g.dataOffset % 512 == 0
    ensures Placed(g, host)
    ensures forall i :: 0 <= i < |Area(g, host)| ==> Area(g, host)[i] == v
  {
    seq(g.dataOffset + AlignUp(g.diskLength), _ => v)
  }

  /** The disk cipher of suite `s` with kernel cipher `k` keeps neighbours on every host file. */
  ghost predicate KeepsNeighbours(g: Geometry, off: nat, length: nat, c: UnitCipher)
    requires OnDisk(g, off, length)
  {
    forall host, data | Placed(g, host) && |data| == length ::
      NeighboursKept(c, g, host, WriteOutcome(c, g, false, host, off, data, NO_FAULTS).1, off, length)
  }

  /** A WRITE keeps the plaintext around it, for every suite, cipher, host file and data,
      exactly when it starts on a sector boundary and ends on one or at the end of the disk. */
  lemma NeighboursKeptIffAligned(g: Geometry, off: nat, length: nat)
    requires Fits(g) && g.dataOffset % 512 == 0 && OnDisk(g, off, length)
    ensures (forall s: Suite, k: KernelSectorCipher :: KeepsNeighbours(g, off, length, KernelUnits(s, k)))
       <==> off % 512 == 0 && ((off + length) % 512 == 0 || off + length == g.diskLength)
  {
    if off % 512 == 0 && ((off + length) % 512 == 0 || off + length == g.diskLength) {
      forall s: Suite, k: KernelSectorCipher
        ensures KeepsNeighbours(g, off, length, KernelUnits(s, k))
      {
        NoNeighbours(g, off, length, KernelUnits(s, k));
      }
    } else {
      var i := if off % 512 != 0 then off - 1 else off + length;
      NeighbourLost(g, off, length, i);
    }
  }

  lemma NoNeighbours(g: Geometry, off: nat, length: nat, c: UnitCipher)
    requires OnDisk(g, off, length)
    requires off % 512 == 0 && ((off + length) % 512 == 0 || off + length == g.diskLength)
    ensures KeepsNeighbours(g, off, length, c)
  {
    hide WriteOutcome, Plain, HostAfterWrite, Area, Splice;
    forall host, data | Placed(g, host) && |data| == length
      ensures NeighboursKept(c, g, host, WriteOutcome(c, g, false, host, off, data, NO_FAULTS).1, off, length)
    {
      WriteStoresSpan(c, g, host, off, data);
      PlainAfterWrite(c, g, host, off, data);
      assert forall i: nat :: !IsNeighbour(g, off, length, i);
    }
  }

  lemma NeighbourLost(g: Geometry, off: nat, length: nat, i: nat)
    requires Fits(g) && g.dataOffset % 512 == 0 && OnDisk(g, off, length) && IsNeighbour(g, off, length, i)
    ensures !KeepsNeighbours(g, off, length, KernelUnits(MaskSuite(1), Single(ANY_MODE)))
  {
    hide WriteOutcome, KernelUnits, MaskSuite;
    var host, data, c := Filled(g, 0), Zeros(length), KernelUnits(MaskSuite(1), Single(ANY_MODE));
    NeighbourBecomesCiphertext(c, g, host, off, data, i);
    MaskUnits(1, g.firstUnit, Area(g, host), false);
    assert !NeighboursKept(c, g, host, WriteOutcome(c, g, false, host, off, data, NO_FAULTS).1, off, length);
  }

  ghost predicate ReadsRight(c: UnitCipher, g: Geometry, off: nat, length: nat)
    requires Fits(g) && g.dataOffset % 512 == 0 && 0 < length < TWO_32 && off + length <= g.diskLength
  {
    forall host | Placed(g, host) ::
      ReadOutcome(c, g, host, off, length, NO_FAULTS) == (Success, Plain(c, g, host)[off..off + length])
  }

  /** A READ on the disk hands out its plaintext, for every suite, cipher and host file, exactly
      when the whole-sector span around it is shorter than 2^32: the span's length is passed
      to the host as a `u32`. */
  lemma ReadsRightIffSpanShort(g: Geometry, off: nat, length: nat)
    requires Fits(g) && g.dataOffset % 512 == 0 && 0 < length < TWO_32 && off + length <= g.diskLength
    ensures (forall s: Suite, k: KernelSectorCipher :: ReadsRight(KernelUnits(s, k), g, off, length))
       <==> AlignUp(off + length) - AlignDown(off) < TWO_32
  {
    if AlignUp(off + length) - AlignDown(off) < TWO_32 {
      forall s: Suite, k: KernelSectorCipher
        ensures ReadsRight(KernelUnits(s, k), g, off, length)
      {
        forall host | Placed(g, host)
          ensures ReadOutcome(KernelUnits(s, k), g, host, off, length, NO_FAULTS)
               == (Success, Plain(KernelUnits(s, k), g, host)[off..off + length])
        {
          ReadReturnsPlain(KernelUnits(s, k), g, host, off, length);
        }
      }
    } else {
      LongReadLosesBytes(g, off, length);
    }
  }

  lemma LongReadLosesBytes(g: Geometry, off: nat, length: nat)
    requires Fits(g) && g.dataOffset % 512 == 0 && 0 < length < TWO_32 && off + length <= g.diskLength
    requires AlignUp(off + length) - AlignDown(off) >= TWO_32
    ensures !ReadsRight(KernelUnits(MaskSuite(0), Single(ANY_MODE)), g, off, length)
  {
    hide ReadOutcome, ReadSpan, KernelUnits, MaskSuite, Area;
    var host, c := Filled(g, 1), KernelUnits(MaskSuite(0), Single(ANY_MODE));
    var lo, hi := AlignDown(off), AlignUp(off + length);
    ReadIsSpan(c, g, host, off, length, NO_FAULTS);
    SpanEnds(g, off, length);
    LongSpanReadsZero(g, host, c, lo, hi, off, length);
    MaskUnits(0, g.firstUnit, Area(g, host), false);
    PlainOfOnes(g, host, c, off, length, lo + 513 - off);
  }

  lemma SpanEnds(g: Geometry, off: nat, length: nat)
    requires Fits(g) && 0 < length < TWO_32 && off + length <= g.diskLength
    requires AlignUp(off + length) - AlignDown(off) >= TWO_32
    ensures var lo, hi := AlignDown(off), AlignUp(off + length);
            && lo % 512 == 0 && hi % 512 == 0 && lo <= off < lo + 512 && off + length <= hi <= AlignUp(g.diskLength)
            && (hi - lo == TWO_32 || hi - lo == TWO_32 + 512)
            && off <= lo + 513 < off + length
  {
  }

  lemma LongSpanReadsZero(g: Geometry, host: seq<byte>, c: UnitCipher, lo: nat, hi: nat, off: nat, length: nat)
    requires Placed(g, host) && lo % 512 == 0 && hi % 512 == 0
    requires lo <= off < lo + 512 && off + length <= hi <= AlignUp(g.diskLength)
    requires 0 < length < TWO_32 && off + length <= g.diskLength && off <= lo + 513 < off + length
    requires hi - lo == TWO_32 || hi - lo == TWO_32 + 512
    requires c == KernelUnits(MaskSuite(0), Single(ANY_MODE))
    ensures var (status, bytes) := ReadSpan(c, host, SpanBetween(g, lo, hi, off, length), NO_FAULTS);
            status == Success ==> |bytes| == length && bytes[lo + 513 - off] == 0
  {
    hide KernelUnits, MaskSuite, HostRead;
    var buf := FilledBuffer(host, g.dataOffset + lo, hi - lo);
    assert buf[513] == 0;
    MaskUnits(0, g.firstUnit + lo / 512, buf, false);
    XorZero(0);
    var plain := Units(c, g.firstUnit + lo / 512, buf, false);
    assert plain[513] == 0;
    ByteOfSlice(plain, off - lo, off - lo + length, lo + 513 - off);
  }

  lemma ByteOfSlice(s: seq<byte>, from: nat, to: nat, k: nat)
    requires from <= to <= |s| && k < to - from
    ensures s[from..to][k] == s[from + k]
  {
  }

  /** A WRITE is done when the disk then reads as what was written. */
  ghost predicate WritesRight(c: UnitCipher, g: Geometry, off: nat, length: nat)
    requires Fits(g) && g.dataOffset % 512 == 0 && 0 < length < TWO_32 && off + length <= g.diskLength
  {
    forall host, data | Placed(g, host) && |data| == length ::
      WriteDone(c, g, WriteOutcome(c, g, false, host, off, data, NO_FAULTS), off, data)
  }

  predicate WriteDone(c: UnitCipher, g: Geometry, outcome: (IoStatus, seq<byte>), off: nat, data: seq<byte>)
    requires off + |data| <= g.diskLength
  {
    outcome.0 == Success && Placed(g, outcome.1) && Plain(c, g, outcome.1)[off..off + |data|] == data
  }

  /** A WRITE on the disk is done, for every suite, cipher, host file and data, exactly when the
      whole-sector span around it is shorter than 2^32. */
  lemma WritesRightIffSpanShort(g: Geometry, off: nat, length: nat)
    requires Fits(g) && g.dataOffset % 512 == 0 && 0 < length < TWO_32 && off + length <= g.diskLength
    ensures (forall s: Suite, k: KernelSectorCipher :: WritesRight(KernelUnits(s, k), g, off, length))
       <==> AlignUp(off + length) - AlignDown(off) < TWO_32
  {
    if AlignUp(off + length) - AlignDown(off) < TWO_32 {
      forall s: Suite, k: KernelSectorCipher
        ensures WritesRight(KernelUnits(s, k), g, off, length)
      {
        ShortWriteRight(KernelUnits(s, k), g, off, length);
      }
    } else {
      LongWriteWrong(g, off, length);
    }
  }

  lemma ShortWriteRight(c: UnitCipher, g: Geometry, off: nat, length: nat)
    requires Fits(g) && g.dataOffset % 512 == 0 && OnDisk(g, off, length)
    ensures WritesRight(c, g, off, length)
  {
    hide WriteOutcome, ReadOutcome, Plain, HostAfterWrite;
    forall host, data | Placed(g, host) && |data| == length
      ensures WriteDone(c, g, WriteOutcome(c, g, false, host, off, data, NO_FAULTS), off, data)
    {
      WriteStoresSpan(c, g, host, off, data);
      WriteThenRead(c, g, host, off, data);
      ReadReturnsPlain(c, g, WriteOutcome(c, g, false, host, off, data, NO_FAULTS).1, off, length);
    }
  }

  /** A WRITE with a longer span reports success all the same, and has changed no byte after its first
      sector; nothing at all when the span is exactly 2^32. */
  lemma LongWriteStoresLittle(c: UnitCipher, g: Geometry, host: seq<byte>, off: nat, data: seq<byte>)
    requires Placed(g, host) && 0 < |data| < TWO_32 && off + |data| <= g.diskLength
    requires AlignUp(off + |data|) - AlignDown(off) >= TWO_32
    ensures var (status, after) := WriteOutcome(c, g, false, host, off, data, NO_FAULTS);
            var lo := g.dataOffset + AlignDown(off);
            && status == Success && |after| == |host| && lo + 512 <= |host|
            && after[..lo] == host[..lo] && after[lo + 512..] == host[lo + 512..]
            && (AlignUp(off + |data|) - AlignDown(off) == TWO_32 ==> after == host)
  {
    hide WriteOutcome, WriteSpan;
    WriteIsSpan(c, g, host, off, data, NO_FAULTS);
    SpanEnds(g, off, |data|);
    LongSpanStoresLittle(c, g, host, AlignDown(off), AlignUp(off + |data|), off, data);
  }

  lemma LongSpanStoresLittle(c: UnitCipher, g: Geometry, host: seq<byte>, lo: nat, hi: nat, off: nat, data: seq<byte>)
    requires Placed(g, host) && lo % 512 == 0 && hi % 512 == 0
    requires lo <= off && off + |data| <= hi <= AlignUp(g.diskLength) && 0 < |data| && off + |data| <= g.diskLength
    requires hi - lo == TWO_32 || hi - lo == TWO_32 + 512
    ensures var (status, after) := WriteSpan(c, host, SpanBetween(g, lo, hi, off, |data|), data, NO_FAULTS);
            && status == Success && |after| == |host| && g.dataOffset + lo + 512 <= |host|
            && after[..g.dataOffset + lo] == host[..g.dataOffset + lo]
            && after[g.dataOffset + lo + 512..] == host[g.dataOffset + lo + 512..]
            && (hi - lo == TWO_32 ==> after == host)
  {
    hide FilledBuffer, Units, WriteAt, Splice;
    var p := SpanBetween(g, lo, hi, off, |data|);
    var buf := FilledBuffer(host, p.alignedHostOffset, p.alignedLength);
    var sent := Units(c, p.firstSectorIndex, Splice(buf, p.userDataOffset, data), true)[..Wrap32(p.alignedLength)];
    assert |sent| == hi - lo - TWO_32;
    LandsInside(host, g.dataOffset + lo, g.dataOffset + lo + 512, sent);
    if hi - lo == TWO_32 {
      assert sent == [];
      NothingLands(host, g.dataOffset + lo);
    }
  }

  lemma NothingLands(host: seq<byte>, off: nat)
    ensures WriteAt(host, off, []) == host
  {
  }

  lemma SuffixAt(s: seq<byte>, from: nat, k: nat)
    requires from + k < |s|
    ensures s[from..][k] == s[from + k]
  {
  }

  lemma LongWriteWrong(g: Geometry, off: nat, length: nat)
    requires Fits(g) && g.dataOffset % 512 == 0 && 0 < length < TWO_32 && off + length <= g.diskLength
    requires AlignUp(off + length) - AlignDown(off) >= TWO_32
    ensures !WritesRight(KernelUnits(MaskSuite(0), Single(ANY_MODE)), g, off, length)
  {
    hide WriteOutcome, KernelUnits, MaskSuite, Plain;
    var host, c := Filled(g, 1), KernelUnits(MaskSuite(0), Single(ANY_MODE));
    var data, i := Zeros(length), AlignDown(off) + 513;
    var outcome := WriteOutcome(c, g, false, host, off, data, NO_FAULTS);
    LongWriteStoresLittle(c, g, host, off, data);
    SpanEnds(g, off, length);
    var from := g.dataOffset + AlignDown(off) + 512;
    SuffixAt(outcome.1, from, 1);
    SuffixAt(host, from, 1);
    assert host[from + 1] == Area(g, host)[i] == 1;
    if WriteDone(c, g, outcome, off, data) {
      ByteOfDone(g, c, outcome, off, data, from + 1);
      assert false;
    }
  }

  /** With a cipher that does nothing the host file of a WRITE that is done holds its data. */
  lemma ByteOfDone(g: Geometry, c: UnitCipher, outcome: (IoStatus, seq<byte>), off: nat, data: seq<byte>, at: nat)
    requires c == KernelUnits(MaskSuite(0), Single(ANY_MODE)) && off + |data| <= g.diskLength
    requires WriteDone(c, g, outcome, off, data) && g.dataOffset + off <= at < g.dataOffset + off + |data|
    ensures at < |outcome.1| && outcome.1[at] == data[at - (g.dataOffset + off)]
  {
    hide KernelUnits, MaskSuite;
    var host, i := outcome.1, at - (g.dataOffset + off);
    MaskUnits(0, g.firstUnit, Area(g, host), false);
    XorZero(host[at]);
    assert Plain(c, g, host)[off..off + |data|][i] == host[at];
  }

  lemma PlainOfOnes(g: Geometry, host: seq<byte>, c: UnitCipher, off: nat, length: nat, i: nat)
    requires Placed(g, host) && off + length <= g.diskLength && i < length
    requires Plain(c, g, host) == Mask(0, Area(g, host))
    requires forall i :: 0 <= i < |Area(g, host)| ==> Area(g, host)[i] == 1
    ensures Plain(c, g, host)[off..off + length][i] == 1
  {
    hide Area;
    XorZero(1);
  }
}
