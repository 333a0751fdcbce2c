/**
 An opened volume in user mode: sector-numbered reads and writes of the volume file, and the
 latch that protects a hidden volume from writes to the outer one.
 */
module UserVolume {
  import opened Bytes
  import opened Ciphers
  import opened Tweak
  import opened Xts
  import opened Cascade
  import opened DataUnits
  import opened SectorIo
  import opened EncryptedIoQueue
  import opened FlatDisk
  import opened MaskCipher
  import opened HeaderCrypto
  import VolumeOpen
  import opened VolumeFile
  import opened HeaderFormat
  import opened HeaderSlots
  import opened PasswordChange
  import opened HeaderRestore
  import VolumeCreate

  type VolumeError = VolumeOpen.VolumeError

  /** What an opened volume reads and writes with. */
  datatype Config = Config(s: Suite, passes: seq<XtsMode>, dataOffset: u64, readOnly: bool,
                           protectedRange: Option<(u64, u64)>)

  /** What it changes: the volume file and the latch. */
  datatype DiskState = DiskState(data: seq<byte>, triggered: bool)

  /** One call to write, and what the system does if it gets as far as writing the file. */
  datatype WriteRequest = WriteRequest(sector: u64, buf: seq<byte>, fault: Option<seq<byte>>)

  /** Where a sector lies in the file, in `u64` arithmetic that wraps. */
  function HostOffset(c: Config, sector: u64): u64 {
    Wrap64(c.dataOffset + Wrap64(sector * 512))
  }

  /** `check_protected_range`. */
  predicate Overlaps(c: Config, host: u64, length: u64) {
    match c.protectedRange
    case None => false
    case Some((start, end)) => host < end && Wrap64(host + length) > start
  }

  /** Whole sectors, encrypted or decrypted under one number. */
  function Ciphered(c: Config, sector: nat, d: seq<byte>, encrypt: bool): (r: seq<byte>)
    requires |d| % 512 == 0
    ensures |r| == |d|
  {
    Transformed(c.s, c.passes, sector, d, encrypt)
  }

  /** A buffer is a Rust slice, so its length is below 2^63. */
  predicate IsSlice(buf: seq<byte>) {
    |buf| < TWO_63
  }

  /** What one write does, and answers. */
  function WriteStep(c: Config, x: DiskState, r: WriteRequest): (DiskState, Result<(), VolumeError>)
    requires IsSlice(r.buf)
  {
    var host := HostOffset(c, r.sector);
    if c.readOnly then (x, Err(VolumeOpen.Unsupported))
    else if x.triggered then (x, Err(VolumeOpen.HiddenVolumeProtection))
    else if |r.buf| % 512 != 0 then (x, Err(VolumeOpen.Unsupported))
    else if Overlaps(c, host, |r.buf|) then (x.(triggered := true), Err(VolumeOpen.HiddenVolumeProtection))
    else if r.buf == [] then (x, Err(VolumeOpen.CryptoFailed))
    else if host >= TWO_63 then (x, Err(VolumeOpen.WriteError))
    else
      match r.fault
      case None => (x.(data := WriteAt(x.data, host, Ciphered(c, r.sector, r.buf, true))), Ok(()))
      case Some(torn) =>
        (x.(data := WriteAt(x.data, host, torn[..Min(|torn|, |r.buf|)])), Err(VolumeOpen.WriteError))
  }

  /** What a write that is not refused does. */
  lemma AcceptedStep(c: Config, x: DiskState, r: WriteRequest)
    requires IsSlice(r.buf) && |r.buf| % 512 == 0
    requires !c.readOnly && !x.triggered && !Overlaps(c, HostOffset(c, r.sector), |r.buf|)
    ensures var host := HostOffset(c, r.sector);
            WriteStep(c, x, r)
            == if r.buf == [] then (x, Err(VolumeOpen.CryptoFailed))
               else if host >= TWO_63 then (x, Err(VolumeOpen.WriteError))
               else if r.fault.None? then
                 (x.(data := WriteAt(x.data, host, Ciphered(c, r.sector, r.buf, true))), Ok(()))
               else
                 (x.(data := WriteAt(x.data, host, r.fault.value[..Min(|r.fault.value|, |r.buf|)])),
                  Err(VolumeOpen.WriteError))
  {
  }

  /** What one read of `n` bytes yields. */
  function ReadStep(c: Config, data: seq<byte>, sector: u64, n: nat): Result<seq<byte>, VolumeError> {
    var host := HostOffset(c, sector);
    if n % 512 != 0 then Err(VolumeOpen.Unsupported)
    else if host >= TWO_63 then Err(VolumeOpen.ReadError)
    else if n == 0 then Err(VolumeOpen.CryptoFailed)
    else if host + n > |data| then Err(VolumeOpen.ReadError)
    else Ok(Ciphered(c, sector, data[host..host + n], false))
  }

  lemma AlignedRead(c: Config, data: seq<byte>, sector: u64, n: nat)
    requires n % 512 == 0
    ensures var host := HostOffset(c, sector);
            ReadStep(c, data, sector, n)
            == if host >= TWO_63 then Err(VolumeOpen.ReadError)
               else if n == 0 then Err(VolumeOpen.CryptoFailed)
               else if host + n > |data| then Err(VolumeOpen.ReadError)
               else Ok(Ciphered(c, sector, data[host..host + n], false))
  {
    hide Ciphered;
  }

  lemma WholeSectors(n: nat)
    requires n % 512 == 0
    ensures n % 16 == 0 && (ValidateDataLength(n).Ok? <==> n > 0)
  {
    var q := n / 512;
    assert n == 16 * (32 * q);
  }

  class OpenVolume {
    const s: Suite
    const inner: VolumeOpen.OpenResult
    const file: File
    const cipher: SectorCipher
    const readOnly: bool
    const protectedRange: Option<(u64, u64)>
    var triggered: bool

    constructor (s: Suite, inner: VolumeOpen.OpenResult, file: File, cipher: SectorCipher, readOnly: bool,
                 protectedRange: Option<(u64, u64)>)
      ensures this.s == s && this.inner == inner && this.file == file && this.cipher == cipher
      ensures this.readOnly == readOnly && this.protectedRange == protectedRange && !triggered
    {
      this.s, this.inner, this.file, this.cipher := s, inner, file, cipher;
      this.readOnly, this.protectedRange, this.triggered := readOnly, protectedRange, false;
    }

    ghost function Settings(): Config {
      Config(s, UserPasses(cipher), inner.dataOffset, readOnly, protectedRange)
    }

    ghost function State(): DiskState
      reads this, file
    {
      DiskState(file.data, triggered)
    }

    method CheckProtectedRange(host: u64, length: u64) returns (r: bool)
      ensures r == Overlaps(Settings(), host, length)
    {
      match protectedRange
      case None => return false;
      case Some((start, end)) =>
        var writeEnd := Wrap64(host + length);
        return host < end && writeEnd > start;
    }

    method Write(sector: u64, buf: seq<byte>) returns (r: Result<(), VolumeError>)
      requires IsSlice(buf) && UserPasses(cipher) != []
      modifies this, file
      ensures (State(), r) == old(WriteStep(Settings(), State(), WriteRequest(sector, buf, file.faults(file.calls))))
    {
      hide Transformed;
      if readOnly {
        return Err(VolumeOpen.Unsupported);
      }
      if triggered {
        return Err(VolumeOpen.HiddenVolumeProtection);
      }
      if |buf| % 512 != 0 {
        return Err(VolumeOpen.Unsupported);
      }
      var hostOffset := Wrap64(inner.dataOffset + Wrap64(sector * 512));
      var overlaps := CheckProtectedRange(hostOffset, |buf|);
      if overlaps {
        triggered := true;
        return Err(VolumeOpen.HiddenVolumeProtection);
      }
      r := WriteSectors(sector, buf);
    }

    method WriteSectors(sector: u64, buf: seq<byte>) returns (r: Result<(), VolumeError>)
      requires IsSlice(buf) && UserPasses(cipher) != [] && |buf| % 512 == 0
      requires !readOnly && !triggered && !Overlaps(Settings(), HostOffset(Settings(), sector), |buf|)
      modifies file
      ensures (State(), r) == old(WriteStep(Settings(), State(), WriteRequest(sector, buf, file.faults(file.calls))))
    {
      hide Transformed, Splice, Overlaps, WriteStep, WriteAt, ValidateDataLength;
      WholeSectors(|buf|);
      AcceptedStep(Settings(), State(), WriteRequest(sector, buf, file.faults(file.calls)));
      var pos := Wrap64(inner.dataOffset + Wrap64(sector * 512));
      assert pos == HostOffset(Settings(), sector);
      hide HostOffset;
      var encrypted := new byte[|buf|](i requires 0 <= i < |buf| => buf[i]);
      assert encrypted[..] == buf && encrypted[0..|buf|] == buf;
      var done := UserSector(s, cipher, sector, encrypted, 0, |buf|, true);
      if done.Err? {
        return Err(VolumeOpen.CryptoFailed);
      }
      SpliceAll(buf, Ciphered(Settings(), sector, buf, true));
      assert encrypted[..] == Ciphered(Settings(), sector, buf, true);
      var sought := file.SeekStart(pos);
      if !sought {
        return Err(VolumeOpen.WriteError);
      }
      var ok := file.WriteAll(encrypted[..]);
      r := if ok then Ok(()) else Err(VolumeOpen.WriteError);
    }

    /** Fills `buf` with the plaintext, or fails; the file is not changed. */
    method Read(sector: u64, buf: array<byte>) returns (r: Result<(), VolumeError>)
      requires UserPasses(cipher) != []
      modifies buf, file`position
      ensures r.Ok? <==> old(ReadStep(Settings(), file.data, sector, buf.Length)).Ok?
      ensures r.Ok? ==> Ok(buf[..]) == old(ReadStep(Settings(), file.data, sector, buf.Length))
      ensures r.Err? ==> r.error == old(ReadStep(Settings(), file.data, sector, buf.Length)).error
    {
      hide Transformed, Splice, Overlaps;
      if buf.Length % 512 != 0 {
        return Err(VolumeOpen.Unsupported);
      }
      AlignedRead(Settings(), file.data, sector, buf.Length);
      hide ReadStep, Ciphered;
      var pos := Wrap64(inner.dataOffset + Wrap64(sector * 512));
      assert pos == HostOffset(Settings(), sector);
      hide HostOffset;
      var sought := file.SeekStart(pos);
      if !sought {
        return Err(VolumeOpen.ReadError);
      }
      var got := file.ReadExact(buf.Length);
      if got.None? {
        return Err(VolumeOpen.ReadError);
      }
      r := DecryptInto(sector, buf, got.value);
    }

    method DecryptInto(sector: u64, buf: array<byte>, got: seq<byte>) returns (r: Result<(), VolumeError>)
      requires UserPasses(cipher) != [] && |got| == buf.Length && |got| % 512 == 0
      modifies buf
      ensures r == if |got| == 0 then Err(VolumeOpen.CryptoFailed) else Ok(())
      ensures r.Ok? ==> buf[..] == Ciphered(Settings(), sector, got, false)
    {
      hide Transformed, Splice, ValidateDataLength;
      WholeSectors(|got|);
      SpliceAll(buf[..], got);
      Store(buf, 0, got);
      assert buf[..] == got && buf[0..buf.Length] == got;
      var done := UserSector(s, cipher, sector, buf, 0, buf.Length, false);
      if done.Err? {
        return Err(VolumeOpen.CryptoFailed);
      }
      SpliceAll(got, Transformed(s, UserPasses(cipher), sector, got, false));
      return Ok(());
    }
  }

  // ------------------------------------------------------------------ opening with protection

  /** The outer volume, and the range its writes must keep out of. */
  function Protection(p: Primitives, data: seq<byte>, outerPassword: seq<byte>, outerKdfs: seq<KdfCandidate>,
                      hiddenPassword: seq<byte>)
    : Result<(VolumeOpen.OpenResult, (u64, u64)), VolumeError>
    requires |data| < TWO_64
  {
    match VolumeOpen.Open(p, data, outerPassword, outerKdfs)
    case Err(e) => Err(e)
    case Ok(outer) =>
      if outer.volumeType != VolumeOpen.Normal then Err(VolumeOpen.Unsupported)
      else
        match VolumeOpen.Open(p, data, hiddenPassword, VolumeOpen.AutoCandidates(p, Some(0)))
        case Err(e) => Err(e)
        case Ok(hidden) =>
          if hidden.volumeType != VolumeOpen.Hidden then Err(VolumeOpen.AuthFailed)
          else Ok((outer, (hidden.dataOffset, Wrap64(hidden.dataOffset + hidden.dataLength))))
  }

  /** `open_with_protection`, with keyfiles mixed into the passwords. */
  method OpenWithProtection(p: Primitives, file: File, outerPassword: seq<byte>, outerKdf: Option<KdfAlgorithm>,
                            outerPim: Option<int>, hiddenPassword: seq<byte>)
    returns (r: Result<OpenVolume, VolumeError>)
    requires |file.data| < TWO_63
    ensures var expected := Protection(p, file.data, outerPassword, Derivations(p, outerKdf, outerPim), hiddenPassword);
            && (r.Ok? <==> expected.Ok?)
            && (r.Err? ==> r.error == expected.error)
            && (r.Ok? ==>
                && fresh(r.value) && r.value.file == file && r.value.s == p.suite && r.value.inner == expected.value.0
                && |r.value.inner.masterKey| == 2 * KeySize(r.value.inner.dataCipher)
                && UserPasses(r.value.cipher) == Passes(r.value.inner.dataCipher, r.value.inner.masterKey) != []
                && r.value.protectedRange == Some(expected.value.1)
                && !r.value.readOnly && !r.value.triggered)
  {
    hide VolumeOpen.Open, Passes;
    var outer := VolumeOpen.SearchFile(p, file.data, outerPassword, Derivations(p, outerKdf, outerPim));
    if outer.Err? {
      return Err(outer.error);
    }
    if outer.value.volumeType != VolumeOpen.Normal {
      return Err(VolumeOpen.Unsupported);
    }
    var hidden := VolumeOpen.OpenVolumeFile(p, file.data, hiddenPassword, Some(0));
    if hidden.Err? {
      return Err(hidden.error);
    }
    if hidden.value.volumeType != VolumeOpen.Hidden {
      return Err(VolumeOpen.AuthFailed);
    }
    KeyFitsCipher(p, file.data, outerPassword, Derivations(p, outerKdf, outerPim));
    var cipher := CreateSectorCipher(outer.value.dataCipher, outer.value.masterKey);
    if cipher.Err? {
      return Err(VolumeOpen.CryptoFailed);
    }
    var end := Wrap64(hidden.value.dataOffset + hidden.value.dataLength);
    var v := new OpenVolume(p.suite, outer.value, file, cipher.value, false, Some((hidden.value.dataOffset, end)));
    return Ok(v);
  }

  /** Protection is set up exactly when the outer password opens a normal volume and the hidden one, with no
      algorithm named and no multiplier, a hidden volume. */
  lemma ProtectionExactly(p: Primitives, data: seq<byte>, outerPassword: seq<byte>, outerKdfs: seq<KdfCandidate>,
                          hiddenPassword: seq<byte>)
    requires |data| < TWO_64
    ensures var outer := VolumeOpen.Open(p, data, outerPassword, outerKdfs);
            var hidden := VolumeOpen.Open(p, data, hiddenPassword, VolumeOpen.AutoCandidates(p, None));
            var r := Protection(p, data, outerPassword, outerKdfs, hiddenPassword);
            && (r.Ok? <==> && outer.Ok? && outer.value.volumeType == VolumeOpen.Normal
                           && hidden.Ok? && hidden.value.volumeType == VolumeOpen.Hidden)
            && (r.Ok? ==> r.value.0 == outer.value)
            && (outer.Ok? && outer.value.volumeType == VolumeOpen.Hidden ==> r == Err(VolumeOpen.Unsupported))
            && (outer.Ok? && outer.value.volumeType == VolumeOpen.Normal ==>
                hidden.Ok? && hidden.value.volumeType == VolumeOpen.Normal ==> r == Err(VolumeOpen.AuthFailed))
  {
    hide VolumeOpen.Open;
    assert VolumeOpen.AutoCandidates(p, None) == VolumeOpen.AutoCandidates(p, Some(0));
  }

  lemma KeyFitsCipher(p: Primitives, data: seq<byte>, password: seq<byte>, kdfs: seq<KdfCandidate>)
    requires |data| < TWO_64 && VolumeOpen.Open(p, data, password, kdfs).Ok?
    ensures var r := VolumeOpen.Open(p, data, password, kdfs).value;
            |r.masterKey| == 2 * KeySize(r.dataCipher)
  {
    hide VolumeOpen.FileAttempts, VolumeOpen.FirstSuccess;
    FoundIsConsistent(p, password, VolumeOpen.FileAttempts(data, kdfs));
  }

  // ------------------------------------------------------------------ the latch over whole runs

  function WriteRun(c: Config, x: DiskState, rs: seq<WriteRequest>): (DiskState, seq<Result<(), VolumeError>>)
    requires forall r :: r in rs ==> IsSlice(r.buf)
    decreases |rs|
  {
    if rs == [] then (x, []) else
      var (next, answer) := WriteStep(c, x, rs[0]);
      var (end, answers) := WriteRun(c, next, rs[1..]);
      (end, [answer] + answers)
  }

  /** Bytes the file had in a range, still there. */
  predicate RangeKept(before: seq<byte>, after: seq<byte>, start: nat, end: nat) {
    |before| <= |after| && forall i :: start <= i < end && i < |before| ==> after[i] == before[i]
  }

  lemma WriteAtKeeps(data: seq<byte>, off: nat, d: seq<byte>, start: nat, end: nat)
    requires d == [] || end <= off || off + |d| <= start || start >= end
    ensures RangeKept(data, WriteAt(data, off, d), start, end)
  {
  }

  /** One write cannot change the protected range, and a write that is refused changes nothing. */
  lemma StepKeepsRange(c: Config, x: DiskState, r: WriteRequest)
    requires IsSlice(r.buf)
    ensures var (after, answer) := WriteStep(c, x, r);
            && (c.protectedRange.Some? ==>
                RangeKept(x.data, after.data, c.protectedRange.value.0, c.protectedRange.value.1))
            && (answer.Err? && answer.error != VolumeOpen.WriteError ==> after.data == x.data)
            && (x.triggered ==> after == x && answer.Err?)
  {
    hide WriteAt, Ciphered, HostOffset, Overlaps;
    var host := HostOffset(c, r.sector);
    if c.protectedRange.Some? {
      var (start, end) := c.protectedRange.value;
      WriteAtKeeps(x.data, 0, [], start, end);
      if !Overlaps(c, host, |r.buf|) && host < TWO_63 && |r.buf| % 512 == 0 {
        var landed :=
          if r.fault.Some? then r.fault.value[..Min(|r.fault.value|, |r.buf|)] else Ciphered(c, r.sector, r.buf, true);
        NotOverlapping(c, host, |r.buf|, start, end);
        WriteAtKeeps(x.data, host, landed, start, end);
      }
    }
  }

  lemma NotOverlapping(c: Config, host: u64, length: u64, start: u64, end: u64)
    requires c.protectedRange == Some((start, end)) && !Overlaps(c, host, length) && host < TWO_63 && length < TWO_63
    ensures end <= host || host + length <= start
  {
  }

  /** Over every run of writes, failing ones included, no byte of the hidden volume changes. */
  lemma {:induction false} ProtectedRangeNeverChanges(c: Config, x: DiskState, rs: seq<WriteRequest>)
    requires c.protectedRange.Some? && forall r :: r in rs ==> IsSlice(r.buf)
    ensures RangeKept(x.data, WriteRun(c, x, rs).0.data, c.protectedRange.value.0, c.protectedRange.value.1)
    decreases |rs|
  {
    hide WriteStep;
    if rs != [] {
      assert rs[0] in rs;
      StepKeepsRange(c, x, rs[0]);
      ProtectedRangeNeverChanges(c, WriteStep(c, x, rs[0]).0, rs[1..]);
    }
  }

  /** Once the latch has been set every write is refused, and file and latch stay as they are. */
  lemma {:induction false} NothingAfterTrigger(c: Config, x: DiskState, rs: seq<WriteRequest>)
    requires x.triggered && forall r :: r in rs ==> IsSlice(r.buf)
    ensures WriteRun(c, x, rs).0 == x
    ensures forall i :: 0 <= i < |WriteRun(c, x, rs).1| ==> WriteRun(c, x, rs).1[i].Err?
    decreases |rs|
  {
    hide WriteStep;
    if rs != [] {
      assert rs[0] in rs;
      StepKeepsRange(c, x, rs[0]);
      NothingAfterTrigger(c, x, rs[1..]);
    }
  }

  predicate Within(lo: int, i: int, hi: int) {
    lo <= i < hi
  }

  /** Two stretches of bytes have a byte in common. */
  lemma CommonByte(a: nat, b: nat, c: nat, d: nat)
    requires a < b && c < d
    ensures a < d && c < b <==> exists i: int :: Within(a, i, b) && Within(c, i, d)
  {
    if a < d && c < b {
      assert Within(a, Max(a, c), b) && Within(c, Max(a, c), d);
    }
  }

  /** What a write of whole sectors to a writable, protected volume does whose latch is not set and whose
      end does not wrap: the latch is set, and nothing else done, exactly when some byte of the write is
      a byte of the range; every other write is carried out, or fails because of the system. */
  lemma LatchSetExactly(c: Config, x: DiskState, r: WriteRequest, start: u64, end: u64)
    requires !c.readOnly && !x.triggered && c.protectedRange == Some((start, end)) && start < end
    requires |r.buf| % 512 == 0 && 0 < |r.buf| < TWO_63 && c.dataOffset + 512 * r.sector + |r.buf| < TWO_64
    ensures var host := c.dataOffset + 512 * r.sector;
            var (after, answer) := WriteStep(c, x, r);
            && (after.triggered <==> exists i: int :: Within(host, i, host + |r.buf|) && Within(start, i, end))
            && (after.triggered ==> answer == Err(VolumeOpen.HiddenVolumeProtection) && after.data == x.data)
            && (!after.triggered ==>
                && (answer == Ok(()) <==> host < TWO_63 && r.fault.None?)
                && (answer.Err? ==> answer.error == VolumeOpen.WriteError)
                && (answer == Ok(()) ==>
                    after.data == WriteAt(x.data, host, Ciphered(c, r.sector, r.buf, true))))
  {
    hide Ciphered, WriteAt;
    NoWrapBelow(c, r.sector, |r.buf|);
    CommonByte(c.dataOffset + 512 * r.sector, c.dataOffset + 512 * r.sector + |r.buf|, start, end);
  }

  lemma NoWrapBelow(c: Config, sector: u64, length: nat)
    requires c.dataOffset + 512 * sector + length < TWO_64
    ensures HostOffset(c, sector) == c.dataOffset + 512 * sector
    ensures Wrap64(HostOffset(c, sector) + length) == HostOffset(c, sector) + length
  {
  }

  /** Whatever wraps, and however small the range: the place of the write and its end are taken modulo 2^64. */
  lemma LatchSetWrapping(c: Config, x: DiskState, r: WriteRequest)
    requires !c.readOnly && !x.triggered && |r.buf| % 512 == 0 && |r.buf| < TWO_63
    ensures var host := (c.dataOffset + 512 * r.sector % 0x1_0000_0000_0000_0000) % 0x1_0000_0000_0000_0000;
            WriteStep(c, x, r).0.triggered
            <==> c.protectedRange.Some? && host < c.protectedRange.value.1
                 && (host + |r.buf|) % 0x1_0000_0000_0000_0000 > c.protectedRange.value.0
  {
    hide Ciphered, WriteAt;
  }

  /** A write of whole sectors to a writable volume that would reach into the protected range. */
  predicate Trespasses(c: Config, r: WriteRequest)
    requires IsSlice(r.buf)
  {
    !c.readOnly && |r.buf| % 512 == 0 && Overlaps(c, HostOffset(c, r.sector), |r.buf|)
  }

  lemma TriggerExact(c: Config, x: DiskState, r: WriteRequest)
    requires IsSlice(r.buf) && !x.triggered
    ensures WriteStep(c, x, r).0.triggered <==> Trespasses(c, r)
  {
  }

  /** Whether the latch is set after a run is a matter of the requests alone: it is exactly when one of
      them, succeeding or not, trespassed. */
  lemma {:induction false} TriggeredIff(c: Config, x: DiskState, rs: seq<WriteRequest>)
    requires !x.triggered && forall r :: r in rs ==> IsSlice(r.buf)
    ensures WriteRun(c, x, rs).0.triggered <==> exists r :: r in rs && Trespasses(c, r)
    decreases |rs|
  {
    hide WriteStep, Trespasses;
    if rs != [] {
      var r, rest := rs[0], rs[1..];
      assert rs == [r] + rest && r in rs;
      TriggerExact(c, x, r);
      if Trespasses(c, r) {
        NothingAfterTrigger(c, WriteStep(c, x, r).0, rest);
      } else {
        TriggeredIff(c, WriteStep(c, x, r).0, rest);
      }
    }
  }

  /** From the first request that trespasses on, every write is refused and the file stays as the
      requests before had left it. */
  lemma {:induction false} FrozenFromTrespass(c: Config, x: DiskState, before: seq<WriteRequest>, r: WriteRequest,
                                              after: seq<WriteRequest>)
    requires forall q :: q in before + [r] + after ==> IsSlice(q.buf)
    requires IsSlice(r.buf) && (forall q :: q in before ==> IsSlice(q.buf)) && Trespasses(c, r)
    ensures var (end, answers) := WriteRun(c, x, before + [r] + after);
            && end == WriteRun(c, x, before).0.(triggered := true)
            && |answers| == |before| + 1 + |after|
            && forall i :: |before| <= i < |answers| ==> answers[i].Err?
    decreases |before|
  {
    hide WriteStep;
    var all := before + [r] + after;
    if before == [] {
      assert all[0] == r && all[1..] == after;
      TrespassStops(c, x, r);
      NothingAfterTrigger(c, WriteStep(c, x, r).0, after);
      AnswerEach(c, WriteStep(c, x, r).0, after);
    } else {
      assert all[0] == before[0] && all[1..] == before[1..] + [r] + after;
      FrozenFromTrespass(c, WriteStep(c, x, before[0]).0, before[1..], r, after);
    }
  }

  lemma TrespassStops(c: Config, x: DiskState, r: WriteRequest)
    requires IsSlice(r.buf) && Trespasses(c, r)
    ensures WriteStep(c, x, r).0 == x.(triggered := true) && WriteStep(c, x, r).1.Err?
  {
  }

  lemma {:induction false} AnswerEach(c: Config, x: DiskState, rs: seq<WriteRequest>)
    requires forall r :: r in rs ==> IsSlice(r.buf)
    ensures |WriteRun(c, x, rs).1| == |rs|
    decreases |rs|
  {
    hide WriteStep;
    if rs != [] {
      AnswerEach(c, WriteStep(c, x, rs[0]).0, rs[1..]);
    }
  }

  // ------------------------------------------------------------------ one sector at a time

  /** Sector `n` lies in the file, and nothing wraps on the way to it. */
  predicate Inside(c: Config, data: seq<byte>, n: nat) {
    c.dataOffset + n * 512 + 512 <= |data| < TWO_63
  }

  /** The plaintext of a sector. */
  function PlainSector(c: Config, data: seq<byte>, n: nat): (r: seq<byte>)
    requires Inside(c, data, n)
    ensures |r| == 512
  {
    Ciphered(c, n, data[c.dataOffset + n * 512..c.dataOffset + n * 512 + 512], false)
  }

  lemma NoWrapInside(c: Config, data: seq<byte>, n: nat)
    requires Inside(c, data, n)
    ensures n < TWO_64 && HostOffset(c, n) == c.dataOffset + n * 512
  {
  }

  /** Reading one sector gives its plaintext; writing one sector that is not refused replaces its
      plaintext and no other sector's. */
  lemma SectorsAreIndependent(c: Config, x: DiskState, n: nat, m: nat, buf: seq<byte>)
    requires Inside(c, x.data, n) && Inside(c, x.data, m) && |buf| == 512
    requires !c.readOnly && !x.triggered && !Overlaps(c, c.dataOffset + n * 512, 512)
    ensures n < TWO_64 && m < TWO_64
    ensures ReadStep(c, x.data, m, 512) == Ok(PlainSector(c, x.data, m))
    ensures var (after, answer) := WriteStep(c, x, WriteRequest(n, buf, None));
            && answer == Ok(()) && !after.triggered && Inside(c, after.data, m) && |after.data| == |x.data|
            && PlainSector(c, after.data, m) == if m == n then buf else PlainSector(c, x.data, m)
  {
    hide RunPasses, UndoPasses, Splice, HostOffset, Overlaps, WriteAt;
    NoWrapInside(c, x.data, n);
    NoWrapInside(c, x.data, m);
    var host, enc := c.dataOffset + n * 512, Ciphered(c, n, buf, true);
    SpliceParts(x.data, host, enc);
    UndoRun(c.s, c.passes, n, buf);
    if m != n {
      SliceBesideSplice(x.data, host, enc, c.dataOffset + m * 512, c.dataOffset + m * 512 + 512);
    }
  }

  /** The driver's disk over the same file, cipher and key has the same sectors. */
  lemma DriverSeesSameSectors(s: Suite, k: KernelSectorCipher, c: Config, g: Geometry, host: seq<byte>, n: nat)
    requires c.s == s && c.passes == PassesOf(k) && c.dataOffset == g.dataOffset && g.firstUnit == 0
    requires Placed(g, host) && Inside(c, host, n) && n * 512 + 512 <= AlignUp(g.diskLength)
    ensures Plain(KernelUnits(s, k), g, host)[n * 512..n * 512 + 512] == PlainSector(c, host, n)
  {
    hide KernelUnits, Transformed, Placed;
    var area, lo := FlatDisk.Area(g, host), n * 512;
    AreaSlice(g, host, lo, lo + 512);
    UnitsSlice(KernelUnits(s, k), 0, area, lo, lo + 512, false);
    var unit := area[lo..lo + 512];
    assert unit[..512] == unit && unit[512..] == [];
    assert lo / 512 == n;
    KernelUnitsStand(s, k);
    OneUnitOfMany(KernelUnits(s, k), n, unit);
  }

  lemma OneUnitOfMany(c: UnitCipher, n: nat, unit: seq<byte>)
    requires |unit| == 512
    ensures Units(c, n, unit, false) == OneUnit(c, n, unit, false)
  {
    assert unit[..512] == unit && unit[512..] == [];
    assert Units(c, n, unit, false) == OneUnit(c, n, unit, false) + Units(c, n + 1, [], false);
  }

  /** A read exactly: it succeeds for a non-empty buffer of whole sectors that lies in the file, where the
      offset does not wrap, and decrypts what lies there under the number of its first sector. */
  lemma ReadExactly(c: Config, data: seq<byte>, sector: u64, n: nat)
    requires c.dataOffset + 512 * sector < TWO_64
    ensures var host, r := c.dataOffset + 512 * sector, ReadStep(c, data, sector, n);
            && (r.Ok? <==> n > 0 && n % 512 == 0 && host < TWO_63 && host + n <= |data|)
            && (r.Ok? ==> r == Ok(Ciphered(c, sector, data[host..host + n], false)))
            && (n % 512 != 0 ==> r == Err(VolumeOpen.Unsupported))
            && (n % 512 == 0 && (host >= TWO_63 || (n > 0 && host + n > |data|)) ==> r == Err(VolumeOpen.ReadError))
            && (n == 0 && host < TWO_63 ==> r == Err(VolumeOpen.CryptoFailed))
  {
    hide Ciphered;
    NoWrapBelow(c, sector, 0);
  }

  // ------------------------------------------------------------------ runs of single sectors

  /** A sector, what to write to it, and what a write that fails puts down. */
  datatype SectorWrite = SectorWrite(sector: nat, buf: seq<byte>, fault: Option<seq<byte>>)

  /** A disk of whole sectors with the latch; what a failed write has left in a sector is not known. */
  datatype SectorDisk = SectorDisk(sectors: seq<Option<seq<byte>>>, triggered: bool)

  function DiskWrite(c: Config, d: SectorDisk, w: SectorWrite): (SectorDisk, Result<(), VolumeError>)
    requires w.sector < |d.sectors| && Wrap64(c.dataOffset + w.sector * 512) == c.dataOffset + w.sector * 512
  {
    if c.readOnly then (d, Err(VolumeOpen.Unsupported))
    else if d.triggered then (d, Err(VolumeOpen.HiddenVolumeProtection))
    else if Overlaps(c, c.dataOffset + w.sector * 512, 512) then
      (d.(triggered := true), Err(VolumeOpen.HiddenVolumeProtection))
    else if w.fault.None? then (d.(sectors := d.sectors[w.sector := Some(w.buf)]), Ok(()))
    else (d.(sectors := d.sectors[w.sector := None]), Err(VolumeOpen.WriteError))
  }

  /** Writes of one sector each, to the first `count`, none of whose offsets wraps. */
  predicate SectorWrites(c: Config, count: nat, writes: seq<SectorWrite>) {
    && c.dataOffset + count * 512 < TWO_63
    && forall w :: w in writes ==> w.sector < count && |w.buf| == 512
  }

  function DiskRun(c: Config, d: SectorDisk, writes: seq<SectorWrite>): (SectorDisk, seq<Result<(), VolumeError>>)
    requires SectorWrites(c, |d.sectors|, writes)
    decreases |writes|
  {
    if writes == [] then (d, []) else
      assert writes[0] in writes;
      var (next, answer) := DiskWrite(c, d, writes[0]);
      var (end, answers) := DiskRun(c, next, writes[1..]);
      (end, [answer] + answers)
  }

  function AsRequest(w: SectorWrite): WriteRequest
    requires w.sector < TWO_64
  {
    WriteRequest(w.sector, w.buf, w.fault)
  }

  function Requests(c: Config, count: nat, writes: seq<SectorWrite>): (r: seq<WriteRequest>)
    requires SectorWrites(c, count, writes)
    ensures |r| == |writes|
    ensures forall q :: q in r ==> IsSlice(q.buf)
  {
    seq(|writes|, i requires 0 <= i < |writes| => assert writes[i] in writes; AsRequest(writes[i]))
  }

  /** The file and the latch stand for the disk, as far as its sectors are known. */
  ghost predicate StandsFor(c: Config, x: DiskState, d: SectorDisk) {
    && x.triggered == d.triggered
    && forall m :: 0 <= m < |d.sectors| ==>
         && Inside(c, x.data, m)
         && (d.sectors[m].Some? ==> d.sectors[m].value == PlainSector(c, x.data, m))
  }

  lemma FailedSectorWrite(c: Config, x: DiskState, n: nat, m: nat, torn: seq<byte>)
    requires Inside(c, x.data, n) && Inside(c, x.data, m) && |torn| <= 512
    ensures var after := WriteAt(x.data, c.dataOffset + n * 512, torn);
            Inside(c, after, m) && (m != n ==> PlainSector(c, after, m) == PlainSector(c, x.data, m))
  {
    hide Transformed, Splice, WriteAt;
    if m != n {
      var lo := c.dataOffset + m * 512;
      SliceBesideSplice(x.data, c.dataOffset + n * 512, torn, lo, lo + 512);
    }
  }

  lemma OneSectorRefines(c: Config, x: DiskState, d: SectorDisk, w: SectorWrite)
    requires SectorWrites(c, |d.sectors|, [w]) && StandsFor(c, x, d)
    ensures w in [w] && w.sector < TWO_64
    ensures var (after, answer) := WriteStep(c, x, AsRequest(w));
            StandsFor(c, after, DiskWrite(c, d, w).0) && answer == DiskWrite(c, d, w).1
  {
    hide PlainSector, Overlaps, Ciphered, WriteAt, HostOffset;
    assert w in [w];
    var n, after := w.sector, WriteStep(c, x, AsRequest(w)).0;
    NoWrapInside(c, x.data, n);
    if !c.readOnly && !x.triggered && !Overlaps(c, c.dataOffset + n * 512, 512) {
      forall m | 0 <= m < |d.sectors|
        ensures Inside(c, after.data, m)
        ensures m != n ==> PlainSector(c, after.data, m) == PlainSector(c, x.data, m)
        ensures m == n && w.fault.None? ==> PlainSector(c, after.data, m) == w.buf
      {
        if w.fault.None? {
          SectorsAreIndependent(c, x, n, m, w.buf);
        } else {
          FailedSectorWrite(c, x, n, m, w.fault.value[..Min(|w.fault.value|, 512)]);
        }
      }
    }
  }

  /** Over every run of single-sector writes, with a protected range or without, whichever of them
      fail and whatever they leave, the answers are those of the disk of sectors and the file
      still stands for it. */
  lemma {:induction false} SectorRunsRefine(c: Config, x: DiskState, d: SectorDisk, writes: seq<SectorWrite>)
    requires SectorWrites(c, |d.sectors|, writes) && StandsFor(c, x, d)
    ensures var (end, answers) := WriteRun(c, x, Requests(c, |d.sectors|, writes));
            var (disk, expected) := DiskRun(c, d, writes);
            answers == expected && |disk.sectors| == |d.sectors| && StandsFor(c, end, disk)
    decreases |writes|
  {
    hide WriteStep, DiskWrite, StandsFor;
    if writes != [] {
      var w, requests := writes[0], Requests(c, |d.sectors|, writes);
      assert w in writes && forall v :: v in writes[1..] ==> v in writes;
      OneSectorRefines(c, x, d, w);
      DiskKeepsCount(c, d, w);
      SectorRunsRefine(c, WriteStep(c, x, AsRequest(w)).0, DiskWrite(c, d, w).0, writes[1..]);
      assert requests[0] == AsRequest(w) && requests[1..] == Requests(c, |d.sectors|, writes[1..]);
    }
  }

  lemma DiskKeepsCount(c: Config, d: SectorDisk, w: SectorWrite)
    requires w.sector < |d.sectors| && Wrap64(c.dataOffset + w.sector * 512) == c.dataOffset + w.sector * 512
    ensures |DiskWrite(c, d, w).0.sectors| == |d.sectors|
  {
  }

  /** So after any run a known sector reads back as it was last written or was at first. */
  lemma ReadAfterRun(c: Config, x: DiskState, d: SectorDisk, writes: seq<SectorWrite>, n: nat)
    requires SectorWrites(c, |d.sectors|, writes) && StandsFor(c, x, d) && n < |d.sectors|
    ensures var end, disk := WriteRun(c, x, Requests(c, |d.sectors|, writes)).0, DiskRun(c, d, writes).0;
            |disk.sectors| == |d.sectors|
            && (disk.sectors[n].Some? ==> n < TWO_64 && ReadStep(c, end.data, n, 512) == Ok(disk.sectors[n].value))
  {
    hide WriteRun, DiskRun, Ciphered, HostOffset;
    SectorRunsRefine(c, x, d, writes);
    var end := WriteRun(c, x, Requests(c, |d.sectors|, writes)).0;
    NoWrapInside(c, end.data, n);
  }

  // ------------------------------------------------------------------ several sectors in one call

  /** One accepted write of a buffer of `k` sectors. */
  predicate AcceptedWrite(c: Config, x: DiskState, n: nat, buf: seq<byte>, k: nat) {
    && |buf| == 512 * k && k > 0 && Inside(c, x.data, n + k - 1)
    && !c.readOnly && !x.triggered && !Overlaps(c, c.dataOffset + n * 512, 512 * k)
  }

  /** After it, every sector read on its own gives its part of the buffer. */
  ghost predicate SectorsHold(c: Config, x: DiskState, n: nat, buf: seq<byte>, k: nat)
    requires AcceptedWrite(c, x, n, buf, k)
  {
    NoWrapInside(c, x.data, n);
    var after := WriteStep(c, x, WriteRequest(n, buf, None)).0;
    forall i: nat :: i < k ==>
      && Inside(c, after.data, n + i)
      && PlainSector(c, after.data, n + i) == buf[i * 512..i * 512 + 512]
  }

  /** A block cipher that turns blocks end to end: under it the tweak matters. */
  function Turned(b: Block): Block {
    seq(16, i requires 0 <= i < 16 => b[15 - i])
  }

  function TurningSuite(): Suite {
    var s := RawSuite((ct: CipherType, key: seq<byte>, b: Block) => Turned(b),
                      (ct: CipherType, key: seq<byte>, b: Block) => Turned(b));
    assert forall b: Block :: Turned(Turned(b)) == b;
    s
  }

  lemma ZeroTweak()
    ensures FirstTweak(TurningSuite(), ANY_MODE, 0) == Zeros(16)
  {
    hide Double;
    ZeroNumber(8);
  }

  lemma {:induction false} ZeroNumber(k: nat)
    ensures LeBytes(0, k) == Zeros(k)
  {
    if k > 0 {
      ZeroNumber(k - 1);
    }
  }

  /** Under the zero tweak zeros stay zeros, however many blocks there are. */
  lemma {:induction false} ZerosStay(data: seq<byte>)
    requires Whole(data) && data == Zeros(|data|)
    ensures EncryptFrom(TurningSuite(), ANY_MODE, Zeros(16), data) == data
    decreases |data|
  {
    hide Double;
    if data != [] {
      XorZeros(Zeros(16));
      assert data[..16] == Zeros(16) && Turned(Zeros(16)) == Zeros(16);
      DoubleOfZero();
      ZerosStay(data[16..]);
    }
  }

  lemma TweakOfOne()
    ensures FirstTweak(TurningSuite(), ANY_MODE, 1)[0] == 0 && FirstTweak(TurningSuite(), ANY_MODE, 1)[15] == 1
  {
    assert LeBytes(1, 8)[0] == 1;
  }

  /** Read as sector 1, zeros are not zeros. */
  lemma ZerosReadAsSectorOne()
    ensures DecryptFrom(TurningSuite(), ANY_MODE, FirstTweak(TurningSuite(), ANY_MODE, 1), Zeros(512))[0] == 1
  {
    hide FirstTweak, Double;
    var t := FirstTweak(TurningSuite(), ANY_MODE, 1);
    TweakOfOne();
    assert Zeros(512)[..16] == Zeros(16);
    FirstOfTurned(t);
  }

  lemma FirstOfTurned(t: Block)
    requires t[0] == 0 && t[15] == 1
    ensures DecryptBlock(TurningSuite(), ANY_MODE, t, Zeros(16))[0] == 1
  {
    XorCommutes(0, 1);
    XorZero(1);
  }

  /** The buffer is encrypted under the number of its first sector alone: for every volume, file
      and buffer the sectors it covers read back one by one exactly when it covers only one. */
  lemma SectorsHoldIffOne(k: nat)
    requires k > 0 && 512 * k < TWO_63
    ensures (forall c, x, n: nat, buf :: AcceptedWrite(c, x, n, buf, k) ==> SectorsHold(c, x, n, buf, k)) <==> k == 1
  {
    if k == 1 {
      forall c, x, n: nat, buf | AcceptedWrite(c, x, n, buf, 1)
        ensures SectorsHold(c, x, n, buf, 1)
      {
        hide PlainSector, Overlaps, WriteStep;
        SectorsAreIndependent(c, x, n, n, buf);
        assert buf[0 * 512..0 * 512 + 512] == buf;
      }
    } else {
      SecondSectorWrong(k);
    }
  }

  const TURNING := Config(TurningSuite(), [ANY_MODE], 0, false, None)

  lemma ZerosWritten(k: nat)
    requires 0 < k && 512 * k < TWO_63
    ensures AcceptedWrite(TURNING, DiskState(Zeros(512 * k), false), 0, Zeros(512 * k), k)
    ensures var zeros := Zeros(512 * k);
            WriteStep(TURNING, DiskState(zeros, false), WriteRequest(0, zeros, None)).0.data == zeros
  {
    hide TurningSuite, FirstTweak, EncryptFrom, Splice;
    var zeros := Zeros(512 * k);
    ZeroTweak();
    ZerosStay(zeros);
    OnePass(TURNING.s, ANY_MODE, 0, zeros);
    SpliceAll(zeros, zeros);
  }

  lemma SectorOneOfZeros(k: nat)
    requires 1 < k && 512 * k < TWO_63
    ensures PlainSector(TURNING, Zeros(512 * k), 1)[0] == 1
  {
    hide TurningSuite, FirstTweak, DecryptFrom;
    assert Zeros(512 * k)[512..512 + 512] == Zeros(512);
    OnePass(TURNING.s, ANY_MODE, 1, Zeros(512));
    ZerosReadAsSectorOne();
  }

  lemma SecondSectorWrong(k: nat)
    requires 1 < k && 512 * k < TWO_63
    ensures exists c, x, n: nat, buf :: AcceptedWrite(c, x, n, buf, k) && !SectorsHold(c, x, n, buf, k)
  {
    hide TurningSuite, PlainSector, WriteStep, AcceptedWrite;
    var zeros := Zeros(512 * k);
    var x := DiskState(zeros, false);
    ZerosWritten(k);
    SectorOneOfZeros(k);
    assert zeros[1 * 512..1 * 512 + 512][0] == 0;
    assert !SectorsHold(TURNING, x, 0, zeros, k);
  }

  // ------------------------------------------------------------------ the end of the data area

  /** The bytes of the four header slots: the first and the last 131072 of the file. */
  predicate SlotsKept(before: seq<byte>, after: seq<byte>)
    requires |before| >= FOUR_SLOTS
  {
    && |after| == |before|
    && after[..2 * SLOT_SIZE] == before[..2 * SLOT_SIZE]
    && after[|before| - 2 * SLOT_SIZE..] == before[|before| - 2 * SLOT_SIZE..]
  }

  /** A volume as the creation command lays it out: the data area starts after four slots' worth
      of bytes and runs to the end of the file. */
  predicate LaidOut(c: Config, data: seq<byte>, volumeSize: nat) {
    c.dataOffset == FOUR_SLOTS && |data| == FOUR_SLOTS + volumeSize < TWO_63
  }

  /** Where a sector of such a volume lands: the sector number is not checked, and the sum wraps. */
  function PlaceOf(n: u64): u64 {
    Wrap64(FOUR_SLOTS + Wrap64(n * 512))
  }

  ghost predicate WriteKeepsSlots(c: Config, x: DiskState, r: WriteRequest)
    requires IsSlice(r.buf) && |x.data| >= FOUR_SLOTS
  {
    SlotsKept(x.data, WriteStep(c, x, r).0.data)
  }

  /** Writing sector `n`, whatever its number, keeps the header slots, for every volume, file and
      buffer and whether or not the system fails, exactly when its place is refused by the system
      or it lies clear of the first 131072 bytes of the file and of the last. */
  lemma SlotsKeptExactly(volumeSize: nat, n: u64)
    requires FOUR_SLOTS + volumeSize < TWO_63
    ensures (forall c, x: DiskState, r: WriteRequest ::
               LaidOut(c, x.data, volumeSize) && r.sector == n && |r.buf| == 512 ==> WriteKeepsSlots(c, x, r))
       <==> || PlaceOf(n) >= TWO_63
            || (2 * SLOT_SIZE <= PlaceOf(n) && PlaceOf(n) + 512 + 2 * SLOT_SIZE <= FOUR_SLOTS + volumeSize)
  {
    var host := PlaceOf(n);
    if host >= TWO_63 || (2 * SLOT_SIZE <= host && host + 512 + 2 * SLOT_SIZE <= FOUR_SLOTS + volumeSize) {
      forall c, x: DiskState, r: WriteRequest | LaidOut(c, x.data, volumeSize) && r.sector == n && |r.buf| == 512
        ensures WriteKeepsSlots(c, x, r)
      {
        ClearWriteKeepsSlots(c, x, r, volumeSize);
      }
    } else {
      WriteReachesSlots(volumeSize, n);
    }
  }

  lemma SplicedClear(data: seq<byte>, host: nat, d: seq<byte>)
    requires |d| <= 512 && 2 * SLOT_SIZE <= host && host + 512 + 2 * SLOT_SIZE <= |data|
    ensures SlotsKept(data, WriteAt(data, host, d))
  {
    hide Splice, WriteAt;
    var size, after := |data|, Splice(data, host, d);
    SliceBesideSplice(data, host, d, 0, 2 * SLOT_SIZE);
    SliceBesideSplice(data, host, d, size - 2 * SLOT_SIZE, size);
    assert after[0..2 * SLOT_SIZE] == after[..2 * SLOT_SIZE] && data[0..2 * SLOT_SIZE] == data[..2 * SLOT_SIZE];
    assert after[size - 2 * SLOT_SIZE..size] == after[size - 2 * SLOT_SIZE..];
    assert data[size - 2 * SLOT_SIZE..size] == data[size - 2 * SLOT_SIZE..];
  }

  lemma ClearWriteKeepsSlots(c: Config, x: DiskState, r: WriteRequest, volumeSize: nat)
    requires LaidOut(c, x.data, volumeSize) && |r.buf| == 512
    requires || PlaceOf(r.sector) >= TWO_63
             || (2 * SLOT_SIZE <= PlaceOf(r.sector) && PlaceOf(r.sector) + 512 + 2 * SLOT_SIZE <= |x.data|)
    ensures WriteKeepsSlots(c, x, r)
  {
    hide Ciphered, Overlaps, WriteAt, SlotsKept;
    var host := PlaceOf(r.sector);
    SameSlots(x.data);
    if host < TWO_63 {
      var d := if r.fault.Some? then r.fault.value[..Min(|r.fault.value|, 512)] else Ciphered(c, r.sector, r.buf, true);
      SplicedClear(x.data, host, d);
    }
  }

  /** A volume whose cipher does nothing. */
  function Unmasked(dataOffset: u64, protectedRange: Option<(u64, u64)>): Config {
    Config(MaskSuite(0), [ANY_MODE], dataOffset, false, protectedRange)
  }

  function Ones(): (r: seq<byte>)
    ensures |r| == 512 && forall i :: 0 <= i < 512 ==> r[i] == 1
  {
    seq(512, _ => 1)
  }

  lemma OnesWritten(c: Config, x: DiskState, n: u64)
    requires c == Unmasked(c.dataOffset, c.protectedRange) && !x.triggered
    requires HostOffset(c, n) < TWO_63 && !Overlaps(c, HostOffset(c, n), 512)
    ensures WriteStep(c, x, WriteRequest(n, Ones(), None)).0 == x.(data := WriteAt(x.data, HostOffset(c, n), Ones()))
  {
    hide MaskSuite, WriteAt, HostOffset, Overlaps, Ones;
    MaskedSector(n, Ones());
  }

  lemma WriteReachesSlots(volumeSize: nat, n: u64)
    requires FOUR_SLOTS + volumeSize < TWO_63 && PlaceOf(n) < TWO_63
    requires PlaceOf(n) < 2 * SLOT_SIZE || PlaceOf(n) + 512 + 2 * SLOT_SIZE > FOUR_SLOTS + volumeSize
    ensures exists c, x: DiskState, r: WriteRequest ::
              LaidOut(c, x.data, volumeSize) && r.sector == n && |r.buf| == 512 && !WriteKeepsSlots(c, x, r)
  {
    hide MaskSuite, WriteAt, WriteStep;
    var c, x := Unmasked(FOUR_SLOTS, None), DiskState(Zeros(FOUR_SLOTS + volumeSize), false);
    var r := WriteRequest(n, Ones(), None);
    OnesWritten(c, x, n);
    OnesReachSlots(x.data, PlaceOf(n), Ones());
    assert LaidOut(c, x.data, volumeSize) && !WriteKeepsSlots(c, x, r);
  }

  lemma OnesReachSlots(data: seq<byte>, host: nat, ones: seq<byte>)
    requires |data| >= FOUR_SLOTS && data == Zeros(|data|) && |ones| == 512 && forall i :: 0 <= i < 512 ==> ones[i] == 1
    requires host < 2 * SLOT_SIZE || host + 512 + 2 * SLOT_SIZE > |data|
    ensures !SlotsKept(data, WriteAt(data, host, ones))
  {
    hide WriteAt;
    var size, after, last := |data|, WriteAt(data, host, ones), host + 511;
    if last < size {
      assert after[host] == 1 && after[last] == 1;
      if host < 2 * SLOT_SIZE {
        assert after[..2 * SLOT_SIZE][host] == 1 && data[..2 * SLOT_SIZE][host] == 0;
      } else {
        assert after[size - 2 * SLOT_SIZE..][last - (size - 2 * SLOT_SIZE)] == 1;
        assert data[size - 2 * SLOT_SIZE..][last - (size - 2 * SLOT_SIZE)] == 0;
      }
    }
  }

  /** A hidden volume as its creation lays it out in a file of `n` bytes. */
  predicate LaidOutHidden(c: Config, data: seq<byte>, n: u64, hiddenSize: u64) {
    c.dataOffset == VolumeCreate.HiddenStart(n, hiddenSize) && |data| == n
  }

  /** Writing the sectors of a created hidden volume keeps all header slots, for every volume, file
      and buffer, exactly when the file has room for four slots beside the hidden data or the
      hidden volume has no sector. */
  lemma HiddenWritesKeepSlotsIff(n: u64, hiddenSize: u64)
    requires FOUR_SLOTS <= n < TWO_63 && n >= Wrap64(2 * SLOT_SIZE + hiddenSize)
    ensures (forall c, x: DiskState, r: WriteRequest ::
               LaidOutHidden(c, x.data, n, hiddenSize) && r.sector * 512 + 512 <= hiddenSize && |r.buf| == 512 ==>
                 WriteKeepsSlots(c, x, r))
       <==> FOUR_SLOTS + hiddenSize <= n || hiddenSize < 512
  {
    if FOUR_SLOTS + hiddenSize <= n || hiddenSize < 512 {
      forall c, x: DiskState, r: WriteRequest |
        LaidOutHidden(c, x.data, n, hiddenSize) && r.sector * 512 + 512 <= hiddenSize && |r.buf| == 512
        ensures WriteKeepsSlots(c, x, r)
      {
        HiddenWriteClear(c, x, r, n, hiddenSize);
      }
    } else {
      HiddenWriteReaches(n, hiddenSize);
    }
  }

  lemma HiddenPlace(c: Config, data: seq<byte>, sector: u64, n: u64, hiddenSize: u64)
    requires n < TWO_63 && FOUR_SLOTS + hiddenSize <= n && LaidOutHidden(c, data, n, hiddenSize)
    requires sector * 512 + 512 <= hiddenSize
    ensures 2 * SLOT_SIZE <= HostOffset(c, sector) && HostOffset(c, sector) + 512 + 2 * SLOT_SIZE <= n
  {
  }

  lemma SameSlots(data: seq<byte>)
    requires |data| >= FOUR_SLOTS
    ensures SlotsKept(data, data)
  {
  }

  lemma HiddenWriteClear(c: Config, x: DiskState, r: WriteRequest, n: u64, hiddenSize: u64)
    requires n < TWO_63 && FOUR_SLOTS + hiddenSize <= n && LaidOutHidden(c, x.data, n, hiddenSize)
    requires r.sector * 512 + 512 <= hiddenSize && |r.buf| == 512
    ensures WriteKeepsSlots(c, x, r)
  {
    hide Ciphered, Overlaps, WriteAt, HostOffset, SlotsKept;
    HiddenPlace(c, x.data, r.sector, n, hiddenSize);
    var d := if r.fault.Some? then r.fault.value[..Min(|r.fault.value|, 512)] else Ciphered(c, r.sector, r.buf, true);
    SplicedClear(x.data, HostOffset(c, r.sector), d);
    SameSlots(x.data);
  }

  lemma HiddenStartsInSlots(n: u64, hiddenSize: u64)
    requires n < TWO_63 && n >= Wrap64(2 * SLOT_SIZE + hiddenSize) && FOUR_SLOTS + hiddenSize > n
    ensures var start := VolumeCreate.HiddenStart(n, hiddenSize);
            start < TWO_63 && (start < 2 * SLOT_SIZE || n < start + 512 + 2 * SLOT_SIZE)
  {
  }

  lemma FirstSectorAt(c: Config)
    ensures HostOffset(c, 0) == c.dataOffset
  {
  }

  lemma HiddenWriteReaches(n: u64, hiddenSize: u64)
    requires FOUR_SLOTS <= n < TWO_63 && n >= Wrap64(2 * SLOT_SIZE + hiddenSize)
    requires FOUR_SLOTS + hiddenSize > n && hiddenSize >= 512
    ensures exists c, x: DiskState, r: WriteRequest ::
              && LaidOutHidden(c, x.data, n, hiddenSize) && r.sector * 512 + 512 <= hiddenSize && |r.buf| == 512
              && !WriteKeepsSlots(c, x, r)
  {
    hide MaskSuite, WriteAt, WriteStep, VolumeCreate.HiddenStart, HostOffset;
    var start := VolumeCreate.HiddenStart(n, hiddenSize);
    HiddenStartsInSlots(n, hiddenSize);
    FirstSectorAt(Unmasked(start, None));
    var c, x := Unmasked(start, None), DiskState(Zeros(n), false);
    var r := WriteRequest(0, Ones(), None);
    OnesWritten(c, x, 0);
    OnesReachSlots(x.data, start, Ones());
    assert LaidOutHidden(c, x.data, n, hiddenSize) && !WriteKeepsSlots(c, x, r);
  }

  /** With a cipher that does nothing a sector is written as it is. */
  lemma MaskedSector(n: nat, buf: seq<byte>)
    requires |buf| == 512
    ensures Transformed(MaskSuite(0), [ANY_MODE], n, buf, true) == buf
  {
    OnePass(MaskSuite(0), ANY_MODE, n, buf);
    MaskFrom(0, ANY_MODE, FirstTweak(MaskSuite(0), ANY_MODE, n), buf);
    MaskOfZero(buf);
  }

  // ------------------------------------------------------------------ data across a change of password

  /** What an opened volume is read with. */
  function Reading(s: Suite, open: VolumeOpen.OpenResult): Config
    requires |open.masterKey| == 2 * KeySize(open.dataCipher)
  {
    Config(s, Passes(open.dataCipher, open.masterKey), open.dataOffset, true, None)
  }

  /** Sector `n` has one plaintext, read through one opening of one file and another of another. */
  predicate SamePlaintext(s: Suite, a: VolumeOpen.OpenResult, before: seq<byte>, b: VolumeOpen.OpenResult,
                          after: seq<byte>, n: nat)
  {
    && |a.masterKey| == 2 * KeySize(a.dataCipher) && |b.masterKey| == 2 * KeySize(b.dataCipher)
    && Inside(Reading(s, a), before, n) && Inside(Reading(s, b), after, n)
    && PlainSector(Reading(s, a), before, n) == PlainSector(Reading(s, b), after, n)
  }

  /** The file after a completed change of password. */
  function ChangedFile(x: ChangeCase): (r: seq<byte>)
    requires IsCase(x)
    ensures |r| == |x.data|
  {
    Completed(x.data, Slot(x));
    ApplyAll(x.data, ChangePlan(|x.data|, Slot(x)))
  }

  /** Changing the password changes no data: opened with the new credentials, every sector of the
      volume that lies between the two rewritten slots has the plaintext it had before. */
  lemma PasswordChangeKeepsData(x: ChangeCase, n: nat)
    requires IsCase(x) && ReachedFirst(x.p, x.newPassword, x.newKdfs, NewAttempt(x, false))
    requires |x.data| < TWO_63 && SLOT_SIZE <= x.open.dataOffset
    requires x.open.dataOffset + n * 512 + 512 <= BackupOffset(|x.data|)
    ensures var now := VolumeOpen.Open(x.p, ChangedFile(x), x.newPassword, x.newKdfs);
            now.Ok? && SamePlaintext(x.p.suite, x.open, x.data, now.value, ChangedFile(x), n)
  {
    hide VolumeOpen.Open, Slot, ApplyAll, ReachedFirst, NewAttempt, Passes, Ciphered;
    AfterChange(x);
    OpenIsConsistent(x);
    var after, lo := ChangedFile(x), x.open.dataOffset + n * 512;
    SameStretch(after, x.data, SLOT_SIZE, BackupOffset(|x.data|), lo, lo + 512);
  }

  lemma SameStretch(a: seq<byte>, b: seq<byte>, lo: nat, hi: nat, from: nat, to: nat)
    requires lo <= from <= to <= hi <= |b| == |a| && a[lo..hi] == b[lo..hi]
    ensures a[from..to] == b[from..to]
  {
    SliceOfSlice(a, lo, hi, from - lo, to - lo);
    SliceOfSlice(b, lo, hi, from - lo, to - lo);
  }

  // ------------------------------------------------------------------ the hidden volume's data

  /** The outer volume as it is written to under protection. */
  function Protected(s: Suite, outer: VolumeOpen.OpenResult, range: (u64, u64)): Config
    requires |outer.masterKey| == 2 * KeySize(outer.dataCipher)
  {
    Config(s, Passes(outer.dataCipher, outer.masterKey), outer.dataOffset, false, Some(range))
  }

  /** Opened with protection, no run of writes to the outer volume changes the plaintext of any
      sector of the hidden one that the file holds, if the hidden data range does not wrap. */
  lemma HiddenDataSurvives(p: Primitives, data: seq<byte>, outerPassword: seq<byte>, outerKdfs: seq<KdfCandidate>,
                           hiddenPassword: seq<byte>, hidden: VolumeOpen.OpenResult, rs: seq<WriteRequest>, n: nat)
    requires |data| < TWO_63 && Protection(p, data, outerPassword, outerKdfs, hiddenPassword).Ok?
    requires VolumeOpen.Open(p, data, hiddenPassword, VolumeOpen.AutoCandidates(p, Some(0))) == Ok(hidden)
    requires n * 512 + 512 <= hidden.dataLength && hidden.dataOffset + n * 512 + 512 <= |data|
    requires hidden.dataOffset + hidden.dataLength < TWO_64
    requires forall r :: r in rs ==> IsSlice(r.buf)
    ensures var (outer, range) := Protection(p, data, outerPassword, outerKdfs, hiddenPassword).value;
            && |outer.masterKey| == 2 * KeySize(outer.dataCipher)
            && var end := WriteRun(Protected(p.suite, outer, range), DiskState(data, false), rs).0.data;
               |end| < TWO_63 ==> SamePlaintext(p.suite, hidden, data, hidden, end, n)
  {
    hide VolumeOpen.Open, WriteRun, Passes, Ciphered;
    KeyFitsCipher(p, data, outerPassword, outerKdfs);
    KeyFitsCipher(p, data, hiddenPassword, VolumeOpen.AutoCandidates(p, Some(0)));
    var (outer, range) := Protection(p, data, outerPassword, outerKdfs, hiddenPassword).value;
    var c := Protected(p.suite, outer, range);
    ProtectedRangeNeverChanges(c, DiskState(data, false), rs);
    var end, lo := WriteRun(c, DiskState(data, false), rs).0.data, hidden.dataOffset + n * 512;
    assert end[lo..lo + 512] == data[lo..lo + 512];
  }

  /** And a write to the outer volume that has no byte in common with the hidden data is carried out. */
  lemma OuterWriteCarriedOut(p: Primitives, data: seq<byte>, outerPassword: seq<byte>, outerKdfs: seq<KdfCandidate>,
                             hiddenPassword: seq<byte>, hidden: VolumeOpen.OpenResult, x: DiskState, r: WriteRequest)
    requires |data| < TWO_63 && Protection(p, data, outerPassword, outerKdfs, hiddenPassword).Ok?
    requires VolumeOpen.Open(p, data, hiddenPassword, VolumeOpen.AutoCandidates(p, Some(0))) == Ok(hidden)
    requires 0 < hidden.dataLength && hidden.dataOffset + hidden.dataLength < TWO_64
    requires !x.triggered && r.fault.None? && |r.buf| % 512 == 0 && 0 < |r.buf| < TWO_63
    requires var outer := Protection(p, data, outerPassword, outerKdfs, hiddenPassword).value.0;
             var host := outer.dataOffset + 512 * r.sector;
             && host < TWO_63 && host + |r.buf| < TWO_64
             && (host + |r.buf| <= hidden.dataOffset || hidden.dataOffset + hidden.dataLength <= host)
    ensures var (outer, range) := Protection(p, data, outerPassword, outerKdfs, hiddenPassword).value;
            && |outer.masterKey| == 2 * KeySize(outer.dataCipher)
            && var (after, answer) := WriteStep(Protected(p.suite, outer, range), x, r);
               answer == Ok(()) && !after.triggered
  {
    hide VolumeOpen.Open, Passes, Transformed, WriteAt;
    KeyFitsCipher(p, data, outerPassword, outerKdfs);
    var (outer, range) := Protection(p, data, outerPassword, outerKdfs, hiddenPassword).value;
    LatchSetExactly(Protected(p.suite, outer, range), x, r, range.0, range.1);
  }

  /** A range of `length` bytes from `start` on, protected the way opening does it. */
  predicate Protects(c: Config, start: u64, length: u64) {
    c.protectedRange == Some((start, Wrap64(start + length)))
  }

  /** The bytes of the range are kept by every run of writes on every outer volume and file, exactly
      when the end of the range does not wrap or no file has a byte of it. */
  lemma ProtectsIffNoWrap(start: u64, length: u64)
    ensures (forall c, x: DiskState, rs: seq<WriteRequest> ::
               Protects(c, start, length) && |x.data| < TWO_63 && (forall r :: r in rs ==> IsSlice(r.buf)) ==>
                 RangeKept(x.data, WriteRun(c, x, rs).0.data, start, start + length))
       <==> start + length < TWO_64 || start >= TWO_63 - 1
  {
    hide WriteRun, RangeKept;
    if start + length < TWO_64 || start >= TWO_63 - 1 {
      forall c, x: DiskState, rs: seq<WriteRequest> |
        Protects(c, start, length) && |x.data| < TWO_63 && forall r :: r in rs ==> IsSlice(r.buf)
        ensures RangeKept(x.data, WriteRun(c, x, rs).0.data, start, start + length)
      {
        ProtectedRangeNeverChanges(c, x, rs);
        if start >= TWO_63 - 1 {
          NothingToKeep(x.data, WriteRun(c, x, rs).0.data, start, Wrap64(start + length), start + length);
        }
      }
    } else {
      WrappedRangeWritten(start, length);
    }
  }

  lemma NothingToKeep(before: seq<byte>, after: seq<byte>, start: nat, end: nat, later: nat)
    requires |before| <= start && RangeKept(before, after, start, end)
    ensures RangeKept(before, after, start, later)
  {
  }

  lemma WrappedRangeWritten(start: u64, length: u64)
    requires start + length >= TWO_64 && start < TWO_63 - 1
    ensures exists c, x: DiskState, rs: seq<WriteRequest> ::
              && Protects(c, start, length) && |x.data| < TWO_63 && (forall r :: r in rs ==> IsSlice(r.buf))
              && !RangeKept(x.data, WriteRun(c, x, rs).0.data, start, start + length)
  {
    hide MaskSuite, WriteAt, WriteStep;
    var end := Wrap64(start + length);
    var c, x := Unmasked(start, Some((start, end))), DiskState(Zeros(start + 1), false);
    var r := WriteRequest(0, Ones(), None);
    assert end < start;
    FirstSectorAt(c);
    OnesWritten(c, x, 0);
    var after := WriteStep(c, x, r).0;
    WrittenAt(x.data, start, Ones());
    assert [r][1..] == [] && WriteRun(c, after, []).0 == after;
    assert WriteRun(c, x, [r]).0 == after;
    assert x.data[start] == 0 && after.data[start] == 1;
  }

  lemma WrittenAt(data: seq<byte>, off: nat, d: seq<byte>)
    requires d != [] && off < |data|
    ensures WriteAt(data, off, d)[off] == d[0]
  {
  }
}
