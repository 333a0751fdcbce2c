/**
 The driver's request pipeline: READ decrypts whole host sectors into a pool buffer and hands
 part of it out; WRITE reads whole host sectors, overlays the caller's bytes on them as they
 are on the host, encrypts the whole buffer and writes it back.
 */
module EncryptedIoQueue {
  import opened Bytes
  import opened Ciphers
  import opened Cascade
  import opened DataUnits
  import opened SectorIo

  datatype IoStatus =
    | Success
    | InvalidParameter
    | InsufficientResources
    | MediaWriteProtected
    | EndOfFile
    | HostError(code: int)

  /** What the system around the driver does during one request: whether pool memory is to be
      had, whether the host read fails, whether the caller's buffer can be mapped, and whether
      the host write fails and which bytes it has then put at the start of its range. */
  datatype Environment = Environment(
    poolAvailable: bool,
    readFailure: Option<int>,
    bufferMapped: bool,
    writeFailure: Option<(int, seq<byte>)>)

  const NO_FAULTS := Environment(true, None, true, None)

  /** Where a volume's data lies in its host file. */
  datatype Geometry = Geometry(dataOffset: u64, firstUnit: u64, diskLength: u64)

  /** The data area ends below 2^63, so that offsets fit the `i64` the system calls take. */
  predicate Fits(g: Geometry) {
    && NoWrap(g.dataOffset, g.firstUnit, g.diskLength)
    && g.dataOffset + g.diskLength + 512 <= TWO_63
  }

  function Params(g: Geometry, offset: u64, length: u64): Result<SectorIoParams, SectorIoError> {
    ComputeSectorIoParams(g.dataOffset, g.firstUnit, offset, length, g.diskLength)
  }

  // ------------------------------------------------------------------ the host file

  /** The part of `n` bytes at `off` that the file has. */
  function HostRead(host: seq<byte>, off: nat, n: nat): (r: seq<byte>)
    ensures |r| <= n
  {
    if off >= |host| then [] else host[off..Min(off + n, |host|)]
  }

  /** The zeroed pool buffer after the host read; the length is passed on as a `u32`. */
  function FilledBuffer(host: seq<byte>, off: nat, size: nat): (buf: seq<byte>)
    ensures |buf| == size
  {
    var got := HostRead(host, off, Wrap32(size));
    Splice(Zeros(size), 0, got)
  }

  /** An offset from 2^63 on is negative to the system call, which refuses it. */
  function ReadStatus(host: seq<byte>, off: nat, size: nat, env: Environment): IoStatus {
    if off >= TWO_63 then InvalidParameter
    else if env.readFailure.Some? then HostError(env.readFailure.value)
    else if Wrap32(size) > 0 && off >= |host| then EndOfFile
    else Success
  }

  /** A host read exactly: it fails for an offset from 2^63 on, when the system fails, and at or past the end
      of the file unless nothing is asked for; otherwise the buffer has the bytes the file has there, as
      many as the low 32 bits of the length say, and zeros. */
  lemma HostReadExactly(host: seq<byte>, off: nat, size: nat, env: Environment, i: nat)
    requires i < size
    ensures ReadStatus(host, off, size, env) == Success
       <==> off < 0x8000_0000_0000_0000 && env.readFailure.None? && (size % 0x1_0000_0000 == 0 || off < |host|)
    ensures ReadStatus(host, off, size, env) == InvalidParameter <==> off >= 0x8000_0000_0000_0000
    ensures ReadStatus(host, off, size, env) == EndOfFile
       <==> off < 0x8000_0000_0000_0000 && env.readFailure.None? && size % 0x1_0000_0000 > 0 && off >= |host|
    ensures FilledBuffer(host, off, size)[i]
         == if i < size % 0x1_0000_0000 && off + i < |host| then host[off + i] else 0
  {
  }

  // ------------------------------------------------------------------ what a request does

  predicate Sane(p: SectorIoParams) {
    p.alignedLength % 512 == 0 && p.userDataOffset + p.userDataLength <= p.alignedLength
  }

  /** The parameters of every accepted request describe a buffer that holds it. */
  lemma RequestIsSane(g: Geometry, off: nat, length: nat)
    requires off < TWO_63 && length < TWO_32
    ensures Params(g, off, length) == Err(ZeroLength) <==> length == 0
    ensures Params(g, off, length).Ok? ==>
      var p := Params(g, off, length).value;
      Sane(p) && p.userDataLength == length && p.sectorCount * 512 == p.alignedLength
  {
    if length > 0 {
      DriverRequests(g.dataOffset, g.firstUnit, off, length, g.diskLength);
    }
  }

  /** Status and delivered bytes of a READ. */
  function ReadOutcome(c: UnitCipher, g: Geometry, host: seq<byte>, byteOffset: int, length: nat, env: Environment)
    : (r: (IoStatus, seq<byte>))
    requires byteOffset < TWO_63 && length < TWO_32
    ensures r.0.Success? ==> |r.1| == length
  {
    if length == 0 then (Success, [])
    else if byteOffset < 0 then (InvalidParameter, [])
    else
      RequestIsSane(g, byteOffset, length);
      match Params(g, byteOffset, length)
      case Err(e) => (if e.ZeroLength? then Success else InvalidParameter, [])
      case Ok(p) => ReadSpan(c, host, p, env)
  }

  /** The part of a READ that touches the host file. */
  function ReadSpan(c: UnitCipher, host: seq<byte>, p: SectorIoParams, env: Environment): (r: (IoStatus, seq<byte>))
    requires Sane(p)
    ensures r.0.Success? ==> |r.1| == p.userDataLength
  {
    if !env.poolAvailable then (InsufficientResources, [])
    else if ReadStatus(host, p.alignedHostOffset, p.alignedLength, env) != Success then
      (ReadStatus(host, p.alignedHostOffset, p.alignedLength, env), [])
    else if !env.bufferMapped then (InsufficientResources, [])
    else
      var plain := Units(c, p.firstSectorIndex, FilledBuffer(host, p.alignedHostOffset, p.alignedLength), false);
      (Success, plain[p.userDataOffset..p.userDataOffset + p.userDataLength])
  }

  /** Status and new host file of a WRITE. */
  function WriteOutcome(c: UnitCipher, g: Geometry, readOnly: bool, host: seq<byte>, byteOffset: int, data: seq<byte>,
                        env: Environment)
    : (IoStatus, seq<byte>)
    requires byteOffset < TWO_63 && |data| < TWO_32
  {
    if readOnly then (MediaWriteProtected, host)
    else if byteOffset < 0 then (InvalidParameter, host)
    else
      RequestIsSane(g, byteOffset, |data|);
      match Params(g, byteOffset, |data|)
      case Err(e) => (if e.ZeroLength? then Success else InvalidParameter, host)
      case Ok(p) => WriteSpan(c, host, p, data, env)
  }

  /** The part of a WRITE that touches the host file. */
  function WriteSpan(c: UnitCipher, host: seq<byte>, p: SectorIoParams, data: seq<byte>, env: Environment)
    : (IoStatus, seq<byte>)
    requires Sane(p) && |data| == p.userDataLength
  {
    if !env.poolAvailable then (InsufficientResources, host)
    else if ReadStatus(host, p.alignedHostOffset, p.alignedLength, env) != Success then
      (ReadStatus(host, p.alignedHostOffset, p.alignedLength, env), host)
    else if !env.bufferMapped then (InsufficientResources, host)
    else
      var overlaid := Splice(FilledBuffer(host, p.alignedHostOffset, p.alignedLength), p.userDataOffset, data);
      var sent := Units(c, p.firstSectorIndex, overlaid, true)[..Wrap32(p.alignedLength)];
      match env.writeFailure
      case Some((code, torn)) => (HostError(code), WriteAt(host, p.alignedHostOffset, torn[..Min(|torn|, |sent|)]))
      case None => (Success, WriteAt(host, p.alignedHostOffset, sent))
  }

  /** The fields of a mounted volume's device extension that the pipeline uses. */
  class Volume {
    const s: Suite
    const cipher: KernelSectorCipher
    const g: Geometry
    const readOnly: bool
    var host: seq<byte>

    constructor (s: Suite, cipher: KernelSectorCipher, g: Geometry, readOnly: bool, host: seq<byte>)
      ensures this.s == s && this.cipher == cipher && this.g == g && this.readOnly == readOnly && this.host == host
    {
      this.s, this.cipher, this.g, this.readOnly, this.host := s, cipher, g, readOnly, host;
    }

    ghost function DiskCipher(): UnitCipher {
      KernelUnits(s, cipher)
    }

    /** READ. The caller's buffer changes only on success. */
    method ProcessRead(byteOffset: int, length: nat, user: array<byte>, env: Environment)
      returns (status: IoStatus, information: nat)
      requires byteOffset < TWO_63 && length < TWO_32 && length <= user.Length
      modifies user
      ensures status == ReadOutcome(DiskCipher(), g, host, byteOffset, length, env).0
      ensures status.Success? ==> information == length
      ensures status.Success? ==>
        user[..] == Splice(old(user[..]), 0, ReadOutcome(DiskCipher(), g, host, byteOffset, length, env).1)
      ensures !status.Success? ==> information == 0 && user[..] == old(user[..])
    {
      hide Units, FilledBuffer, ComputeSectorIoParams;
      if length == 0 {
        return Success, 0;
      }
      if byteOffset < 0 {
        return InvalidParameter, 0;
      }
      RequestIsSane(g, byteOffset, length);
      var params := Params(g, byteOffset, length);
      if params.Err? {
        return if params.error.ZeroLength? then Success else InvalidParameter, 0;
      }
      var p := params.value;
      if !env.poolAvailable {
        return InsufficientResources, 0;
      }
      var buf := new byte[p.alignedLength](_ => 0);
      status := FillFromHost(buf, p.alignedHostOffset, env);
      if status != Success {
        return status, 0;
      }
      CryptBuffer(p.firstSectorIndex, p.sectorCount, buf, false);
      if !env.bufferMapped {
        return InsufficientResources, 0;
      }
      Store(user, 0, buf[p.userDataOffset..p.userDataOffset + length]);
      return Success, length;
    }

    /** WRITE. The host file changes only when the host write is reached. */
    method ProcessWrite(byteOffset: int, user: seq<byte>, env: Environment) returns (status: IoStatus, information: nat)
      requires byteOffset < TWO_63 && |user| < TWO_32
      modifies this
      ensures (status, host) == WriteOutcome(DiskCipher(), g, readOnly, old(host), byteOffset, user, env)
      ensures information == if status.Success? then |user| else 0
    {
      hide Units, FilledBuffer, ComputeSectorIoParams;
      if readOnly {
        return MediaWriteProtected, 0;
      }
      if byteOffset < 0 {
        return InvalidParameter, 0;
      }
      RequestIsSane(g, byteOffset, |user|);
      var params := Params(g, byteOffset, |user|);
      if params.Err? {
        return if params.error.ZeroLength? then Success else InvalidParameter, 0;
      }
      var p := params.value;
      if !env.poolAvailable {
        return InsufficientResources, 0;
      }
      var buf := new byte[p.alignedLength](_ => 0);
      status := FillFromHost(buf, p.alignedHostOffset, env);
      if status != Success {
        return status, 0;
      }
      if !env.bufferMapped {
        return InsufficientResources, 0;
      }
      Store(buf, p.userDataOffset, user);
      CryptBuffer(p.firstSectorIndex, p.sectorCount, buf, true);
      status := SendToHost(p.alignedHostOffset, buf[..Wrap32(p.alignedLength)], env);
      information := if status.Success? then |user| else 0;
    }

    method CryptBuffer(first: nat, sectorCount: nat, buf: array<byte>, encrypt: bool)
      requires sectorCount * 512 == buf.Length
      modifies buf
      ensures buf[..] == Units(DiskCipher(), first, old(buf[..]), encrypt)
    {
      hide Units, Stands, KernelUnits, Splice;
      ghost var before := buf[..];
      KernelUnitsStand(s, cipher);
      assert before[..sectorCount * 512] == before;
      SpliceAll(before, Units(DiskCipher(), first, before, encrypt));
      CryptSectors(s, cipher, DiskCipher(), first, sectorCount, buf, encrypt);
    }

    method SendToHost(off: nat, sent: seq<byte>, env: Environment) returns (status: IoStatus)
      modifies this
      ensures env.writeFailure.None? ==> status.Success? && host == WriteAt(old(host), off, sent)
      ensures env.writeFailure.Some? ==>
        var (code, torn) := env.writeFailure.value;
        status == HostError(code) && host == WriteAt(old(host), off, torn[..Min(|torn|, |sent|)])
    {
      match env.writeFailure
      case Some((code, torn)) =>
        host := WriteAt(host, off, torn[..Min(|torn|, |sent|)]);
        return HostError(code);
      case None =>
        host := WriteAt(host, off, sent);
        return Success;
    }

    /** The host read of either request, into a fresh zeroed buffer. */
    method FillFromHost(buf: array<byte>, off: nat, env: Environment) returns (status: IoStatus)
      requires buf[..] == Zeros(buf.Length)
      modifies buf
      ensures status == ReadStatus(host, off, buf.Length, env)
      ensures status.Success? ==> buf[..] == FilledBuffer(host, off, buf.Length)
    {
      status := ReadStatus(host, off, buf.Length, env);
      if status.Success? {
        Store(buf, 0, HostRead(host, off, Wrap32(buf.Length)));
      }
    }
  }
}
