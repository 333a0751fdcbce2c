/**
 Opening and closing a mounted volume's host file in the driver: what the mount request and the
 system's answers decide, and what is held and given back on every path.
 */
module HostVolume {
  import opened Bytes
  import opened Ciphers
  import opened Cascade

  // ------------------------------------------------------------------ status codes

  /** An `NTSTATUS` is an `i32`; the failures have the top bit set. */
  type NtStatus = n: int | -0x8000_0000 <= n < 0x8000_0000

  predicate NtSuccess(status: NtStatus) {
    status >= 0
  }

  const STATUS_SUCCESS: NtStatus := 0
  const STATUS_INVALID_PARAMETER: NtStatus := 0xC000_000D - TWO_32
  const STATUS_INSUFFICIENT_RESOURCES: NtStatus := 0xC000_009A - TWO_32
  const STATUS_ACCESS_DENIED: NtStatus := 0xC000_0022 - TWO_32
  const STATUS_SHARING_VIOLATION: NtStatus := 0xC000_0043 - TWO_32
  const READ_AS_ACCESS_DENIED: NtStatus := 0xC000_001B - TWO_32

  // ------------------------------------------------------------------ what is held

  /** A pointer field that owns something: whether it is set, and how often the thing behind it
      was acquired and released. */
  datatype Owned = Owned(isSet: bool, acquired: nat, released: nat)

  const NOTHING := Owned(false, 0, 0)

  function Acquire(o: Owned): Owned {
    Owned(true, o.acquired + 1, o.released)
  }

  /** Released, and cleared. */
  function Release(o: Owned): Owned {
    Owned(false, o.acquired, o.released + 1)
  }

  function ReleaseIfSet(o: Owned): Owned {
    if o.isSet then Release(o) else o
  }

  predicate Balanced(o: Owned) {
    o.acquired == o.released + (if o.isSet then 1 else 0)
  }

  /** The host file's handle, the reference to its file object, the cipher, and the buffer that
      the path is copied to while the file is opened. */
  datatype Held = Held(handle: Owned, fileObject: Owned, cipher: Owned, pathBuffer: Owned)

  const NOTHING_HELD := Held(NOTHING, NOTHING, NOTHING, NOTHING)

  // ------------------------------------------------------------------ the request

  const MASTER_KEY_MAX_SIZE := 192
  const MAX_SECTOR_SIZE := 128 * 1024
  const MIN_VOLUME_SIZE := 256 * 1024
  const MAX_VOLUME_SIZE := TWO_63 - 1

  type KeyBuffer = k: seq<byte> | |k| == MASTER_KEY_MAX_SIZE witness Zeros(MASTER_KEY_MAX_SIZE)

  /** What is asked for; `pathLength` counts what is left of the path after its prefix is put on. */
  datatype MountRequest = MountRequest(sectorSize: u32, diskLength: u64, dataOffset: u64, ea: u32, key: KeyBuffer,
                                       pathLength: nat, readOnly: bool, preserveTimestamps: bool)

  /** What the system answers, if it gets to be asked: whether there is memory for the path, the
      statuses of opening the file for writing, for reading with the right to set its times, and for
      reading only, and the status of referencing the file object. */
  datatype Answers = Answers(memory: bool, forWriting: NtStatus, withAttributes: NtStatus, forReading: NtStatus,
                             reference: NtStatus)

  function CipherOfEa(ea: u32): Option<CipherType> {
    if ea == 0x01 then Some(Aes)
    else if ea == 0x02 then Some(Serpent)
    else if ea == 0x03 then Some(Twofish)
    else if ea == 0x04 then Some(Camellia)
    else if ea == 0x05 then Some(Kuznyechik)
    else if ea == 0x11 then Some(CipherType.AesTwofish)
    else if ea == 0x12 then Some(CipherType.AesTwofishSerpent)
    else if ea == 0x13 then Some(CipherType.SerpentAes)
    else if ea == 0x14 then Some(CipherType.SerpentTwofishAes)
    else if ea == 0x15 then Some(CipherType.TwofishSerpent)
    else if ea == 0x16 then Some(CipherType.CamelliaKuznyechik)
    else if ea == 0x17 then Some(CipherType.CamelliaSerpent)
    else if ea == 0x18 then Some(CipherType.KuznyechikAes)
    else if ea == 0x19 then Some(CipherType.KuznyechikSerpentCamellia)
    else if ea == 0x1A then Some(CipherType.KuznyechikTwofish)
    else None
  }

  /** The number the mounting program sends for a choice. */
  function EaOf(ct: CipherType): u32 {
    match ct
    case Aes => 0x01
    case Serpent => 0x02
    case Twofish => 0x03
    case Camellia => 0x04
    case Kuznyechik => 0x05
    case AesTwofish => 0x11
    case AesTwofishSerpent => 0x12
    case SerpentAes => 0x13
    case SerpentTwofishAes => 0x14
    case TwofishSerpent => 0x15
    case CamelliaKuznyechik => 0x16
    case CamelliaSerpent => 0x17
    case KuznyechikAes => 0x18
    case KuznyechikSerpentCamellia => 0x19
    case KuznyechikTwofish => 0x1A
  }

  /** The driver reads every number that is sent as the choice it was sent for, and no other number. */
  lemma EaRoundTrip(ea: u32, ct: CipherType)
    ensures CipherOfEa(ea) == Some(ct) <==> ea == EaOf(ct)
  {
  }

  predicate SectorSizeAccepted(q: MountRequest) {
    0 < q.sectorSize <= MAX_SECTOR_SIZE
  }

  predicate DiskLengthAccepted(q: MountRequest) {
    MIN_VOLUME_SIZE <= q.diskLength <= MAX_VOLUME_SIZE
  }

  /** A file that may not be written to is tried again for reading. */
  predicate RetriedForReading(q: MountRequest, a: Answers) {
    || a.forWriting in {STATUS_ACCESS_DENIED, STATUS_SHARING_VIOLATION, READ_AS_ACCESS_DENIED}
    || q.readOnly
  }

  /** The host file opens. */
  predicate HostOpens(q: MountRequest, a: Answers) {
    && q.pathLength > 0 && a.memory
    && (|| NtSuccess(a.forWriting)
        || (&& RetriedForReading(q, a)
            && (NtSuccess(a.forReading) || (q.preserveTimestamps && NtSuccess(a.withAttributes)))))
  }

  /** The whole request succeeds. */
  predicate Accepts(q: MountRequest, a: Answers) {
    SectorSizeAccepted(q) && HostOpens(q, a) && DiskLengthAccepted(q) && CipherOfEa(q.ea).Some?
  }

  /** The status a request is refused with: the check's own, or that of the last call that failed. */
  function RefusalCode(q: MountRequest, a: Answers): NtStatus {
    if !SectorSizeAccepted(q) || q.pathLength == 0 || HostOpens(q, a) then STATUS_INVALID_PARAMETER
    else if !a.memory then STATUS_INSUFFICIENT_RESOURCES
    else if RetriedForReading(q, a) then a.forReading
    else a.forWriting
  }

  /** The host file was opened and its file object referenced before the request was refused. */
  predicate Leaks(q: MountRequest, a: Answers) {
    && SectorSizeAccepted(q) && HostOpens(q, a) && NtSuccess(a.reference)
    && (!DiskLengthAccepted(q) || CipherOfEa(q.ea).None?)
  }

  /** Acceptance in numbers; and the host file opens if it can be written to, or, when the reason that it
      cannot is access denied, a sharing violation or 0xC000001B, or reading is all that was asked for,
      if it can be read, with the right to set its times or without. */
  lemma AcceptedExactly(q: MountRequest, a: Answers)
    ensures Accepts(q, a)
       <==> && 1 <= q.sectorSize <= 131072 && q.pathLength > 0 && a.memory
            && (|| a.forWriting >= 0
                || (&& (|| q.readOnly
                        || a.forWriting + 0x1_0000_0000 in {0xC000_0022, 0xC000_0043, 0xC000_001B})
                    && (a.forReading >= 0 || (q.preserveTimestamps && a.withAttributes >= 0))))
            && 262144 <= q.diskLength < 0x8000_0000_0000_0000
            && exists ct :: q.ea == EaOf(ct)
  {
    hide CipherOfEa, EaOf;
    if CipherOfEa(q.ea).Some? {
      EaRoundTrip(q.ea, CipherOfEa(q.ea).value);
    }
    if ct :| q.ea == EaOf(ct) {
      EaRoundTrip(q.ea, ct);
    }
  }

  /** The statuses of refusals, in numbers. */
  lemma RefusedWith(q: MountRequest, a: Answers)
    requires !Accepts(q, a)
    ensures var code := RefusalCode(q, a);
            && (q.sectorSize == 0 || q.sectorSize > 131072 ==> code == 0xC000_000D - 0x1_0000_0000)
            && (0 < q.sectorSize <= 131072 && q.pathLength > 0 && !a.memory ==> code == 0xC000_009A - 0x1_0000_0000)
            && (HostOpens(q, a) ==> code == 0xC000_000D - 0x1_0000_0000)
            && code < 0
  {
    hide CipherOfEa;
  }

  /** What is held after a request, given what was held before. */
  function AfterOpening(x: Held, q: MountRequest, a: Answers): Held {
    var reached := SectorSizeAccepted(q) && HostOpens(q, a);
    Held(if Accepts(q, a) then Acquire(x.handle) else if reached then Release(Acquire(x.handle)) else x.handle,
         if reached && NtSuccess(a.reference) then Acquire(x.fileObject) else x.fileObject,
         if Accepts(q, a) then Acquire(x.cipher) else x.cipher,
         if SectorSizeAccepted(q) && q.pathLength > 0 && a.memory then Release(Acquire(x.pathBuffer)) else x.pathBuffer)
  }

  function AfterClosing(x: Held): Held {
    Held(ReleaseIfSet(x.handle), ReleaseIfSet(x.fileObject), ReleaseIfSet(x.cipher), x.pathBuffer)
  }

  // ------------------------------------------------------------------ the routines

  /** The part of a mounted volume's extension that opening and closing work on. */
  class Extension {
    var held: Held
    var readOnly: bool
    var crypto: Option<KernelSectorCipher>
    var dataOffset: u64
    var diskLength: u64
    var sectorSize: u32

    constructor ()
      ensures held == NOTHING_HELD && crypto.None?
    {
      held, readOnly, crypto, dataOffset, diskLength, sectorSize := NOTHING_HELD, false, None, 0, 0, 0;
    }

    /** `open_host_file`. Every path gives the buffer back, and one that fails holds nothing new. */
    method OpenHostFile(q: MountRequest, a: Answers) returns (status: NtStatus)
      modifies this`held, this`readOnly
      ensures NtSuccess(status) <==> HostOpens(q, a)
      ensures SectorSizeAccepted(q) && !HostOpens(q, a) ==> status == RefusalCode(q, a)
      ensures held == old(held).(
          pathBuffer := if q.pathLength > 0 && a.memory then Release(Acquire(old(held).pathBuffer))
                        else old(held).pathBuffer,
          handle := if HostOpens(q, a) then Acquire(old(held).handle) else old(held).handle,
          fileObject := if HostOpens(q, a) && NtSuccess(a.reference) then Acquire(old(held).fileObject)
                        else old(held).fileObject)
      ensures readOnly == if HostOpens(q, a) then !NtSuccess(a.forWriting) else old(readOnly)
    {
      if q.pathLength == 0 {
        return STATUS_INVALID_PARAMETER;
      }
      if !a.memory {
        return STATUS_INSUFFICIENT_RESOURCES;
      }
      held := held.(pathBuffer := Acquire(held.pathBuffer));
      var isReadOnly := false;
      status := a.forWriting;
      if !NtSuccess(status) {
        if status == READ_AS_ACCESS_DENIED {
          status := STATUS_ACCESS_DENIED;
        }
        if status != STATUS_ACCESS_DENIED && status != STATUS_SHARING_VIOLATION && !q.readOnly {
          held := held.(pathBuffer := Release(held.pathBuffer));
          return status;
        }
        var reopened := if q.preserveTimestamps then a.withAttributes else a.forReading;
        if !NtSuccess(reopened) {
          if !q.preserveTimestamps {
            held := held.(pathBuffer := Release(held.pathBuffer));
            return reopened;
          }
          if !NtSuccess(a.forReading) {
            held := held.(pathBuffer := Release(held.pathBuffer));
            return a.forReading;
          }
        }
        isReadOnly := true;
      }
      held := held.(pathBuffer := Release(held.pathBuffer));
      readOnly := isReadOnly;
      held := held.(handle := Acquire(held.handle));
      if NtSuccess(a.reference) {
        held := held.(fileObject := Acquire(held.fileObject));
      }
      return STATUS_SUCCESS;
    }

    /** `tc_open_volume`, with the key cut to the cipher's size as its caller does. */
    method TcOpenVolume(q: MountRequest, a: Answers) returns (status: NtStatus)
      modifies this
      ensures NtSuccess(status) <==> Accepts(q, a)
      ensures !Accepts(q, a) ==> status == RefusalCode(q, a)
      ensures held == AfterOpening(old(held), q, a)
      ensures !Accepts(q, a) ==> crypto == old(crypto)
      ensures Accepts(q, a) ==>
        && crypto.Some?
        && PassesOf(crypto.value) == Passes(CipherOfEa(q.ea).value, KeyOf(q.key, CipherOfEa(q.ea).value))
        && dataOffset == q.dataOffset && diskLength == q.diskLength && sectorSize == q.sectorSize
        && readOnly == !NtSuccess(a.forWriting)
    {
      hide CipherOfEa, HostOpens, Passes, PassesOf;
      if q.sectorSize == 0 || q.sectorSize > MAX_SECTOR_SIZE {
        return STATUS_INVALID_PARAMETER;
      }
      status := OpenHostFile(q, a);
      if !NtSuccess(status) {
        return;
      }
      if q.diskLength < MIN_VOLUME_SIZE || q.diskLength > MAX_VOLUME_SIZE {
        held := held.(handle := Release(held.handle));
        return STATUS_INVALID_PARAMETER;
      }
      var keyLength := 0;
      if CipherOfEa(q.ea).Some? {
        keyLength := Min(2 * KeySize(CipherOfEa(q.ea).value), MASTER_KEY_MAX_SIZE);
      }
      var made := InitCipher(q.ea, q.key[..keyLength]);
      if made.None? {
        held := held.(handle := Release(held.handle));
        return STATUS_INVALID_PARAMETER;
      }
      assert q.key[..keyLength][..keyLength] == q.key[..keyLength];
      crypto := made;
      held := held.(cipher := Acquire(held.cipher));
      dataOffset, diskLength, sectorSize := q.dataOffset, q.diskLength, q.sectorSize;
      return STATUS_SUCCESS;
    }

    /** `tc_close_volume`. */
    method TcCloseVolume()
      modifies this`held, this`crypto
      ensures held == AfterClosing(old(held))
      ensures old(held).cipher.isSet ==> crypto.None?
    {
      if held.handle.isSet {
        held := held.(handle := Release(held.handle));
      }
      if held.fileObject.isSet {
        held := held.(fileObject := Release(held.fileObject));
      }
      if held.cipher.isSet {
        held := held.(cipher := Release(held.cipher));
        crypto := None;
      }
    }
  }

  /** The part of the key buffer that a cipher uses. */
  function KeyOf(key: KeyBuffer, ct: CipherType): (r: seq<byte>)
    ensures |r| == 2 * KeySize(ct) && r <= key
  {
    key[..2 * KeySize(ct)]
  }

  /** `init_cipher_from_ea_and_key`: a known algorithm and enough key. */
  method InitCipher(ea: u32, key: seq<byte>) returns (r: Option<KernelSectorCipher>)
    ensures r.Some? <==> CipherOfEa(ea).Some? && |key| >= 2 * KeySize(CipherOfEa(ea).value)
    ensures r.Some? ==>
      PassesOf(r.value) == Passes(CipherOfEa(ea).value, key[..2 * KeySize(CipherOfEa(ea).value)])
  {
    hide CipherOfEa, Passes, PassesOf;
    if CipherOfEa(ea).None? {
      return None;
    }
    var ct := CipherOfEa(ea).value;
    var made := NewKernelCipher(ct, key[..Min(2 * KeySize(ct), |key|)]);
    r := if made.Ok? then Some(made.value) else None;
  }

  // ------------------------------------------------------------------ what stays behind

  predicate AllBalanced(x: Held) {
    Balanced(x.handle) && Balanced(x.fileObject) && Balanced(x.cipher) && Balanced(x.pathBuffer)
  }

  /** Opening keeps every count honest when nothing was held; what it then holds is the handle and
      the cipher exactly when it succeeds, and the file object also when it refuses too late. */
  lemma OpeningHolds(q: MountRequest, a: Answers)
    ensures var x := AfterOpening(NOTHING_HELD, q, a);
            && AllBalanced(x) && !x.pathBuffer.isSet
            && x.pathBuffer.acquired == (if 1 <= q.sectorSize <= 131072 && q.pathLength > 0 && a.memory then 1 else 0)
            && x.handle.acquired == (if 1 <= q.sectorSize <= 131072 && HostOpens(q, a) then 1 else 0)
            && x.cipher.acquired == (if Accepts(q, a) then 1 else 0)
            && (x.handle.isSet <==> Accepts(q, a)) && (x.cipher.isSet <==> Accepts(q, a))
            && (x.fileObject.isSet <==> (Accepts(q, a) && NtSuccess(a.reference)) || Leaks(q, a))
  {
    hide HostOpens, CipherOfEa;
  }

  /** A volume that is opened, and closed if that succeeded, leaves nothing behind exactly when the
      request is not refused between the host file and the cipher; closing in either case would
      always leave nothing. */
  lemma NothingLeftIff(q: MountRequest, a: Answers)
    ensures var x := AfterOpening(NOTHING_HELD, q, a);
            var end := if Accepts(q, a) then AfterClosing(x) else x;
            && end.handle.acquired == end.handle.released && end.cipher.acquired == end.cipher.released
            && end.pathBuffer.acquired == end.pathBuffer.released
            && (end.fileObject.acquired == end.fileObject.released <==> !Leaks(q, a))
            && AfterClosing(x).fileObject.acquired == AfterClosing(x).fileObject.released
  {
    hide HostOpens, CipherOfEa, Accepts, Leaks;
    OpeningHolds(q, a);
    LeakIsRefusal(q, a);
  }

  lemma LeakIsRefusal(q: MountRequest, a: Answers)
    ensures Leaks(q, a) ==> !Accepts(q, a)
  {
  }
}
