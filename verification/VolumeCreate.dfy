/**
 Creating volumes: a fresh master key in a header sealed under the password, written to the
 primary and backup slots, with decoys (or a hidden volume's header) in the two hidden slots.
 */
module VolumeCreate {
  import opened Bytes
  import opened Ciphers
  import opened HeaderFormat
  import opened HeaderCrypto
  import opened VolumeOpen
  import opened HeaderSlots
  import opened VolumeFile

  const DATA_START: u64 := FOUR_SLOTS

  /** A new header with the given volume fields; the creation and modification times stay zero. */
  function FreshHeader(salt: Salt, hiddenVolumeSize: u64, volumeSize: u64, areaStart: u64, areaLength: u64,
                       key: seq<byte>)
    : (h: VolumeHeader)
    requires |key| <= KEYDATA_SIZE
    ensures Printable(h) && h.salt == salt && |h.masterKeydata| == KEYDATA_SIZE && h.masterKeydata[..|key|] == key
  {
    VolumeHeader(salt, VOLUME_MAGIC, 5, 0x010b, 0, 0, 0, hiddenVolumeSize, volumeSize, areaStart, areaLength, 0, 512,
                 key + Zeros(KEYDATA_SIZE - |key|), 0)
  }

  /** The random choices of one creation. */
  datatype Randomness = Randomness(salt: Salt, masterKey: seq<byte>, decoySalt: Salt, decoyKey: seq<byte>,
                                   decoyHeaderKey: seq<byte>)

  predicate Sized(x: Randomness, ct: CipherType) {
    |x.masterKey| == |x.decoyKey| == |x.decoyHeaderKey| == 2 * KeySize(ct)
  }

  /** Seals a printed slot of 65536 bytes in place. */
  method SealSlot(p: Primitives, h: VolumeHeader, headerKey: seq<byte>, ct: CipherType)
    returns (r: Result<seq<byte>, VolumeError>)
    requires |headerKey| == 2 * KeySize(ct)
    ensures r == Ok(Crypted(p.suite, ct, headerKey, Printed(h), true) + Zeros(SLOT_SIZE - EFFECTIVE_SIZE))
  {
    hide Printed, Crypted;
    var bytes := SerializeHeaderFull(h);
    var slot := new byte[SLOT_SIZE](i requires 0 <= i < SLOT_SIZE => bytes[i]);
    assert slot[..] == bytes;
    assert slot[..EFFECTIVE_SIZE] == Printed(h) && slot[EFFECTIVE_SIZE..] == Zeros(SLOT_SIZE - EFFECTIVE_SIZE);
    var sealed := CryptHeaderArea(p.suite, slot, headerKey, ct, true);
    match sealed
    case Err(_) => return Err(CryptoFailed);
    case Ok(_) => return Ok(slot[..]);
  }

  // ------------------------------------------------------------------ a normal volume

  function NormalHeader(x: Randomness, ct: CipherType, volumeSize: u64): (h: VolumeHeader)
    requires Sized(x, ct)
    ensures Printable(h) && h.salt == x.salt
  {
    FreshHeader(x.salt, 0, volumeSize, DATA_START, volumeSize, x.masterKey)
  }

  /** A header that looks like a hidden volume's, under a key nobody has. */
  function DecoySlot(p: Primitives, x: Randomness, ct: CipherType): (r: seq<byte>)
    requires Sized(x, ct)
    ensures |r| == SLOT_SIZE
  {
    var decoy := FreshHeader(x.decoySalt, 0xDEADBEEF_DEADBEEF, 0, 0, 0, x.decoyKey);
    Crypted(p.suite, ct, x.decoyHeaderKey, Printed(decoy), true) + Zeros(SLOT_SIZE - EFFECTIVE_SIZE)
  }

  /** What a new header says, byte for byte: "VERA", version 5 for programs from 1.11 on, no times, the sizes
      and places it is given, no flags, sectors of 512 bytes, and the key with zeros after it. */
  lemma FreshLayout(salt: Salt, hiddenVolumeSize: u64, volumeSize: u64, areaStart: u64, areaLength: u64, key: seq<byte>)
    requires |key| <= 192
    ensures var p := Printed(FreshHeader(salt, hiddenVolumeSize, volumeSize, areaStart, areaLength, key));
            && p[..64] == salt && BeValue(p[64..68]) == 0x5645_5241
            && BeValue(p[68..70]) == 5 && BeValue(p[70..72]) == 0x010b
            && BeValue(p[76..84]) == 0 && BeValue(p[84..92]) == 0
            && BeValue(p[92..100]) == hiddenVolumeSize && BeValue(p[100..108]) == volumeSize
            && BeValue(p[108..116]) == areaStart && BeValue(p[116..124]) == areaLength
            && BeValue(p[124..128]) == 0 && BeValue(p[128..132]) == 512
            && p[256..256 + |key|] == key
  {
    hide Printed, BeValue;
    PrintedLayout(FreshHeader(salt, hiddenVolumeSize, volumeSize, areaStart, areaLength, key));
    var p := Printed(FreshHeader(salt, hiddenVolumeSize, volumeSize, areaStart, areaLength, key));
    assert p[256..256 + |key|] == p[256..512][..|key|];
  }

  /** A new volume's header: not hidden, data from 262144 on. */
  lemma NormalLayout(x: Randomness, ct: CipherType, volumeSize: u64)
    requires Sized(x, ct)
    ensures |x.masterKey| <= 192
    ensures var p := Printed(NormalHeader(x, ct, volumeSize));
            && p[..64] == x.salt && BeValue(p[92..100]) == 0 && BeValue(p[100..108]) == volumeSize
            && BeValue(p[108..116]) == 262144 && BeValue(p[116..124]) == volumeSize
            && p[256..256 + |x.masterKey|] == x.masterKey
  {
    hide Printed, BeValue, FreshHeader;
    FreshLayout(x.salt, 0, volumeSize, DATA_START, volumeSize, x.masterKey);
  }

  /** A decoy is a sealed header like any other: whoever had its key would read a hidden volume of
      0xDEADBEEFDEADBEEF bytes with the decoy's master key, and no data. */
  lemma DecoyIsHidden(p: Primitives, x: Randomness, ct: CipherType, kdf: KdfCandidate, isBackup: bool)
    requires Sized(x, ct)
    ensures var head := DecoySlot(p, x, ct)[..512];
            && head[..64] == x.decoySalt
            && var r := Decrypted(p.suite, head, x.decoyHeaderKey, kdf, ct, isBackup);
               && r.Some? && r.value.volumeType == Hidden && r.value.masterKey == x.decoyKey
               && r.value.header.hiddenVolumeSize == 0xDEAD_BEEF_DEAD_BEEF
               && r.value.dataOffset == 0 && r.value.dataLength == 0
    ensures DecoySlot(p, x, ct)[512..] == Zeros(65024)
  {
    hide Printed, Parse, Crypted, Normalized;
    var decoy := FreshHeader(x.decoySalt, 0xDEADBEEF_DEADBEEF, 0, 0, 0, x.decoyKey);
    var head := Crypted(p.suite, ct, x.decoyHeaderKey, Printed(decoy), true);
    assert Printed(decoy)[..SALT_SIZE] == x.decoySalt by {
      PrintedLayout(decoy);
    }
    assert DecoySlot(p, x, ct)[..512] == head;
    DecryptedEncrypted(p.suite, ct, x.decoyHeaderKey, Printed(decoy));
    ParsePrinted(decoy);
    NormalizedKeydata(decoy);
  }

  /** So a search with credentials that derive its key finds it, as a hidden volume when it gets to the
      attempt it was sealed for. */
  lemma DecoyFound(p: Primitives, x: Randomness, ct: CipherType, password: seq<byte>, kdfs: seq<KdfCandidate>,
                   kdf: KdfCandidate, key: seq<byte>, isBackup: bool)
    requires Sized(x, ct) && kdf in kdfs && Derive(p, kdf, password, x.decoySalt) == Some(key)
    requires key[..2 * KeySize(ct)] == x.decoyHeaderKey
    ensures var a := Attempt(DecoySlot(p, x, ct)[..512], isBackup, kdf, ct);
            var found := Found(p, password, kdfs, a.head, isBackup);
            && found.Some?
            && (ReachedFirst(p, password, kdfs, a) ==> found.value.volumeType == Hidden)
  {
    hide SlotAttempts, FirstSuccess, DecoySlot, Decrypted, Derive;
    DecoyIsHidden(p, x, ct, kdf, isBackup);
    var a := Attempt(DecoySlot(p, x, ct)[..512], isBackup, kdf, ct);
    var i :| 0 <= i < |kdfs| && kdfs[i] == kdf;
    IsTried(a.head, isBackup, kdfs, i, ct);
    FoundWhenTried(p, password, kdfs, a);
  }

  /** The four writes, from where the file stands; each backup is placed from the end as it then is. */
  function CreatePlan(position: nat, size: nat, slot: seq<byte>, decoy: seq<byte>): seq<Change> {
    var grown := Max(size, position + SLOT_SIZE);
    [(position, slot), (SaturatingSub(grown, 2 * SLOT_SIZE), slot),
     (SLOT_SIZE, decoy), (Max(grown, 2 * SLOT_SIZE) - SLOT_SIZE, decoy)]
  }

  lemma SizesWhileCreating(data: seq<byte>, plan: seq<Change>, position: nat, slot: seq<byte>, decoy: seq<byte>)
    requires |slot| == |decoy| == SLOT_SIZE && plan == CreatePlan(position, |data|, slot, decoy)
    ensures var grown := Max(|data|, position + SLOT_SIZE);
            && |ApplyAll(data, plan[..1])| == |ApplyAll(data, plan[..2])| == grown
            && |ApplyAll(data, plan[..3])| == Max(grown, 2 * SLOT_SIZE)
            && ApplyAll(data, plan[..0]) == data && plan[..4] == plan
  {
    ApplyNext(data, plan, 0);
    ApplyNext(data, plan, 1);
    ApplyNext(data, plan, 2);
    ApplyNext(data, plan, 3);
  }

  /** The two backups are placed from the end of the file as the writes before have left it. */
  lemma PlacedFromEnd(data: seq<byte>, position: nat, slot: seq<byte>, decoy: seq<byte>)
    requires |slot| == |decoy| == 65536
    ensures var plan := CreatePlan(position, |data|, slot, decoy);
            && |plan| == 4 && plan[0] == (position, slot) && plan[2] == (65536, decoy)
            && plan[1] == (Max(0, |ApplyAll(data, plan[..1])| - 131072), slot)
            && plan[3] == (|ApplyAll(data, plan[..3])| - 65536, decoy)
  {
    var plan, grown := CreatePlan(position, |data|, slot, decoy), Max(|data|, position + SLOT_SIZE);
    SizesWhileCreating(data, plan, position, slot, decoy);
    CreateEntries(position, |data|, slot, decoy);
    hide ApplyAll, CreatePlan;
    assert |ApplyAll(data, plan[..1])| == grown && |ApplyAll(data, plan[..3])| == Max(grown, 2 * SLOT_SIZE);
  }

  lemma CreateEntries(position: nat, size: nat, slot: seq<byte>, decoy: seq<byte>)
    ensures var plan, grown := CreatePlan(position, size, slot, decoy), Max(size, position + SLOT_SIZE);
            && |plan| == 4 && plan[0] == (position, slot) && plan[1] == (Max(0, grown - 2 * SLOT_SIZE), slot)
            && plan[2] == (SLOT_SIZE, decoy) && plan[3] == (Max(grown, 2 * SLOT_SIZE) - SLOT_SIZE, decoy)
  {
  }

  method CreateVolumeFull(p: Primitives, file: File, volumeSize: u64, password: seq<byte>, ct: CipherType,
                          kdf: KdfCandidate, x: Randomness)
    returns (r: Result<(), VolumeError>)
    requires Sized(x, ct) && file.position + |file.data| + FOUR_SLOTS < TWO_63
    modifies file
    ensures var key := Derive(p, kdf, password, x.salt);
            && (key.None? ==> r == Err(CryptoFailed) && file.data == old(file.data))
            && (key.Some? ==>
                var slot := SealedSlot(p, NormalHeader(x, ct, volumeSize), key.value, ct);
                var plan := CreatePlan(old(file.position), |old(file.data)|, slot, DecoySlot(p, x, ct));
                && CrashState(old(file.data), plan, file.data)
                && (r.Ok? ==> file.data == ApplyAll(old(file.data), plan))
                && (r.Err? ==> r.error == IoError))
  {
    hide DecoySlot, SealedSlot, FreshHeader, Crypted, Printed, CrashState, Torn, ApplyAll, WriteAt;
    ghost var start, position := file.data, file.position;
    var key := Derive(p, kdf, password, x.salt);
    if key.None? {
      return Err(CryptoFailed);
    }
    var built := SealUnder(p, NormalHeader(x, ct, volumeSize), key.value, ct);
    var slot := built.value;
    ghost var decoy := DecoySlot(p, x, ct);
    ghost var plan := CreatePlan(position, |start|, slot, decoy);
    SizesWhileCreating(start, plan, position, slot, decoy);
    var ok := file.WriteStep(start, plan, 0, file.position, slot);
    if !ok {
      return Err(IoError);
    }
    var end := file.SeekEnd();
    ok := file.WriteStep(start, plan, 1, SaturatingSub(end, 2 * SLOT_SIZE), slot);
    if !ok {
      return Err(IoError);
    }
    r := WriteDecoyHeader(p, file, ct, x, start, plan);
  }

  /** Seals a slot under the part of a derived key that the cipher uses. */
  method SealUnder(p: Primitives, h: VolumeHeader, key: seq<byte>, ct: CipherType)
    returns (r: Result<seq<byte>, VolumeError>)
    requires |key| == MAX_HEADER_KEY_SIZE
    ensures r == Ok(SealedSlot(p, h, key, ct))
  {
    hide Crypted, Printed;
    r := SealSlot(p, h, CipherKey(key, ct), ct);
  }

  /** `write_decoy_header`. */
  method WriteDecoyHeader(p: Primitives, file: File, ct: CipherType, x: Randomness, ghost start: seq<byte>,
                          ghost plan: seq<Change>)
    returns (r: Result<(), VolumeError>)
    requires Sized(x, ct) && |plan| == 4 && |file.data| < TWO_63
    requires file.data == ApplyAll(start, plan[..2]) && plan[2] == (SLOT_SIZE, DecoySlot(p, x, ct))
    requires plan[3] == (|ApplyAll(start, plan[..3])| - SLOT_SIZE, DecoySlot(p, x, ct)) && plan[..4] == plan
    requires |ApplyAll(start, plan[..3])| >= SLOT_SIZE
    modifies file
    ensures CrashState(start, plan, file.data)
    ensures r.Ok? ==> file.data == ApplyAll(start, plan)
    ensures r.Err? ==> r.error == IoError
  {
    hide Crypted, Printed, FreshHeader, CrashState, Torn, ApplyAll, WriteAt;
    var built := SealSlot(p, FreshHeader(x.decoySalt, 0xDEADBEEF_DEADBEEF, 0, 0, 0, x.decoyKey), x.decoyHeaderKey, ct);
    var decoy := built.value;
    var ok := file.WriteStep(start, plan, 2, SLOT_SIZE, decoy);
    if !ok {
      return Err(IoError);
    }
    var end := file.SeekEnd();
    ok := file.WriteStep(start, plan, 3, SaturatingSub(end, SLOT_SIZE), decoy);
    if !ok {
      return Err(IoError);
    }
    return Ok(());
  }

  /** On a file large enough to keep the slots apart: each slot holds what it should, and what
      lies between the header slots is untouched. */
  lemma CreatedLayout(data: seq<byte>, slot: seq<byte>, decoy: seq<byte>)
    requires FOUR_SLOTS <= |data| && |slot| == |decoy| == SLOT_SIZE
    ensures var after, n := ApplyAll(data, CreatePlan(0, |data|, slot, decoy)), |data|;
            && |after| == n
            && after[..SLOT_SIZE] == slot && after[SLOT_SIZE..2 * SLOT_SIZE] == decoy
            && after[n - 2 * SLOT_SIZE..n - SLOT_SIZE] == slot && after[n - SLOT_SIZE..] == decoy
            && after[2 * SLOT_SIZE..n - 2 * SLOT_SIZE] == data[2 * SLOT_SIZE..n - 2 * SLOT_SIZE]
  {
    CreatedWrites(data, slot, decoy);
    FourSplices(data, slot, decoy);
  }

  lemma CreatedWrites(data: seq<byte>, slot: seq<byte>, decoy: seq<byte>)
    requires FOUR_SLOTS <= |data| && |slot| == |decoy| == SLOT_SIZE
    ensures var n := |data|;
            ApplyAll(data, CreatePlan(0, |data|, slot, decoy))
            == Splice(Splice(Splice(Splice(data, 0, slot), n - 2 * SLOT_SIZE, slot), SLOT_SIZE, decoy),
                      n - SLOT_SIZE, decoy)
  {
    hide Splice, WriteAt, ApplyAll, CreatePlan;
    var plan, n := CreatePlan(0, |data|, slot, decoy), |data|;
    PlanEntries(n, slot, decoy);
    var one := Splice(data, 0, slot);
    var two := Splice(one, n - 2 * SLOT_SIZE, slot);
    var three := Splice(two, SLOT_SIZE, decoy);
    ApplyNext(data, plan, 0);
    assert ApplyAll(data, plan[..1]) == one;
    ApplyNext(data, plan, 1);
    assert ApplyAll(data, plan[..2]) == two;
    ApplyNext(data, plan, 2);
    assert ApplyAll(data, plan[..3]) == three;
    ApplyNext(data, plan, 3);
  }

  lemma PlanEntries(n: nat, slot: seq<byte>, decoy: seq<byte>)
    requires FOUR_SLOTS <= n
    ensures var plan := CreatePlan(0, n, slot, decoy);
            && |plan| == 4 && plan[0] == (0, slot) && plan[1] == (n - 2 * SLOT_SIZE, slot)
            && plan[2] == (SLOT_SIZE, decoy) && plan[3] == (n - SLOT_SIZE, decoy)
  {
  }

  lemma FourSplices(data: seq<byte>, slot: seq<byte>, decoy: seq<byte>)
    requires FOUR_SLOTS <= |data| && |slot| == |decoy| == SLOT_SIZE
    ensures var n := |data|;
            var three := Splice(Splice(Splice(data, 0, slot), n - 2 * SLOT_SIZE, slot), SLOT_SIZE, decoy);
            var after := Splice(three, n - SLOT_SIZE, decoy);
            && after[..SLOT_SIZE] == slot && after[SLOT_SIZE..2 * SLOT_SIZE] == decoy
            && after[n - 2 * SLOT_SIZE..n - SLOT_SIZE] == slot && after[n - SLOT_SIZE..] == decoy
            && after[2 * SLOT_SIZE..n - 2 * SLOT_SIZE] == data[2 * SLOT_SIZE..n - 2 * SLOT_SIZE]
  {
  }

  // ------------------------------------------------------------------ what a new volume opens as

  /** A creation, and the credentials it is opened with: they derive the key it was sealed under. */
  datatype CreateCase = CreateCase(
    p: Primitives, password: seq<byte>, kdf: KdfCandidate, kdfs: seq<KdfCandidate>, h: VolumeHeader, key: seq<byte>,
    ct: CipherType)

  predicate IsCase(x: CreateCase) {
    && Printable(x.h) && x.kdf in x.kdfs
    && Derive(x.p, x.kdf, x.password, x.h.salt) == Some(x.key)
  }

  function Slot(x: CreateCase): (r: seq<byte>)
    requires IsCase(x)
    ensures |r| == SLOT_SIZE
  {
    SealedSlot(x.p, x.h, x.key, x.ct)
  }

  function SealedAttempt(x: CreateCase, isBackup: bool): (a: Attempt)
    requires IsCase(x)
    ensures Proper(a)
  {
    Attempt(Slot(x)[..EFFECTIVE_SIZE], isBackup, x.kdf, x.ct)
  }

  /** The opened volume is the one created: its generated key and its data area. */
  predicate IsNew(r: OpenResult, x: CreateCase) {
    && r.masterKey == PaddedKey(x.h.masterKeydata)[..KeySize(x.ct) * 2] && r.dataCipher == x.ct
    && r.dataOffset == x.h.encryptedAreaStart
    && r.dataLength == (if x.h.encryptedAreaLength > 0 then x.h.encryptedAreaLength else x.h.volumeSize)
    && r.volumeType == (if x.h.hiddenVolumeSize != 0 then Hidden else Normal)
  }

  lemma SealedSlotOpens(x: CreateCase, isBackup: bool)
    requires IsCase(x)
    ensures var found := Found(x.p, x.password, x.kdfs, Slot(x)[..EFFECTIVE_SIZE], isBackup);
            && found.Some?
            && (ReachedFirst(x.p, x.password, x.kdfs, SealedAttempt(x, isBackup)) ==>
                IsNew(found.value, x) && found.value.usedBackupHeader == isBackup)
  {
    hide Try, Derive, SlotAttempts, FirstSuccess, SealedHead, Normalized, PaddedKey;
    SealedOpens(x.p, x.password, x.h, x.key, x.kdf, x.ct, isBackup);
    NormalizedKeydata(x.h);
    var i :| 0 <= i < |x.kdfs| && x.kdfs[i] == x.kdf;
    IsTried(Slot(x)[..EFFECTIVE_SIZE], isBackup, x.kdfs, i, x.ct);
    FoundWhenTried(x.p, x.password, x.kdfs, SealedAttempt(x, isBackup));
  }

  /** The primary slot is the new one, and the search gets to the attempt it was sealed for. */
  ghost predicate FromPrimary(x: CreateCase, data: seq<byte>)
    requires IsCase(x) && 3 * SLOT_SIZE <= |data|
  {
    && Head(data, 0) == Slot(x)[..EFFECTIVE_SIZE]
    && ReachedFirst(x.p, x.password, x.kdfs, SealedAttempt(x, false))
  }

  /** Nothing in the primary slot authenticates, and the search of the backup slot gets to the
      attempt that was sealed for. */
  ghost predicate FromBackup(x: CreateCase, data: seq<byte>)
    requires IsCase(x) && 3 * SLOT_SIZE <= |data|
  {
    && Found(x.p, x.password, x.kdfs, Head(data, 0), false).None?
    && ReachedFirst(x.p, x.password, x.kdfs, SealedAttempt(x, true))
  }

  /** A file with the new slot in both normal places opens: from the primary slot with the
      generated key, and, whenever what is in the primary slot does not authenticate, from
      the backup with the backup flag set. */
  lemma CreatedOpens(x: CreateCase, data: seq<byte>)
    requires IsCase(x) && 3 * SLOT_SIZE <= |data| < TWO_64
    requires Head(data, BackupOffset(|data|)) == Slot(x)[..EFFECTIVE_SIZE]
    ensures Open(x.p, data, x.password, x.kdfs).Ok?
    ensures var r := Open(x.p, data, x.password, x.kdfs).value;
            && (FromPrimary(x, data) ==> IsNew(r, x) && !r.usedBackupHeader)
            && (FromBackup(x, data) ==> IsNew(r, x) && r.usedBackupHeader)
  {
    hide Open, Slot, Found, Head, IsCase, IsNew, ReachedFirst;
    OpenLarge(x.p, data, x.password, x.kdfs);
    SealedSlotOpens(x, false);
    SealedSlotOpens(x, true);
  }

  /** The opened volume has the generated key and the requested data area. */
  predicate Gives(r: OpenResult, rnd: Randomness, volumeSize: u64) {
    r.masterKey == rnd.masterKey && r.dataOffset == DATA_START && r.dataLength == volumeSize && r.volumeType == Normal
  }

  lemma NewNormal(r: OpenResult, x: CreateCase, rnd: Randomness, volumeSize: u64)
    requires Sized(rnd, x.ct) && x.h == NormalHeader(rnd, x.ct, volumeSize) && IsNew(r, x)
    ensures Gives(r, rnd, volumeSize)
  {
  }

  /** On a new file the backup overwrites the primary slot, being placed from an end that is only one slot
      away, and the volume has two slots and no room for data. */
  lemma CreatedFromNothing(slot: seq<byte>, decoy: seq<byte>)
    requires |slot| == |decoy| == 65536
    ensures ApplyAll([], CreatePlan(0, 0, slot, decoy)) == slot + decoy
  {
    var plan := CreatePlan(0, 0, slot, decoy);
    ApplyNext([], plan, 0);
    ApplyNext([], plan, 1);
    ApplyNext([], plan, 2);
    ApplyNext([], plan, 3);
    assert plan[..4] == plan && plan[..0] == [];
    hide ApplyAll;
    FirstOfNothing(slot);
    SpliceAll(slot, slot);
    DecoyAfter(slot, decoy);
    SpliceEnd(slot, decoy);
  }

  lemma FirstOfNothing(slot: seq<byte>)
    requires |slot| == 65536
    ensures WriteAt([], 0, slot) == slot
  {
  }

  lemma DecoyAfter(slot: seq<byte>, decoy: seq<byte>)
    requires |slot| == |decoy| == 65536
    ensures WriteAt(slot, 65536, decoy) == slot + decoy
  {
  }

  lemma SpliceEnd(slot: seq<byte>, decoy: seq<byte>)
    requires |slot| == |decoy| == 65536
    ensures Splice(slot + decoy, 65536, decoy) == slot + decoy
  {
  }

  /** The file a completed creation leaves. */
  function Created(x: CreateCase, data: seq<byte>, rnd: Randomness): (r: seq<byte>)
    requires IsCase(x) && FOUR_SLOTS <= |data| && Sized(rnd, x.ct)
    ensures |r| == |data|
  {
    CreatedLayout(data, Slot(x), DecoySlot(x.p, rnd, x.ct));
    ApplyAll(data, CreatePlan(0, |data|, Slot(x), DecoySlot(x.p, rnd, x.ct)))
  }

  /** A completed creation on a file of at least four slots: opened with the same credentials it
      gives the generated key and the requested data area, from the primary slot and also,
      once the primary slot holds anything that does not authenticate, from the backup. */
  lemma CreateThenOpen(x: CreateCase, data: seq<byte>, volumeSize: u64, rnd: Randomness, primary: seq<byte>)
    requires IsCase(x) && FOUR_SLOTS <= |data| < TWO_64 && |primary| == SLOT_SIZE
    requires Sized(rnd, x.ct) && x.h == NormalHeader(rnd, x.ct, volumeSize)
    ensures var created := Created(x, data, rnd);
            var damaged := Splice(created, 0, primary);
            var r, rescued := Open(x.p, created, x.password, x.kdfs), Open(x.p, damaged, x.password, x.kdfs);
            && r.Ok? && rescued.Ok?
            && (FromPrimary(x, created) ==> Gives(r.value, rnd, volumeSize) && !r.value.usedBackupHeader)
            && (FromBackup(x, damaged) ==> Gives(rescued.value, rnd, volumeSize) && rescued.value.usedBackupHeader)
            && Head(created, 0) == Slot(x)[..EFFECTIVE_SIZE] && Head(damaged, 0) == primary[..EFFECTIVE_SIZE]
  {
    hide Open, Found, ReachedFirst, DecoySlot, ApplyAll, Splice, CreatePlan, Derive, Head, IsNew, Gives, Slot;
    hide FromPrimary, FromBackup;
    CreatedLayout(data, Slot(x), DecoySlot(x.p, rnd, x.ct));
    var created := Created(x, data, rnd);
    var damaged := Splice(created, 0, primary);
    CreatedHeads(created, Slot(x), primary);
    CreatedOpens(x, created);
    CreatedOpens(x, damaged);
    var r, rescued := Open(x.p, created, x.password, x.kdfs).value, Open(x.p, damaged, x.password, x.kdfs).value;
    if IsNew(r, x) {
      NewNormal(r, x, rnd, volumeSize);
    }
    if IsNew(rescued, x) {
      NewNormal(rescued, x, rnd, volumeSize);
    }
  }

  lemma CreatedHeads(created: seq<byte>, slot: seq<byte>, primary: seq<byte>)
    requires FOUR_SLOTS <= |created| && |slot| == |primary| == SLOT_SIZE
    requires created[..SLOT_SIZE] == slot
    requires created[BackupOffset(|created|)..BackupOffset(|created|) + SLOT_SIZE] == slot
    ensures Head(created, 0) == Head(created, BackupOffset(|created|)) == slot[..EFFECTIVE_SIZE]
    ensures Head(Splice(created, 0, primary), 0) == primary[..EFFECTIVE_SIZE]
    ensures Head(Splice(created, 0, primary), BackupOffset(|created|)) == slot[..EFFECTIVE_SIZE]
  {
    var bo := BackupOffset(|created|);
    SliceOfSlice(created, 0, SLOT_SIZE, 0, EFFECTIVE_SIZE);
    SliceOfSlice(created, bo, bo + SLOT_SIZE, 0, EFFECTIVE_SIZE);
    SliceBesideSplice(created, 0, primary, bo, bo + EFFECTIVE_SIZE);
    SpliceParts(created, 0, primary);
    SliceOfSlice(Splice(created, 0, primary), 0, SLOT_SIZE, 0, EFFECTIVE_SIZE);
  }

  // ------------------------------------------------------------------ a hidden volume

  /** Where a hidden volume's data starts, in `u64` arithmetic that wraps. */
  function HiddenStart(size: nat, hiddenSize: u64): u64 {
    Wrap64(size - 2 * SLOT_SIZE - hiddenSize)
  }

  function HiddenHeader(size: nat, hiddenSize: u64, salt: Salt, masterKey: seq<byte>): (h: VolumeHeader)
    requires |masterKey| <= KEYDATA_SIZE
    ensures Printable(h) && h.salt == salt
  {
    FreshHeader(salt, hiddenSize, hiddenSize, HiddenStart(size, hiddenSize), hiddenSize, masterKey)
  }

  /** A hidden volume's header says that it is one, and that its data ends 131072 bytes before the end of
      the file, modulo 2^64. */
  lemma HiddenLayout(size: nat, hiddenSize: u64, salt: Salt, masterKey: seq<byte>)
    requires |masterKey| <= 192
    ensures var p := Printed(HiddenHeader(size, hiddenSize, salt, masterKey));
            && p[..64] == salt && BeValue(p[92..100]) == hiddenSize && BeValue(p[100..108]) == hiddenSize
            && BeValue(p[108..116]) == (size - 131072 - hiddenSize) % 0x1_0000_0000_0000_0000
            && BeValue(p[116..124]) == hiddenSize && p[256..256 + |masterKey|] == masterKey
  {
    hide Printed, BeValue, FreshHeader;
    FreshLayout(salt, hiddenSize, hiddenSize, HiddenStart(size, hiddenSize), hiddenSize, masterKey);
  }

  function HiddenPlan(size: nat, slot: seq<byte>): seq<Change> {
    [(SLOT_SIZE, slot), (Wrap64(size - SLOT_SIZE), slot)]
  }

  /** The only refusal is for a file shorter than its two backup slots and the hidden data, with
      that sum taken in `u64` arithmetic. */
  method CreateHiddenVolume(p: Primitives, file: File, hiddenSize: u64, password: seq<byte>, ct: CipherType,
                            kdf: KdfCandidate, salt: Salt, masterKey: seq<byte>)
    returns (r: Result<(), VolumeError>)
    requires |masterKey| == 2 * KeySize(ct) && |file.data| < TWO_63
    modifies file
    ensures var n, key := |old(file.data)|, Derive(p, kdf, password, salt);
            && (n < Wrap64(2 * SLOT_SIZE + hiddenSize) ==> r == Err(InvalidFormat) && file.data == old(file.data))
            && (n >= Wrap64(2 * SLOT_SIZE + hiddenSize) && key.None? ==>
                r == Err(CryptoFailed) && file.data == old(file.data))
            && (n >= Wrap64(2 * SLOT_SIZE + hiddenSize) && key.Some? ==>
                var plan := HiddenPlan(n, SealedSlot(p, HiddenHeader(n, hiddenSize, salt, masterKey), key.value, ct));
                && CrashState(old(file.data), plan, file.data)
                && (r.Ok? ==> file.data == ApplyAll(old(file.data), plan))
                && (r.Err? ==> r.error == IoError))
  {
    hide SealedSlot, Derive, Crypted, Printed, FreshHeader, CrashState, Torn, ApplyAll, WriteAt;
    ghost var start := file.data;
    var end := file.SeekEnd();
    if end < Wrap64(2 * SLOT_SIZE + hiddenSize) {
      return Err(InvalidFormat);
    }
    var key := Derive(p, kdf, password, salt);
    if key.None? {
      return Err(CryptoFailed);
    }
    var header := HiddenHeader(end, hiddenSize, salt, masterKey);
    var built := SealUnder(p, header, key.value, ct);
    var slot := built.value;
    ghost var plan := HiddenPlan(end, slot);
    ApplyNext(start, plan, 1);
    var ok := file.WriteStep(start, plan, 0, SLOT_SIZE, slot);
    if !ok {
      return Err(IoError);
    }
    ok := file.WriteStep(start, plan, 1, Wrap64(end - SLOT_SIZE), slot);
    if !ok {
      return Err(IoError);
    }
    return Ok(());
  }

  /** At every point of the creation of a hidden volume, and after it, the normal headers and
      everything between the header slots are as they were. */
  lemma HiddenLeavesOuter(data: seq<byte>, slot: seq<byte>, after: seq<byte>)
    requires FOUR_SLOTS <= |data| < TWO_63 && |slot| == SLOT_SIZE && CrashState(data, HiddenPlan(|data|, slot), after)
    ensures var n := |data|;
            && |after| == n && after[..SLOT_SIZE] == data[..SLOT_SIZE]
            && after[2 * SLOT_SIZE..n - SLOT_SIZE] == data[2 * SLOT_SIZE..n - SLOT_SIZE]
  {
    hide Splice, WriteAt;
    var plan, n := HiddenPlan(|data|, slot), |data|;
    var i: nat, torn: seq<byte> :| i < |plan| && |torn| <= |plan[i].1| && after == Torn(data, plan, i, torn);
    ApplyNext(data, plan, 0);
    if i == 0 {
      assert after == Splice(data, SLOT_SIZE, torn);
      SliceBesideSplice(data, SLOT_SIZE, torn, 0, SLOT_SIZE);
      SliceBesideSplice(data, SLOT_SIZE, torn, 2 * SLOT_SIZE, n - SLOT_SIZE);
    } else {
      var first := Splice(data, SLOT_SIZE, slot);
      assert after == Splice(first, n - SLOT_SIZE, torn);
      SliceBesideSplice(data, SLOT_SIZE, slot, 0, SLOT_SIZE);
      SliceBesideSplice(data, SLOT_SIZE, slot, 2 * SLOT_SIZE, n - SLOT_SIZE);
      SliceBesideSplice(first, n - SLOT_SIZE, torn, 0, SLOT_SIZE);
      SliceBesideSplice(first, n - SLOT_SIZE, torn, 2 * SLOT_SIZE, n - SLOT_SIZE);
    }
    assert after[..SLOT_SIZE] == after[0..SLOT_SIZE] && data[..SLOT_SIZE] == data[0..SLOT_SIZE];
  }

  /** So an outer volume that opens from either normal header opens in exactly the same way
      whatever point the creation of a hidden volume has reached. */
  lemma OuterOpensAsBefore(p: Primitives, data: seq<byte>, slot: seq<byte>, after: seq<byte>, password: seq<byte>,
                           kdfs: seq<KdfCandidate>)
    requires FOUR_SLOTS <= |data| < TWO_63 && |slot| == SLOT_SIZE && CrashState(data, HiddenPlan(|data|, slot), after)
    requires Found(p, password, kdfs, Head(data, 0), false).Some?
          || Found(p, password, kdfs, Head(data, BackupOffset(|data|)), true).Some?
    ensures |after| == |data| && Open(p, after, password, kdfs) == Open(p, data, password, kdfs)
  {
    hide Open, Found, CrashState;
    HiddenLeavesOuter(data, slot, after);
    var n := |data|;
    SliceOfSlice(data, 0, SLOT_SIZE, 0, EFFECTIVE_SIZE);
    SliceOfSlice(after, 0, SLOT_SIZE, 0, EFFECTIVE_SIZE);
    var from := n - 4 * SLOT_SIZE;
    SliceOfSlice(data, 2 * SLOT_SIZE, n - SLOT_SIZE, from, from + EFFECTIVE_SIZE);
    SliceOfSlice(after, 2 * SLOT_SIZE, n - SLOT_SIZE, from, from + EFFECTIVE_SIZE);
    OpenLarge(p, data, password, kdfs);
    OpenLarge(p, after, password, kdfs);
  }

  /** The size check makes the hidden data end where the backup slots begin exactly when its sum
      does not wrap. */
  lemma HiddenAreaEndsAtBackups(n: u64, hiddenSize: u64)
    requires n >= Wrap64(2 * SLOT_SIZE + hiddenSize)
    ensures HiddenStart(n, hiddenSize) + hiddenSize + 2 * SLOT_SIZE == n <==> 2 * SLOT_SIZE + hiddenSize < TWO_64
  {
  }

  /** And an accepted hidden area keeps clear of the two slots at the start of the file as well as
      the two at its end exactly when the file has room for four slots beside it, which the check
      does not ask for. */
  lemma HiddenAreaClearIff(n: u64, hiddenSize: u64)
    requires n >= Wrap64(2 * SLOT_SIZE + hiddenSize)
    ensures 2 * SLOT_SIZE <= HiddenStart(n, hiddenSize) && HiddenStart(n, hiddenSize) + hiddenSize + 2 * SLOT_SIZE <= n
       <==> FOUR_SLOTS + hiddenSize <= n
  {
  }

  /** The file a completed creation of a hidden volume leaves. */
  function HiddenCreated(x: CreateCase, data: seq<byte>): (r: seq<byte>)
    requires IsCase(x) && FOUR_SLOTS <= |data| < TWO_63
    ensures |r| == |data|
  {
    HiddenHeads(data, Slot(x));
    ApplyAll(data, HiddenPlan(|data|, Slot(x)))
  }

  /** A created hidden volume opens with its own credentials, when the outer headers do not
      authenticate under them: with the generated key, as a hidden volume. */
  lemma HiddenCreateThenOpen(x: CreateCase, data: seq<byte>, hiddenSize: u64, masterKey: seq<byte>)
    requires IsCase(x) && FOUR_SLOTS <= |data| < TWO_63 && |masterKey| == 2 * KeySize(x.ct)
    requires x.h == HiddenHeader(|data|, hiddenSize, x.h.salt, masterKey) && hiddenSize > 0
    requires Found(x.p, x.password, x.kdfs, Head(data, 0), false).None?
    requires Found(x.p, x.password, x.kdfs, Head(data, BackupOffset(|data|)), true).None?
    ensures var r := Open(x.p, HiddenCreated(x, data), x.password, x.kdfs);
            && r.Ok?
            && (ReachedFirst(x.p, x.password, x.kdfs, SealedAttempt(x, false)) ==>
                && r.value.masterKey == masterKey && r.value.dataLength == hiddenSize
                && r.value.dataOffset == HiddenStart(|data|, hiddenSize)
                && r.value.volumeType == Hidden && !r.value.usedBackupHeader)
  {
    hide Open, Found, Head, Slot, ApplyAll, CrashState, IsCase, IsNew, ReachedFirst, HiddenHeader, HiddenStart;
    var after := HiddenCreated(x, data);
    HiddenHeads(data, Slot(x));
    OpenLarge(x.p, after, x.password, x.kdfs);
    SealedSlotOpens(x, false);
    var r := Open(x.p, after, x.password, x.kdfs).value;
    if IsNew(r, x) {
      NewHidden(r, x, |data|, hiddenSize, masterKey);
    }
  }

  lemma NewHidden(r: OpenResult, x: CreateCase, size: nat, hiddenSize: u64, masterKey: seq<byte>)
    requires |masterKey| == 2 * KeySize(x.ct) && hiddenSize > 0 && IsNew(r, x)
    requires x.h == HiddenHeader(size, hiddenSize, x.h.salt, masterKey)
    ensures r.masterKey == masterKey && r.dataLength == hiddenSize && r.volumeType == Hidden
    ensures r.dataOffset == HiddenStart(size, hiddenSize)
  {
  }

  lemma HiddenHeads(data: seq<byte>, slot: seq<byte>)
    requires FOUR_SLOTS <= |data| < TWO_63 && |slot| == SLOT_SIZE
    ensures var after, bo := ApplyAll(data, HiddenPlan(|data|, slot)), BackupOffset(|data|);
            && |after| == |data| && Head(after, SLOT_SIZE) == slot[..EFFECTIVE_SIZE]
            && Head(after, 0) == Head(data, 0) && Head(after, bo) == Head(data, bo)
  {
    hide Splice, WriteAt;
    var plan, n, bo := HiddenPlan(|data|, slot), |data|, BackupOffset(|data|);
    ApplyNext(data, plan, 0);
    ApplyNext(data, plan, 1);
    var first := Splice(data, SLOT_SIZE, slot);
    assert ApplyAll(data, plan) == Splice(first, n - SLOT_SIZE, slot);
    SpliceParts(data, SLOT_SIZE, slot);
    SliceOfSlice(first, SLOT_SIZE, 2 * SLOT_SIZE, 0, EFFECTIVE_SIZE);
    SliceBesideSplice(first, n - SLOT_SIZE, slot, SLOT_SIZE, SLOT_SIZE + EFFECTIVE_SIZE);
    SliceBesideSplice(first, n - SLOT_SIZE, slot, 0, EFFECTIVE_SIZE);
    SliceBesideSplice(data, SLOT_SIZE, slot, 0, EFFECTIVE_SIZE);
    SliceBesideSplice(first, n - SLOT_SIZE, slot, bo, bo + EFFECTIVE_SIZE);
    SliceBesideSplice(data, SLOT_SIZE, slot, bo, bo + EFFECTIVE_SIZE);
  }
}
