/**
 Changing a volume's password: the opened header is sealed again under new credentials and
 written to the backup slot, then to the primary slot.
 */
module PasswordChange {
  import opened Bytes
  import opened Ciphers
  import opened Xts
  import opened Cascade
  import opened MaskCipher
  import opened HeaderFormat
  import opened HeaderCrypto
  import opened VolumeOpen
  import opened HeaderSlots
  import opened VolumeFile
  import opened StrayHeads

  /** The slot both places get. */
  function NewSlot(p: Primitives, open: OpenResult, newSalt: Salt, key: seq<byte>): (r: seq<byte>)
    requires |key| == MAX_HEADER_KEY_SIZE
    ensures |r| == SLOT_SIZE
  {
    SealedSlot(p, open.header.(salt := newSalt), key, open.headerCipher)
  }

  /** Backup first, then primary. */
  function ChangePlan(size: nat, slot: seq<byte>): seq<Change>
    requires size >= FOUR_SLOTS
  {
    [(BackupOffset(size), slot), (0, slot)]
  }

  lemma SaltIsNotPrintedInArea(h: VolumeHeader, salt: Salt)
    ensures Printed(h.(salt := salt)) == salt + Printed(h)[SALT_SIZE..]
  {
    hide Front;
    assert Values(h.(salt := salt), 0) == Values(h, 0);
    assert Area(h.(salt := salt)) == Area(h);
    assert Printed(h)[SALT_SIZE..] == Area(h);
  }

  /** Builds the new slot in one buffer of 65536 bytes. */
  method BuildSlot(p: Primitives, open: OpenResult, newSalt: Salt, key: seq<byte>)
    returns (r: Result<seq<byte>, VolumeError>)
    requires |key| == MAX_HEADER_KEY_SIZE
    ensures r == Ok(NewSlot(p, open, newSalt, key))
  {
    hide Printed, Crypted, Splice;
    var headerBuf := new byte[SLOT_SIZE](_ => 0);
    Store(headerBuf, 0, newSalt);
    var plaintext := SerializeHeader(open.header);
    Store(headerBuf, SALT_SIZE, plaintext[SALT_SIZE..]);
    ghost var head := Printed(open.header.(salt := newSalt));
    SaltIsNotPrintedInArea(open.header, newSalt);
    BufferParts(newSalt, plaintext[SALT_SIZE..]);
    assert headerBuf[..] == head + Zeros(SLOT_SIZE - EFFECTIVE_SIZE);
    assert headerBuf[..EFFECTIVE_SIZE] == head && headerBuf[EFFECTIVE_SIZE..] == Zeros(SLOT_SIZE - EFFECTIVE_SIZE);
    var sealed := CryptHeaderArea(p.suite, headerBuf, CipherKey(key, open.headerCipher), open.headerCipher, true);
    match sealed
    case Err(_) => return Err(CryptoFailed);
    case Ok(_) => return Ok(headerBuf[..]);
  }

  lemma BufferParts(salt: Salt, area: seq<byte>)
    requires |area| == ENCRYPTED_SIZE
    ensures forall z: seq<byte> :: z == Zeros(SLOT_SIZE) ==>
      Splice(Splice(z, 0, salt), SALT_SIZE, area) == salt + area + Zeros(SLOT_SIZE - EFFECTIVE_SIZE)
  {
  }

  /** The change chooses the costs of the new derivation by itself; they are the ones opening uses. */
  method CostsOf(p: Primitives, newKdf: KdfAlgorithm, newPim: int) returns (candidate: KdfCandidate)
    ensures candidate == MakeCandidate(p, newKdf, newPim)
  {
    match newKdf
    case Argon2id =>
      var (memory, time) := p.kdfs.argonCosts(newPim);
      candidate := KdfCandidate(newKdf, newPim, time, Some(memory));
    case _ =>
      var iterations := p.kdfs.iterationCount(newKdf, newPim);
      candidate := KdfCandidate(newKdf, newPim, iterations, None);
  }

  /** `change_volume_password`, with the keyfiles mixed into the password and the new salt given.
      Whatever goes wrong while writing, the file is left in a crash state of the plan. */
  method ChangeVolumePassword(p: Primitives, file: File, open: OpenResult, newPassword: seq<byte>,
                              newKdf: KdfAlgorithm, newPim: int, newSalt: Salt)
    returns (r: Result<(), VolumeError>)
    modifies file
    ensures var key := Derive(p, MakeCandidate(p, newKdf, newPim), newPassword, newSalt);
            && (key.None? ==> r == Err(CryptoFailed) && file.data == old(file.data))
            && (key.Some? && |old(file.data)| < FOUR_SLOTS ==> r == Err(InvalidFormat) && file.data == old(file.data))
            && (key.Some? && |old(file.data)| >= FOUR_SLOTS ==>
                var plan := ChangePlan(|old(file.data)|, NewSlot(p, open, newSalt, key.value));
                && CrashState(old(file.data), plan, file.data)
                && (r.Ok? ==> file.data == ApplyAll(old(file.data), plan))
                && (r.Err? ==> r.error == IoError))
  {
    hide NewSlot;
    ghost var start := file.data;
    var candidate := CostsOf(p, newKdf, newPim);
    var key := Derive(p, candidate, newPassword, newSalt);
    if key.None? {
      return Err(CryptoFailed);
    }
    var built := BuildSlot(p, open, newSalt, key.value);
    var slot := built.value;
    var end := file.SeekEnd();
    if end < FOUR_SLOTS {
      return Err(InvalidFormat);
    }
    var backupOffset := end - 2 * SLOT_SIZE;
    ghost var plan := ChangePlan(end, slot);
    ApplyNext(start, plan, 1);
    var ok := file.WriteStep(start, plan, 0, backupOffset, slot);
    if !ok {
      return Err(IoError);
    }
    ok := file.WriteStep(start, plan, 1, 0, slot);
    if !ok {
      return Err(IoError);
    }
    return Ok(());
  }

  // ------------------------------------------------------------------ what the plan leaves behind

  /** The two phases: until the second write begins the primary slot is as it was; from then on
      the backup slot is the new one. Nothing outside the two slots ever changes. */
  lemma Phases(data: seq<byte>, slot: seq<byte>, after: seq<byte>)
    requires |data| >= FOUR_SLOTS && |slot| == SLOT_SIZE && CrashState(data, ChangePlan(|data|, slot), after)
    ensures var bo := BackupOffset(|data|);
            && |after| == |data|
            && after[SLOT_SIZE..bo] == data[SLOT_SIZE..bo] && after[bo + SLOT_SIZE..] == data[bo + SLOT_SIZE..]
            && (after[..SLOT_SIZE] == data[..SLOT_SIZE] || after[bo..bo + SLOT_SIZE] == slot)
  {
    hide Splice;
    var plan, bo, n := ChangePlan(|data|, slot), BackupOffset(|data|), |data|;
    var i: nat, torn: seq<byte> :| i < |plan| && |torn| <= |plan[i].1| && after == Torn(data, plan, i, torn);
    ApplyNext(data, plan, 0);
    if i == 0 {
      assert after == Splice(data, bo, torn);
      SliceBesideSplice(data, bo, torn, 0, SLOT_SIZE);
      SliceBesideSplice(data, bo, torn, SLOT_SIZE, bo);
      SliceBesideSplice(data, bo, torn, bo + SLOT_SIZE, n);
      assert after[bo + SLOT_SIZE..] == after[bo + SLOT_SIZE..n] && data[bo + SLOT_SIZE..] == data[bo + SLOT_SIZE..n];
      assert after[..SLOT_SIZE] == after[0..SLOT_SIZE] && data[..SLOT_SIZE] == data[0..SLOT_SIZE];
    } else {
      var first := Splice(data, bo, slot);
      assert after == Splice(first, 0, torn);
      AroundTwo(data, bo, slot, torn);
    }
  }

  /** A write of the backup slot, then one that stays in the primary slot. */
  lemma AroundTwo(data: seq<byte>, bo: nat, slot: seq<byte>, d: seq<byte>)
    requires |slot| == SLOT_SIZE && |d| <= SLOT_SIZE <= bo && bo + SLOT_SIZE <= |data|
    ensures var after := Splice(Splice(data, bo, slot), 0, d);
            && after[bo..bo + SLOT_SIZE] == slot
            && after[SLOT_SIZE..bo] == data[SLOT_SIZE..bo] && after[bo + SLOT_SIZE..] == data[bo + SLOT_SIZE..]
            && (|d| == SLOT_SIZE ==> after[..SLOT_SIZE] == d)
  {
    hide Splice;
    var first, n := Splice(data, bo, slot), |data|;
    SpliceParts(data, bo, slot);
    SpliceParts(first, 0, d);
    SliceBesideSplice(data, bo, slot, SLOT_SIZE, bo);
    SliceBesideSplice(data, bo, slot, bo + SLOT_SIZE, n);
    SliceBesideSplice(first, 0, d, bo, bo + SLOT_SIZE);
    SliceBesideSplice(first, 0, d, SLOT_SIZE, bo);
    SliceBesideSplice(first, 0, d, bo + SLOT_SIZE, n);
  }

  lemma Completed(data: seq<byte>, slot: seq<byte>)
    requires |data| >= FOUR_SLOTS && |slot| == SLOT_SIZE
    ensures var after, bo := ApplyAll(data, ChangePlan(|data|, slot)), BackupOffset(|data|);
            && |after| == |data| && after[..SLOT_SIZE] == slot && after[bo..bo + SLOT_SIZE] == slot
            && after[SLOT_SIZE..bo] == data[SLOT_SIZE..bo] && after[bo + SLOT_SIZE..] == data[bo + SLOT_SIZE..]
  {
    hide Splice;
    var plan, bo := ChangePlan(|data|, slot), BackupOffset(|data|);
    ApplyNext(data, plan, 0);
    ApplyNext(data, plan, 1);
    assert ApplyAll(data, plan) == Splice(Splice(data, bo, slot), 0, slot);
    AroundTwo(data, bo, slot, slot);
  }

  lemma HeadsOf(after: seq<byte>, data: seq<byte>, lo: nat, hi: nat, off: nat)
    requires lo <= off && off + EFFECTIVE_SIZE <= hi <= |data| && |after| == |data| && after[lo..hi] == data[lo..hi]
    ensures Head(after, off) == Head(data, off)
  {
    SliceOfSlice(after, lo, hi, off - lo, off - lo + EFFECTIVE_SIZE);
    SliceOfSlice(data, lo, hi, off - lo, off - lo + EFFECTIVE_SIZE);
  }

  lemma HeadOfSlot(after: seq<byte>, off: nat, slot: seq<byte>)
    requires |slot| == SLOT_SIZE && off + SLOT_SIZE <= |after| && after[off..off + SLOT_SIZE] == slot
    ensures Head(after, off) == slot[..EFFECTIVE_SIZE]
  {
    SliceOfSlice(after, off, off + SLOT_SIZE, 0, EFFECTIVE_SIZE);
  }

  // ------------------------------------------------------------------ what still opens

  /** An opened volume carries the header it was read from. */
  predicate Consistent(r: OpenResult) {
    && Printable(r.header) && |r.header.masterKeydata| == KEYDATA_SIZE
    && r == Opened(r.header, r.salt, r.kdf, r.headerCipher, r.usedBackupHeader)
  }

  lemma FoundIsConsistent(p: Primitives, password: seq<byte>, attempts: seq<Attempt>)
    requires forall a :: a in attempts ==> Proper(a)
    ensures FirstSuccess(p, password, attempts).Some? ==> Consistent(FirstSuccess(p, password, attempts).value)
  {
    hide Parse, Crypted, FirstSuccess;
    var i := FirstSuccessIs(p, password, attempts);
    if i < |attempts| {
      var a := attempts[i];
      assert a in attempts;
      var key := CipherKey(Derive(p, a.kdf, password, a.head[..SALT_SIZE]).value, a.cipher);
      ParsedKeydata(Crypted(p.suite, a.cipher, key, a.head, false));
    }
  }

  /** Two openings give access to the same data. */
  predicate SameVolume(a: OpenResult, b: OpenResult) {
    && a.masterKey == b.masterKey && a.dataCipher == b.dataCipher
    && a.dataOffset == b.dataOffset && a.dataLength == b.dataLength && a.volumeType == b.volumeType
  }

  /** One change of credentials on one file. */
  datatype ChangeCase = ChangeCase(
    p: Primitives, data: seq<byte>, oldPassword: seq<byte>, oldKdfs: seq<KdfCandidate>, open: OpenResult,
    newPassword: seq<byte>, newKdf: KdfCandidate, newKdfs: seq<KdfCandidate>, newSalt: Salt, key: seq<byte>)

  /** The volume was opened with the old credentials, and the new key is derived from the new
      ones by a derivation that an opener with the new credentials tries. */
  predicate IsCase(x: ChangeCase) {
    && FOUR_SLOTS <= |x.data| < TWO_64
    && Open(x.p, x.data, x.oldPassword, x.oldKdfs) == Ok(x.open)
    && x.newKdf in x.newKdfs
    && Derive(x.p, x.newKdf, x.newPassword, x.newSalt) == Some(x.key)
  }

  function Slot(x: ChangeCase): (r: seq<byte>)
    requires IsCase(x)
    ensures |r| == SLOT_SIZE
  {
    NewSlot(x.p, x.open, x.newSalt, x.key)
  }

  function NewAttempt(x: ChangeCase, isBackup: bool): (a: Attempt)
    requires IsCase(x)
    ensures Proper(a)
  {
    Attempt(Slot(x)[..EFFECTIVE_SIZE], isBackup, x.newKdf, x.open.headerCipher)
  }

  lemma OpenIsConsistent(x: ChangeCase)
    requires IsCase(x)
    ensures Consistent(x.open)
  {
    hide FileAttempts, FirstSuccess;
    FoundIsConsistent(x.p, x.oldPassword, FileAttempts(x.data, x.oldKdfs));
  }

  /** The new slot opens with the new credentials, and to the same volume when the search gets to
      the attempt it was sealed for. */
  lemma NewSlotOpens(x: ChangeCase, isBackup: bool)
    requires IsCase(x)
    ensures var found := Found(x.p, x.newPassword, x.newKdfs, Slot(x)[..EFFECTIVE_SIZE], isBackup);
            && found.Some?
            && (ReachedFirst(x.p, x.newPassword, x.newKdfs, NewAttempt(x, isBackup)) ==>
                SameVolume(found.value, x.open) && found.value.usedBackupHeader == isBackup)
  {
    hide Try, Derive, SlotAttempts, FirstSuccess, SealedHead, Open, Normalized;
    OpenIsConsistent(x);
    var h := x.open.header.(salt := x.newSalt);
    SealedOpens(x.p, x.newPassword, h, x.key, x.newKdf, x.open.headerCipher, isBackup);
    NormalizedKeydata(h);
    var i :| 0 <= i < |x.newKdfs| && x.newKdfs[i] == x.newKdf;
    IsTried(Slot(x)[..EFFECTIVE_SIZE], isBackup, x.newKdfs, i, x.open.headerCipher);
    FoundWhenTried(x.p, x.newPassword, x.newKdfs, NewAttempt(x, isBackup));
  }

  /** At a crash point the old credentials open the volume exactly as before, or the new ones
      open it: to the same volume, from the backup, unless what was torn in the primary slot
      happens to authenticate or another attempt on the new header does so first. */
  ghost predicate StillOpens(x: ChangeCase, after: seq<byte>)
    requires IsCase(x) && |after| == |x.data|
  {
    || Open(x.p, after, x.oldPassword, x.oldKdfs) == Ok(x.open)
    || var now := Open(x.p, after, x.newPassword, x.newKdfs);
       && now.Ok?
       && (Found(x.p, x.newPassword, x.newKdfs, Head(after, 0), false).None?
           && ReachedFirst(x.p, x.newPassword, x.newKdfs, NewAttempt(x, true)) ==>
             SameVolume(now.value, x.open) && now.value.usedBackupHeader)
  }

  /** When the old credentials authenticate on the primary slot, the change is crash-safe,
      whatever a cut-short write leaves in the slot it was writing. */
  lemma ChangeIsCrashSafe(x: ChangeCase, after: seq<byte>)
    requires IsCase(x) && Found(x.p, x.oldPassword, x.oldKdfs, Head(x.data, 0), false).Some?
    requires CrashState(x.data, ChangePlan(|x.data|, Slot(x)), after)
    ensures |after| == |x.data| && StillOpens(x, after)
  {
    hide Open, Slot, Found, CrashState, Head;
    Phases(x.data, Slot(x), after);
    var bo := BackupOffset(|x.data|);
    if after[..SLOT_SIZE] == x.data[..SLOT_SIZE] {
      HeadsOf(after, x.data, 0, SLOT_SIZE, 0);
      OpenLarge(x.p, x.data, x.oldPassword, x.oldKdfs);
      OpenLarge(x.p, after, x.oldPassword, x.oldKdfs);
    } else {
      HeadOfSlot(after, bo, Slot(x));
      NewSlotOpens(x, true);
      OpenLarge(x.p, after, x.newPassword, x.newKdfs);
    }
  }

  /** After the change the new credentials open the same volume from the primary slot, and
      nothing outside the two slots has changed. */
  lemma AfterChange(x: ChangeCase)
    requires IsCase(x)
    ensures var after, bo := ApplyAll(x.data, ChangePlan(|x.data|, Slot(x))), BackupOffset(|x.data|);
            && |after| == |x.data|
            && after[SLOT_SIZE..bo] == x.data[SLOT_SIZE..bo] && after[bo + SLOT_SIZE..] == x.data[bo + SLOT_SIZE..]
            && after[..SLOT_SIZE] == after[bo..bo + SLOT_SIZE] == Slot(x)
            && Open(x.p, after, x.newPassword, x.newKdfs).Ok?
            && (ReachedFirst(x.p, x.newPassword, x.newKdfs, NewAttempt(x, false)) ==>
                var now := Open(x.p, after, x.newPassword, x.newKdfs).value;
                SameVolume(now, x.open) && !now.usedBackupHeader)
  {
    hide Open, Slot, Found, ApplyAll, Head;
    Completed(x.data, Slot(x));
    var after := ApplyAll(x.data, ChangePlan(|x.data|, Slot(x)));
    assert after[0..SLOT_SIZE] == after[..SLOT_SIZE];
    HeadOfSlot(after, 0, Slot(x));
    NewSlotOpens(x, false);
    OpenLarge(x.p, after, x.newPassword, x.newKdfs);
  }

  // ------------------------------------------------------------------ opened from the backup

  /** At every crash point the volume opens with the old credentials or with the new ones. */
  ghost predicate Survives(x: ChangeCase)
    requires IsCase(x)
  {
    forall after :: CrashState(x.data, ChangePlan(|x.data|, Slot(x)), after) ==>
      && |after| == |x.data|
      && (Open(x.p, after, x.oldPassword, x.oldKdfs).Ok? || Open(x.p, after, x.newPassword, x.newKdfs).Ok?)
  }

  /** The header at a place opens with the old credentials or with the new ones. */
  predicate OpensAt(x: ChangeCase, off: nat)
    requires IsCase(x) && off + EFFECTIVE_SIZE <= |x.data|
  {
    || Found(x.p, x.oldPassword, x.oldKdfs, Head(x.data, off), false).Some?
    || Found(x.p, x.newPassword, x.newKdfs, Head(x.data, off), false).Some?
  }

  /** One of the three headers that are not the first to be overwritten opens. */
  predicate AnotherHeaderOpens(x: ChangeCase)
    requires IsCase(x)
  {
    OpensAt(x, 0) || OpensAt(x, SLOT_SIZE) || OpensAt(x, HiddenBackupOffset(|x.data|))
  }

  lemma SearchOfFour(p: Primitives, data: seq<byte>, password: seq<byte>, kdfs: seq<KdfCandidate>)
    requires FOUR_SLOTS <= |data| < TWO_64
    ensures Open(p, data, password, kdfs).Ok?
       <==> || Found(p, password, kdfs, Head(data, 0), false).Some?
            || Found(p, password, kdfs, Head(data, BackupOffset(|data|)), false).Some?
            || Found(p, password, kdfs, Head(data, SLOT_SIZE), false).Some?
            || Found(p, password, kdfs, Head(data, HiddenBackupOffset(|data|)), false).Some?
  {
    hide Open, Found, Head;
    OpenLarge(p, data, password, kdfs);
    FlagFollowsSlot(p, password, kdfs, Head(data, BackupOffset(|data|)));
    FlagFollowsSlot(p, password, kdfs, Head(data, HiddenBackupOffset(|data|)));
  }

  /** Writing the backup slot, whole or in part, leaves the other three headers. */
  lemma OtherHeadsKept(data: seq<byte>, d: seq<byte>)
    requires |data| >= FOUR_SLOTS && |d| <= SLOT_SIZE
    ensures var after := Splice(data, BackupOffset(|data|), d);
            && Head(after, 0) == Head(data, 0) && Head(after, SLOT_SIZE) == Head(data, SLOT_SIZE)
            && Head(after, HiddenBackupOffset(|data|)) == Head(data, HiddenBackupOffset(|data|))
  {
    hide Splice;
    var bo, n := BackupOffset(|data|), |data|;
    SliceBesideSplice(data, bo, d, 0, EFFECTIVE_SIZE);
    SliceBesideSplice(data, bo, d, SLOT_SIZE, SLOT_SIZE + EFFECTIVE_SIZE);
    SliceBesideSplice(data, bo, d, bo + SLOT_SIZE, bo + SLOT_SIZE + EFFECTIVE_SIZE);
  }

  lemma SurvivesWhenAnother(x: ChangeCase)
    requires IsCase(x) && AnotherHeaderOpens(x)
    ensures Survives(x)
  {
    hide Open, Slot, Found, CrashState, Head;
    var n, bo := |x.data|, BackupOffset(|x.data|);
    forall after | CrashState(x.data, ChangePlan(n, Slot(x)), after)
      ensures |after| == n
           && (Open(x.p, after, x.oldPassword, x.oldKdfs).Ok? || Open(x.p, after, x.newPassword, x.newKdfs).Ok?)
    {
      Phases(x.data, Slot(x), after);
      SearchOfFour(x.p, after, x.oldPassword, x.oldKdfs);
      SearchOfFour(x.p, after, x.newPassword, x.newKdfs);
      if after[..SLOT_SIZE] == x.data[..SLOT_SIZE] {
        HeadsOf(after, x.data, 0, SLOT_SIZE, 0);
        HeadsOf(after, x.data, SLOT_SIZE, bo, SLOT_SIZE);
        HeadsOf(after, x.data, bo + SLOT_SIZE, n, HiddenBackupOffset(n));
      } else {
        HeadOfSlot(after, bo, Slot(x));
        NewSlotOpens(x, false);
      }
    }
  }

  lemma TornFirst(x: ChangeCase, head: seq<byte>)
    requires IsCase(x) && |head| == EFFECTIVE_SIZE
    ensures CrashState(x.data, ChangePlan(|x.data|, Slot(x)), Splice(x.data, BackupOffset(|x.data|), head))
  {
    hide Splice, Slot;
    var plan := ChangePlan(|x.data|, Slot(x));
    ApplyNext(x.data, plan, 0);
    assert Torn(x.data, plan, 0, head) == Splice(x.data, BackupOffset(|x.data|), head);
  }

  lemma HeadOfSplice(data: seq<byte>, off: nat, head: seq<byte>)
    requires |head| == EFFECTIVE_SIZE && off + EFFECTIVE_SIZE <= |data|
    ensures Head(Splice(data, off, head), off) == head
  {
    hide Splice;
    SpliceParts(data, off, head);
  }

  /** When no other header opens, the first write may be cut short so that nothing does. */
  lemma LostWhenNoOther(x: ChangeCase)
    requires IsCase(x) && !AnotherHeaderOpens(x) && |x.oldKdfs| + |x.newKdfs| < 0x1000_0000
    ensures !Survives(x)
  {
    hide Open, Slot, Found, CrashState, Head, Splice;
    var bo := BackupOffset(|x.data|);
    var head := SomeHeadIsRefused(x.p, x.oldPassword, x.oldKdfs, x.newPassword, x.newKdfs);
    var after := Splice(x.data, bo, head);
    TornFirst(x, head);
    HeadOfSplice(x.data, bo, head);
    OtherHeadsKept(x.data, head);
    SearchOfFour(x.p, after, x.oldPassword, x.oldKdfs);
    SearchOfFour(x.p, after, x.newPassword, x.newKdfs);
  }

  /** At every crash point the old or the new credentials open the volume, exactly when one of them
      opens a header other than the normal backup, which is the first to be overwritten. */
  lemma CrashSafeExactly(x: ChangeCase)
    requires IsCase(x) && |x.oldKdfs| + |x.newKdfs| < 0x1000_0000
    ensures Survives(x) <==> AnotherHeaderOpens(x)
  {
    hide Survives, AnotherHeaderOpens;
    if AnotherHeaderOpens(x) {
      SurvivesWhenAnother(x);
    } else {
      LostWhenNoOther(x);
    }
  }

  /** So a volume survives if it was not opened from a backup, or was from the hidden one. */
  lemma SurvivesUnlessFromBackup(x: ChangeCase)
    requires IsCase(x)
    requires || !x.open.usedBackupHeader
             || Found(x.p, x.oldPassword, x.oldKdfs, Head(x.data, BackupOffset(|x.data|)), true).None?
    ensures Survives(x)
  {
    hide Survives, Open, Found, Head;
    var bo, hidden := Head(x.data, BackupOffset(|x.data|)), Head(x.data, HiddenBackupOffset(|x.data|));
    OpenLarge(x.p, x.data, x.oldPassword, x.oldKdfs);
    FlagFollowsSlot(x.p, x.oldPassword, x.oldKdfs, bo);
    FlagFollowsSlot(x.p, x.oldPassword, x.oldKdfs, hidden);
    SurvivesWhenAnother(x);
  }

  // ------------------------------------------------------------------ what the change takes away

  /** Whom the file opens for after a completed change: any credentials, old ones included, that
      authenticate on the new slot's header or on one of the two hidden slots, which are not
      written; and the new slot decides before they do. */
  lemma OpensAfterChange(x: ChangeCase, password: seq<byte>, kdfs: seq<KdfCandidate>)
    requires IsCase(x)
    ensures var after, head := ApplyAll(x.data, ChangePlan(|x.data|, Slot(x))), Slot(x)[..EFFECTIVE_SIZE];
            && |after| == |x.data|
            && Open(x.p, after, password, kdfs)
               == Outcome(Either(Found(x.p, password, kdfs, head, false),
                          Either(Found(x.p, password, kdfs, Head(x.data, SLOT_SIZE), false),
                                 Found(x.p, password, kdfs, Head(x.data, HiddenBackupOffset(|x.data|)), true))))
  {
    hide Open, Slot, Found, ApplyAll, Head;
    var after, n, bo := ApplyAll(x.data, ChangePlan(|x.data|, Slot(x))), |x.data|, BackupOffset(|x.data|);
    Completed(x.data, Slot(x));
    assert after[0..SLOT_SIZE] == after[..SLOT_SIZE];
    HeadOfSlot(after, 0, Slot(x));
    HeadOfSlot(after, bo, Slot(x));
    assert after[bo + SLOT_SIZE..n] == after[bo + SLOT_SIZE..] && x.data[bo + SLOT_SIZE..n] == x.data[bo + SLOT_SIZE..];
    HeadsOf(after, x.data, SLOT_SIZE, bo, SLOT_SIZE);
    HeadsOf(after, x.data, bo + SLOT_SIZE, n, HiddenBackupOffset(n));
    OpenLarge(x.p, after, password, kdfs);
    FlagFollowsSlot(x.p, password, kdfs, Slot(x)[..EFFECTIVE_SIZE]);
  }

  /** So the old credentials still open the file exactly when they authenticate there. */
  lemma OldOpenAfterIff(x: ChangeCase)
    requires IsCase(x)
    ensures var after := ApplyAll(x.data, ChangePlan(|x.data|, Slot(x)));
            |after| == |x.data|
            && (Open(x.p, after, x.oldPassword, x.oldKdfs).Ok?
                <==> || Found(x.p, x.oldPassword, x.oldKdfs, Slot(x)[..EFFECTIVE_SIZE], false).Some?
                     || Found(x.p, x.oldPassword, x.oldKdfs, Head(x.data, SLOT_SIZE), false).Some?
                     || Found(x.p, x.oldPassword, x.oldKdfs, Head(x.data, HiddenBackupOffset(|x.data|)), false).Some?)
  {
    hide Open, Slot, Found, ApplyAll, Head, IsCase;
    OpensAfterChange(x, x.oldPassword, x.oldKdfs);
    FlagFollowsSlot(x.p, x.oldPassword, x.oldKdfs, Head(x.data, HiddenBackupOffset(|x.data|)));
  }

  /** A volume that was opened from a hidden slot is still opened by the credentials being replaced,
      exactly as before, unless they happen to authenticate on the new slot. */
  lemma HiddenKeepsOldPassword(x: ChangeCase)
    requires IsCase(x) && Found(x.p, x.oldPassword, x.oldKdfs, Head(x.data, 0), false).None?
    requires Found(x.p, x.oldPassword, x.oldKdfs, Head(x.data, BackupOffset(|x.data|)), true).None?
    requires Found(x.p, x.oldPassword, x.oldKdfs, Slot(x)[..EFFECTIVE_SIZE], false).None?
    ensures var after := ApplyAll(x.data, ChangePlan(|x.data|, Slot(x)));
            |after| == |x.data| && Open(x.p, after, x.oldPassword, x.oldKdfs) == Ok(x.open)
  {
    hide Slot, Found, ApplyAll, Head, Open;
    OpensAfterChange(x, x.oldPassword, x.oldKdfs);
    OpenLarge(x.p, x.data, x.oldPassword, x.oldKdfs);
  }

  /** And whatever opened from the normal slots before is gone: credentials that authenticate neither on
      the new slot nor on a hidden one open nothing any more. When the volume changed was the hidden
      one, what stands in the place of the outer volume's headers is the hidden volume's. */
  lemma NormalHeadersReplaced(x: ChangeCase, password: seq<byte>, kdfs: seq<KdfCandidate>)
    requires IsCase(x) && Found(x.p, password, kdfs, Slot(x)[..EFFECTIVE_SIZE], false).None?
    requires Found(x.p, password, kdfs, Head(x.data, SLOT_SIZE), false).None?
    requires Found(x.p, password, kdfs, Head(x.data, HiddenBackupOffset(|x.data|)), true).None?
    requires ReachedFirst(x.p, x.newPassword, x.newKdfs, NewAttempt(x, false))
    ensures var after := ApplyAll(x.data, ChangePlan(|x.data|, Slot(x)));
            && |after| == |x.data| && Open(x.p, after, password, kdfs) == Err(AuthFailed)
            && var now := Open(x.p, after, x.newPassword, x.newKdfs);
               now.Ok? && now.value.volumeType == x.open.volumeType && !now.value.usedBackupHeader
  {
    hide Slot, Found, ApplyAll, Head, Open, ReachedFirst, NewAttempt;
    OpensAfterChange(x, password, kdfs);
    AfterChange(x);
  }

  function ZeroKey(a: KdfAlgorithm, n: u32, m: Option<u32>, password: seq<byte>, salt: Salt): Option<seq<byte>> {
    Some(Zeros(MAX_HEADER_KEY_SIZE))
  }

  /** Primitives that hide nothing: the ciphers are the identity and every key is zero. */
  function Transparent(): Primitives {
    Primitives(MaskSuite(0),
               RawKdfs(ZeroKey, (a: KdfAlgorithm, pim: int) => 1 as u32, (pim: int) => (1 as u32, 1 as u32)))
  }

  lemma MaskOfZero(d: seq<byte>)
    ensures Mask(0, d) == d
  {
    forall i | 0 <= i < |d|
      ensures XorByte(d[i], 0) == d[i]
    {
      XorZero(d[i]);
    }
  }

  lemma {:induction false} PassesDoNothing(passes: seq<XtsMode>, data: seq<byte>)
    requires Whole(data)
    ensures UndoPasses(MaskSuite(0), passes, 0, data) == data
  {
    hide MaskSuite;
    if passes != [] {
      PassesDoNothing(passes[1..], data);
      MaskFrom(0, passes[0], FirstTweak(MaskSuite(0), passes[0], 0), data);
      MaskOfZero(data);
    }
  }

  lemma {:induction false} ZerosAreZero(n: nat)
    ensures BeValue(Zeros(n)) == 0
  {
    if n > 0 {
      assert Zeros(n)[..n - 1] == Zeros(n - 1);
      ZerosAreZero(n - 1);
    }
  }

  lemma BlankMagic()
    ensures U32At(Zeros(EFFECTIVE_SIZE)[SALT_SIZE..EFFECTIVE_SIZE], 0) == 0
  {
    hide BeValue;
    ZerosAreZero(4);
    assert Zeros(EFFECTIVE_SIZE)[SALT_SIZE..EFFECTIVE_SIZE][0..0 + 4] == Zeros(4);
  }

  lemma BlankDoesNotParse()
    ensures Parse(Zeros(EFFECTIVE_SIZE)).Err?
  {
    hide U32At, Parse;
    BlankMagic();
    WrongMagic(Zeros(EFFECTIVE_SIZE));
  }

  lemma BlankFails(password: seq<byte>, a: Attempt)
    requires a.head == Zeros(EFFECTIVE_SIZE)
    ensures Try(Transparent(), password, a).None?
  {
    hide Parse, MaskSuite, CipherKey, Passes;
    var key := CipherKey(Zeros(MAX_HEADER_KEY_SIZE), a.cipher);
    PassesDoNothing(Passes(a.cipher, key), a.head[SALT_SIZE..]);
    assert a.head == a.head[..SALT_SIZE] + a.head[SALT_SIZE..];
    BlankDoesNotParse();
  }

  lemma BlankNotFound(password: seq<byte>, kdfs: seq<KdfCandidate>, isBackup: bool)
    ensures Found(Transparent(), password, kdfs, Zeros(EFFECTIVE_SIZE), isBackup).None?
  {
    hide Try, Transparent, FirstSuccess;
    var attempts := SlotAttempts(Zeros(EFFECTIVE_SIZE), isBackup, kdfs);
    var i := FirstSuccessIs(Transparent(), password, attempts);
    if i < |attempts| {
      assert attempts[i] in attempts;
      BlankFails(password, attempts[i]);
    }
  }

  const ANY_KDF := KdfCandidate(Pbkdf2Sha256, 0, 1, None)

  const ANY_HEADER := VolumeHeader(Zeros(SALT_SIZE), VOLUME_MAGIC, 5, 0x010b, 0, 0, 0, 0, 0, FOUR_SLOTS, 0, 0, 512,
                                   Zeros(KEYDATA_SIZE), 0)

  /** A file whose only header is in the backup slot. */
  function OnlyBackup(): (data: seq<byte>)
    ensures |data| == FOUR_SLOTS
  {
    Zeros(2 * SLOT_SIZE) + SealedSlot(Transparent(), ANY_HEADER, Zeros(MAX_HEADER_KEY_SIZE), Aes) + Zeros(SLOT_SIZE)
  }

  lemma OnlyBackupHeads()
    ensures var data := OnlyBackup();
            && Head(data, 0) == Zeros(EFFECTIVE_SIZE)
            && Head(data, BackupOffset(FOUR_SLOTS))
               == SealedHead(Transparent(), ANY_HEADER, Zeros(MAX_HEADER_KEY_SIZE), Aes)
            && Splice(data, BackupOffset(FOUR_SLOTS), Zeros(SLOT_SIZE)) == Zeros(FOUR_SLOTS)
  {
    hide Transparent, SealedHead;
    var slot := SealedSlot(Transparent(), ANY_HEADER, Zeros(MAX_HEADER_KEY_SIZE), Aes);
    SpliceOfThree(Zeros(2 * SLOT_SIZE), slot, Zeros(SLOT_SIZE), Zeros(SLOT_SIZE));
    var data := OnlyBackup();
    assert data[2 * SLOT_SIZE..2 * SLOT_SIZE + SLOT_SIZE] == slot;
    HeadOfSlot(data, 2 * SLOT_SIZE, slot);
  }

  lemma OnlyBackupOpens(password: seq<byte>)
    ensures var r := Open(Transparent(), OnlyBackup(), password, [ANY_KDF]);
            r.Ok? && r.value.usedBackupHeader
  {
    hide Try, Transparent, SealedHead, Found, Open, OnlyBackup, Head;
    var p, data, key := Transparent(), OnlyBackup(), Zeros(MAX_HEADER_KEY_SIZE);
    OnlyBackupHeads();
    OpenLarge(p, data, password, [ANY_KDF]);
    BlankNotFound(password, [ANY_KDF], false);
    ZeroKeyDerives(password, Zeros(SALT_SIZE));
    SealedOpens(p, password, ANY_HEADER, key, ANY_KDF, Aes, true);
    IsTried(SealedHead(p, ANY_HEADER, key, Aes), true, [ANY_KDF], 0, Aes);
    FoundWhenTried(p, password, [ANY_KDF], Attempt(SealedHead(p, ANY_HEADER, key, Aes), true, ANY_KDF, Aes));
    FlagFollowsSlot(p, password, [ANY_KDF], SealedHead(p, ANY_HEADER, key, Aes));
  }

  lemma ZeroKeyDerives(password: seq<byte>, salt: Salt)
    ensures Derive(Transparent(), ANY_KDF, password, salt) == Some(Zeros(MAX_HEADER_KEY_SIZE))
  {
  }

  lemma BlankFileDoesNotOpen(password: seq<byte>, kdfs: seq<KdfCandidate>)
    ensures Open(Transparent(), Zeros(FOUR_SLOTS), password, kdfs).Err?
  {
    hide Transparent, Found, Open;
    OpenLarge(Transparent(), Zeros(FOUR_SLOTS), password, kdfs);
    forall off | 0 <= off <= FOUR_SLOTS - EFFECTIVE_SIZE
      ensures Head(Zeros(FOUR_SLOTS), off) == Zeros(EFFECTIVE_SIZE)
    {
    }
    BlankNotFound(password, kdfs, true);
    BlankNotFound(password, kdfs, false);
  }

  /** The header the volume was opened from is the first to be overwritten. */
  lemma BackupOverwrittenFirst() returns (x: ChangeCase)
    ensures IsCase(x) && x.open.usedBackupHeader && !Survives(x)
  {
    hide Open, Transparent, OnlyBackup, Head, Derive, Slot;
    OnlyBackupOpens([]);
    OnlyBackupHeads();
    ZeroKeyDerives([], Zeros(SALT_SIZE));
    var p, data := Transparent(), OnlyBackup();
    x := ChangeCase(p, data, [], [ANY_KDF], Open(p, data, [], [ANY_KDF]).value, [], ANY_KDF, [ANY_KDF],
                    Zeros(SALT_SIZE), Zeros(MAX_HEADER_KEY_SIZE));
    var plan := ChangePlan(FOUR_SLOTS, Slot(x));
    ApplyNext(data, plan, 0);
    assert Torn(data, plan, 0, Zeros(SLOT_SIZE)) == Zeros(FOUR_SLOTS);
    assert CrashState(data, plan, Zeros(FOUR_SLOTS));
    BlankFileDoesNotOpen([], [ANY_KDF]);
  }
}
