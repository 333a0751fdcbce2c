/**
 Restoring the primary header from its backup: the backup is validated with the given
 credentials, written over the primary slot, and then written back over itself.
 */
module HeaderRestore {
  import opened Bytes
  import opened Ciphers
  import opened HeaderFormat
  import opened HeaderCrypto
  import opened VolumeOpen
  import opened HeaderSlots
  import opened VolumeFile

  /** The credentials' derivations: one that is named, or all of them. */
  function Derivations(p: Primitives, kdf: Option<KdfAlgorithm>, pim: Option<int>): seq<KdfCandidate> {
    match kdf
    case Some(k) => [MakeCandidate(p, k, if pim.Some? then pim.value else 0)]
    case None => AutoCandidates(p, pim)
  }

  function BackupSlot(data: seq<byte>): (r: seq<byte>)
    requires |data| >= 2 * SLOT_SIZE
    ensures |r| == SLOT_SIZE
  {
    data[BackupOffset(|data|)..BackupOffset(|data|) + SLOT_SIZE]
  }

  function RestorePlan(data: seq<byte>): seq<Change>
    requires |data| >= 2 * SLOT_SIZE
  {
    [(0, BackupSlot(data)), (BackupOffset(|data|), BackupSlot(data))]
  }

  ghost predicate Validates(p: Primitives, data: seq<byte>, password: seq<byte>, kdfs: seq<KdfCandidate>)
    requires |data| >= 2 * SLOT_SIZE
  {
    Found(p, password, kdfs, BackupSlot(data)[..EFFECTIVE_SIZE], true).Some?
  }

  /** A backup that was sealed with any algorithm, under the costs of a multiplier, and with any cipher is
      validated with that multiplier, with the algorithm named or not; and without the multiplier if
      it was sealed with 0. */
  lemma SealedValidates(p: Primitives, data: seq<byte>, password: seq<byte>, h: VolumeHeader, key: seq<byte>,
                        algorithm: KdfAlgorithm, pim: int, ct: CipherType)
    requires Printable(h) && |key| == MAX_HEADER_KEY_SIZE
    requires if algorithm.Argon2id? then
               p.kdfs.derive(Argon2id, p.kdfs.argonCosts(pim).1, Some(p.kdfs.argonCosts(pim).0), password, h.salt)
               == Some(key)
             else p.kdfs.derive(algorithm, p.kdfs.iterationCount(algorithm, pim), None, password, h.salt) == Some(key)
    requires |data| >= 131072 && data[|data| - 131072..|data| - 131072 + 512] == SealedHead(p, h, key, ct)
    ensures Validates(p, data, password, Derivations(p, Some(algorithm), Some(pim)))
    ensures Validates(p, data, password, Derivations(p, None, Some(pim)))
    ensures pim == 0 ==> Validates(p, data, password, Derivations(p, Some(algorithm), None))
    ensures pim == 0 ==> Validates(p, data, password, Derivations(p, None, None))
  {
    hide Found, SealedHead, MakeCandidate, AutoCandidates;
    FindsSealed(p, password, h, key, algorithm, pim, ct, true);
    assert BackupSlot(data)[..EFFECTIVE_SIZE] == data[|data| - 131072..|data| - 131072 + 512];
  }

  /** The file when the first write is complete and the second, whose outcome is ignored, has put
      down `torn`. */
  function Restored(data: seq<byte>, torn: seq<byte>): seq<byte>
    requires |data| >= 2 * SLOT_SIZE
  {
    WriteAt(WriteAt(data, 0, BackupSlot(data)), BackupOffset(|data|), torn)
  }

  /** `restore_volume_header`. A failed validation changes nothing. Success means the primary
      write was complete; the refresh of the backup is complete unless its own write failed. */
  method RestoreVolumeHeader(p: Primitives, file: File, password: seq<byte>, kdf: Option<KdfAlgorithm>,
                             pim: Option<int>)
    returns (r: Result<(), VolumeError>)
    requires |file.data| < TWO_63
    modifies file
    ensures |old(file.data)| < 2 * SLOT_SIZE ==> r == Err(InvalidFormat) && file.data == old(file.data)
    ensures |old(file.data)| >= 2 * SLOT_SIZE && !Validates(p, old(file.data), password, Derivations(p, kdf, pim)) ==>
      r == Err(AuthFailed) && file.data == old(file.data)
    ensures |old(file.data)| >= 2 * SLOT_SIZE && Validates(p, old(file.data), password, Derivations(p, kdf, pim)) ==>
      && CrashState(old(file.data), RestorePlan(old(file.data)), file.data)
      && (r.Ok? <==> old(file.faults(file.calls)).None?)
      && (r.Err? ==> r.error == IoError)
      && (r.Ok? ==> exists torn: seq<byte> :: |torn| <= SLOT_SIZE && file.data == Restored(old(file.data), torn))
      && (r.Ok? && old(file.faults(file.calls + 1)).None? ==>
          file.data == Restored(old(file.data), BackupSlot(old(file.data))))
  {
    hide SlotAttempts, FirstSuccess, Derivations, CrashState, ApplyAll, WriteAt;
    ghost var start := file.data;
    var end := file.SeekEnd();
    if end < 2 * SLOT_SIZE {
      return Err(InvalidFormat);
    }
    var backupOffset := end - 2 * SLOT_SIZE;
    var sought := file.SeekStart(backupOffset);
    var read := file.ReadExact(SLOT_SIZE);
    var backup := read.value;
    assert backup == BackupSlot(start);
    var tried := TryOpen(p, backup[..EFFECTIVE_SIZE], password, Derivations(p, kdf, pim), true);
    assert backup[..EFFECTIVE_SIZE][..EFFECTIVE_SIZE] == backup[..EFFECTIVE_SIZE];
    if tried.Err? {
      return Err(tried.error);
    }
    ghost var plan := RestorePlan(start);
    ApplyNext(start, plan, 0);
    var ok := file.WriteStep(start, plan, 0, 0, backup);
    if !ok {
      return Err(IoError);
    }
    ApplyNext(start, plan, 1);
    assert ApplyAll(start, plan[..1]) == WriteAt(start, 0, backup);
    var refreshed := file.WriteStep(start, plan, 1, backupOffset, backup);
    ghost var torn: seq<byte> :| |torn| <= SLOT_SIZE && file.data == Torn(start, plan, 1, torn);
    assert file.data == Restored(start, torn);
    return Ok(());
  }

  // ------------------------------------------------------------------ what a restored file is

  /** With the slots apart, a restored primary slot is the old backup slot byte for byte; what is
      neither slot is untouched, and a complete refresh leaves the backup slot as it was. */
  lemma RestoredLayout(data: seq<byte>, torn: seq<byte>)
    requires 3 * SLOT_SIZE <= |data| && |torn| <= SLOT_SIZE
    ensures var after, bo := Restored(data, torn), BackupOffset(|data|);
            && |after| == |data| && after[..SLOT_SIZE] == BackupSlot(data)
            && after[SLOT_SIZE..bo] == data[SLOT_SIZE..bo] && after[bo + SLOT_SIZE..] == data[bo + SLOT_SIZE..]
            && (torn == BackupSlot(data) ==> after[SLOT_SIZE..] == data[SLOT_SIZE..])
  {
    hide Splice, WriteAt;
    var backup, bo, n := BackupSlot(data), BackupOffset(|data|), |data|;
    var first := Splice(data, 0, backup);
    SpliceParts(data, 0, backup);
    SliceBesideSplice(first, bo, torn, 0, SLOT_SIZE);
    SliceBesideSplice(first, bo, torn, SLOT_SIZE, bo);
    SliceBesideSplice(data, 0, backup, SLOT_SIZE, bo);
    SliceBesideSplice(first, bo, torn, bo + SLOT_SIZE, n);
    SliceBesideSplice(data, 0, backup, bo + SLOT_SIZE, n);
    if torn == backup {
      SliceBesideSplice(data, 0, backup, bo, bo + SLOT_SIZE);
      SpliceOfOwn(first, bo, backup);
    }
    assert Restored(data, torn) == Splice(first, bo, torn);
  }

  lemma SpliceOfOwn(s: seq<byte>, off: nat, d: seq<byte>)
    requires off + |d| <= |s| && s[off..off + |d|] == d
    ensures Splice(s, off, d) == s
  {
  }

  /** The refresh of the backup leaves the first 512 bytes of the file as they are: it starts after
      them, or what it puts among them is what is there. */
  predicate HeadSpared(data: seq<byte>, torn: seq<byte>)
    requires |data| >= 2 * SLOT_SIZE
  {
    var bo := BackupOffset(|data|);
    bo >= EFFECTIVE_SIZE || var k := Min(|torn|, EFFECTIVE_SIZE - bo); torn[..k] == BackupSlot(data)[bo..bo + k]
  }

  lemma HeadOfTwo(data: seq<byte>, backup: seq<byte>, bo: nat, torn: seq<byte>)
    requires |backup| == SLOT_SIZE <= |data| && bo + |torn| <= |data|
    ensures Head(Splice(Splice(data, 0, backup), bo, torn), 0) == backup[..EFFECTIVE_SIZE]
       <==> bo >= EFFECTIVE_SIZE || var k := Min(|torn|, EFFECTIVE_SIZE - bo); torn[..k] == backup[bo..bo + k]
  {
    var head, want := Head(Splice(Splice(data, 0, backup), bo, torn), 0), backup[..EFFECTIVE_SIZE];
    assert forall i :: 0 <= i < EFFECTIVE_SIZE ==> head[i] == if bo <= i < bo + |torn| then torn[i - bo] else backup[i];
    if bo < EFFECTIVE_SIZE {
      var k := Min(|torn|, EFFECTIVE_SIZE - bo);
      assert forall j :: 0 <= j < k ==> torn[..k][j] == head[bo + j] && backup[bo..bo + k][j] == want[bo + j];
      assert head == want ==> torn[..k] == backup[bo..bo + k];
      assert torn[..k] == backup[bo..bo + k] ==>
        forall i :: bo <= i < bo + k ==> torn[..k][i - bo] == head[i] == want[i];
    }
  }

  /** The restored primary header is the backup's exactly when the refresh spares it. */
  lemma HeadRestoredIff(data: seq<byte>, torn: seq<byte>)
    requires 2 * SLOT_SIZE <= |data| && |torn| <= SLOT_SIZE
    ensures |Restored(data, torn)| == |data|
    ensures Head(Restored(data, torn), 0) == BackupSlot(data)[..EFFECTIVE_SIZE] <==> HeadSpared(data, torn)
  {
    hide Splice, Head, WriteAt;
    var backup, bo := BackupSlot(data), BackupOffset(|data|);
    HeadOfTwo(data, backup, bo, torn);
  }

  /** Which it does on every file of two slots and 512 bytes or more, even if it is cut short; a complete
      one also does on a file of two slots, whose primary slot is its own backup, and in between
      exactly when the header repeats with the offset of the backup. */
  lemma SparedWhen(data: seq<byte>, torn: seq<byte>)
    requires 2 * SLOT_SIZE <= |data| && |torn| <= SLOT_SIZE
    ensures 2 * SLOT_SIZE + EFFECTIVE_SIZE <= |data| ==> HeadSpared(data, torn)
    ensures |data| == 2 * SLOT_SIZE && torn == BackupSlot(data) ==> HeadSpared(data, torn)
    ensures var backup, bo := BackupSlot(data), BackupOffset(|data|);
            bo < EFFECTIVE_SIZE && torn == backup ==>
              (HeadSpared(data, torn) <==> backup[bo..EFFECTIVE_SIZE] == backup[..EFFECTIVE_SIZE - bo])
  {
  }

  /** Then the restored file opens from its primary slot, to what the backup opened to, with the
      backup flag off unless the file is only two slots long. */
  lemma RestoredOpens(p: Primitives, data: seq<byte>, torn: seq<byte>, password: seq<byte>, kdfs: seq<KdfCandidate>)
    requires 2 * SLOT_SIZE <= |data| < TWO_64 && |torn| <= SLOT_SIZE && Validates(p, data, password, kdfs)
    requires HeadSpared(data, torn)
    ensures var backup := Found(p, password, kdfs, BackupSlot(data)[..EFFECTIVE_SIZE], true).value;
            && |Restored(data, torn)| == |data|
            && Open(p, Restored(data, torn), password, kdfs)
               == Ok(backup.(usedBackupHeader := |data| == 2 * SLOT_SIZE))
            && backup.usedBackupHeader
  {
    hide Open, Found, Restored, HeadSpared;
    HeadRestoredIff(data, torn);
    FlagFollowsSlot(p, password, kdfs, BackupSlot(data)[..EFFECTIVE_SIZE]);
    FirstSlotDecides(p, Restored(data, torn), password, kdfs);
  }

  /** On a shorter file the slots overlap, and a complete restore leaves the primary slot equal to
      the backup it was restored from exactly when that backup repeats with the overlap's period. */
  lemma OverlapExact(data: seq<byte>)
    requires 2 * SLOT_SIZE <= |data| < 3 * SLOT_SIZE
    ensures var backup, bo := BackupSlot(data), BackupOffset(|data|);
            Restored(data, backup)[..SLOT_SIZE] == backup <==> backup[bo..] == backup[..SLOT_SIZE - bo]
  {
    var backup, bo := BackupSlot(data), BackupOffset(|data|);
    var after := Restored(data, backup);
    assert after == Splice(Splice(data, 0, backup), bo, backup);
    assert after[..SLOT_SIZE] == backup[..bo] + backup[..SLOT_SIZE - bo];
    assert backup == backup[..bo] + backup[bo..];
    assert (backup[..bo] + backup[..SLOT_SIZE - bo])[bo..] == backup[..SLOT_SIZE - bo];
  }
}
