/**
 The four header slots of a file large enough to hold them apart, what the search finds in
 each, and what a freshly sealed header opens as.
 */
module HeaderSlots {
  import opened Bytes
  import opened Ciphers
  import opened HeaderFormat
  import opened HeaderCrypto
  import opened VolumeOpen

  const FOUR_SLOTS := 4 * SLOT_SIZE

  /** Where the backups of the normal and the hidden header lie. */
  function BackupOffset(size: nat): nat
    requires size >= 2 * SLOT_SIZE
  {
    size - 2 * SLOT_SIZE
  }

  function HiddenBackupOffset(size: nat): nat
    requires size >= SLOT_SIZE
  {
    size - SLOT_SIZE
  }

  function Head(data: seq<byte>, off: nat): (r: seq<byte>)
    requires off + EFFECTIVE_SIZE <= |data|
    ensures |r| == EFFECTIVE_SIZE
  {
    data[off..off + EFFECTIVE_SIZE]
  }

  /** What the search finds in one header. */
  function Found(p: Primitives, password: seq<byte>, kdfs: seq<KdfCandidate>, head: seq<byte>,
                 isBackup: bool): Option<OpenResult>
    requires |head| == EFFECTIVE_SIZE
  {
    FirstSuccess(p, password, SlotAttempts(head, isBackup, kdfs))
  }

  function Either(a: Option<OpenResult>, b: Option<OpenResult>): Option<OpenResult> {
    if a.Some? then a else b
  }

  lemma OneOffset(p: Primitives, password: seq<byte>, data: seq<byte>, layout: HeaderLayout, off: u64,
                  kdfs: seq<KdfCandidate>)
    requires off + EFFECTIVE_SIZE <= |data|
    ensures FirstSuccess(p, password, LayoutAttempts(data, layout, [off], kdfs))
         == Found(p, password, kdfs, Head(data, off), layout.backupOffset == Some(off))
  {
    hide Try, SlotAttempts, FirstSuccess;
    NoOffsetsTried(p, password, data, layout, kdfs);
    assert [off][..0] == [] && [off][..1] == [off];
    OffsetsSoFar(p, password, data, layout, [off], kdfs, 0);
  }

  lemma TwoOffsets(p: Primitives, password: seq<byte>, data: seq<byte>, layout: HeaderLayout, a: u64, b: u64,
                   kdfs: seq<KdfCandidate>)
    requires a + EFFECTIVE_SIZE <= |data| && b + EFFECTIVE_SIZE <= |data|
    ensures FirstSuccess(p, password, LayoutAttempts(data, layout, [a, b], kdfs))
         == Either(Found(p, password, kdfs, Head(data, a), layout.backupOffset == Some(a)),
                   Found(p, password, kdfs, Head(data, b), layout.backupOffset == Some(b)))
  {
    hide Try, SlotAttempts, FirstSuccess, LayoutAttempts;
    OneOffset(p, password, data, layout, a, kdfs);
    assert [a, b][..1] == [a] && [a, b][..2] == [a, b];
    if FirstSuccess(p, password, LayoutAttempts(data, layout, [a], kdfs)).Some? {
      OffsetsStop(p, password, data, layout, [a, b], kdfs, 1);
    } else {
      OffsetsSoFar(p, password, data, layout, [a, b], kdfs, 1);
    }
  }

  /** The search over a large file: the primary slot, its backup, the hidden slot, its backup.
      The legacy layout looks at the primary slot a second time and finds what was found. */
  lemma OpenLarge(p: Primitives, data: seq<byte>, password: seq<byte>, kdfs: seq<KdfCandidate>)
    requires 3 * SLOT_SIZE <= |data| < TWO_64
    ensures var n := |data|;
            Open(p, data, password, kdfs)
            == Outcome(Either(Found(p, password, kdfs, Head(data, 0), false),
                       Either(Found(p, password, kdfs, Head(data, n - 131072), true),
                       Either(Found(p, password, kdfs, Head(data, 65536), false),
                              Found(p, password, kdfs, Head(data, n - 65536), true)))))
  {
    hide Try, SlotAttempts, FirstSuccess, LayoutAttempts, LayoutsAttempts, Found, Head;
    var n := |data|;
    var layouts := Candidates(n);
    TwoOffsets(p, password, data, layouts[0], 0, BackupOffset(n), kdfs);
    OneOffset(p, password, data, layouts[1], 0, kdfs);
    TwoOffsets(p, password, data, layouts[2], SLOT_SIZE, HiddenBackupOffset(n), kdfs);
    assert layouts[..3] == layouts && layouts[..0] == [];
    NoLayoutsTried(p, password, data, kdfs);
    LayoutsSoFar(p, password, data, layouts, kdfs, 0);
    if FirstSuccess(p, password, LayoutsAttempts(data, layouts[..1], kdfs)).Some? {
      LayoutsStop(p, password, data, layouts, kdfs, 1);
    } else {
      LayoutsSoFar(p, password, data, layouts, kdfs, 1);
      LayoutsSoFar(p, password, data, layouts, kdfs, 2);
    }
  }

  /** Whatever the size of the file, what the first slot yields decides; it counts as a backup when
      it is its own, in a file of two slots or less. */
  lemma FirstSlotDecides(p: Primitives, data: seq<byte>, password: seq<byte>, kdfs: seq<KdfCandidate>)
    requires EFFECTIVE_SIZE <= |data| < TWO_64
    requires Found(p, password, kdfs, Head(data, 0), |data| <= 2 * SLOT_SIZE).Some?
    ensures Open(p, data, password, kdfs) == Outcome(Found(p, password, kdfs, Head(data, 0), |data| <= 2 * SLOT_SIZE))
  {
    hide Try, SlotAttempts, FirstSuccess, LayoutAttempts, LayoutsAttempts, Found, Head;
    var layouts := Candidates(|data|);
    var offsets := OffsetsOf(layouts[0], |data|);
    OneOffset(p, password, data, layouts[0], 0, kdfs);
    assert offsets[..1] == [0];
    OffsetsStop(p, password, data, layouts[0], offsets, kdfs, 1);
    assert layouts[..0] == [];
    NoLayoutsTried(p, password, data, kdfs);
    LayoutsSoFar(p, password, data, layouts, kdfs, 0);
    LayoutsStop(p, password, data, layouts, kdfs, 1);
  }

  // ------------------------------------------------------------------ sealed headers

  /** A printed header encrypted under a derived key. */
  function SealedHead(p: Primitives, h: VolumeHeader, key: seq<byte>, ct: CipherType): (r: seq<byte>)
    requires |key| == MAX_HEADER_KEY_SIZE
    ensures |r| == EFFECTIVE_SIZE && r[..SALT_SIZE] == h.salt
  {
    assert Printed(h)[..SALT_SIZE] == h.salt;
    Crypted(p.suite, ct, CipherKey(key, ct), Printed(h), true)
  }

  /** A whole slot of 65536 bytes. */
  function SealedSlot(p: Primitives, h: VolumeHeader, key: seq<byte>, ct: CipherType): (r: seq<byte>)
    requires |key| == MAX_HEADER_KEY_SIZE
    ensures |r| == SLOT_SIZE && r[..EFFECTIVE_SIZE] == SealedHead(p, h, key, ct)
  {
    SealedHead(p, h, key, ct) + Zeros(SLOT_SIZE - EFFECTIVE_SIZE)
  }

  predicate Printable(h: VolumeHeader) {
    h.magic == VOLUME_MAGIC && ValidSectorSize(h.sectorSize)
  }

  /** The attempt a sealed header was sealed for succeeds, and yields the header. */
  lemma SealedOpens(p: Primitives, password: seq<byte>, h: VolumeHeader, key: seq<byte>, kdf: KdfCandidate,
                    ct: CipherType, isBackup: bool)
    requires Printable(h) && Derive(p, kdf, password, h.salt) == Some(key)
    ensures Try(p, password, Attempt(SealedHead(p, h, key, ct), isBackup, kdf, ct))
         == Some(Opened(Normalized(h), h.salt, kdf, ct, isBackup))
  {
    hide Parse, Printed, Normalized, Crypted;
    ParsePrinted(h);
    NormalizedKeydata(h);
    DecryptedEncrypted(p.suite, ct, CipherKey(key, ct), Printed(h));
  }

  lemma NormalizedKeydata(h: VolumeHeader)
    ensures Normalized(h).masterKeydata == PaddedKey(h.masterKeydata)
    ensures Normalized(h) == h.(keyAreaCrc := Normalized(h).keyAreaCrc, masterKeydata := PaddedKey(h.masterKeydata),
                                headerCrc := Normalized(h).headerCrc)
  {
  }

  ghost predicate NoneBefore(p: Primitives, password: seq<byte>, attempts: seq<Attempt>, n: nat)
    requires n <= |attempts| && forall a :: a in attempts ==> Proper(a)
  {
    forall m :: 0 <= m < n ==> Try(p, password, attempts[m]).None?
  }

  /** The search of a header gets to an attempt on it, none before it having succeeded. */
  ghost predicate ReachedFirst(p: Primitives, password: seq<byte>, kdfs: seq<KdfCandidate>, a: Attempt)
    requires Proper(a)
  {
    var attempts := SlotAttempts(a.head, a.isBackup, kdfs);
    exists n :: 0 <= n < |attempts| && attempts[n] == a && NoneBefore(p, password, attempts, n)
  }

  lemma {:induction false} IsTried(head: seq<byte>, isBackup: bool, kdfs: seq<KdfCandidate>, i: nat, ct: CipherType)
    requires |head| == EFFECTIVE_SIZE && i < |kdfs|
    ensures Attempt(head, isBackup, kdfs[i], ct) in SlotAttempts(head, isBackup, kdfs)
    decreases |kdfs|
  {
    var init, last := kdfs[..|kdfs| - 1], CipherAttempts(head, isBackup, kdfs[|kdfs| - 1], ALL_SUPPORTED);
    if i < |kdfs| - 1 {
      IsTried(head, isBackup, init, i, ct);
      assert init[i] == kdfs[i];
    } else {
      EveryCipherIsTried(ct);
      var j :| 0 <= j < |ALL_SUPPORTED| && ALL_SUPPORTED[j] == ct;
      assert last[j] == Attempt(head, isBackup, kdfs[i], ct);
    }
  }

  lemma EveryCipherIsTried(ct: CipherType)
    ensures ct in ALL_SUPPORTED
  {
    match ct
    case Aes => assert ALL_SUPPORTED[0] == ct;
    case Serpent => assert ALL_SUPPORTED[1] == ct;
    case Twofish => assert ALL_SUPPORTED[2] == ct;
    case Camellia => assert ALL_SUPPORTED[3] == ct;
    case Kuznyechik => assert ALL_SUPPORTED[4] == ct;
    case AesTwofish => assert ALL_SUPPORTED[5] == ct;
    case AesTwofishSerpent => assert ALL_SUPPORTED[6] == ct;
    case SerpentAes => assert ALL_SUPPORTED[7] == ct;
    case SerpentTwofishAes => assert ALL_SUPPORTED[8] == ct;
    case TwofishSerpent => assert ALL_SUPPORTED[9] == ct;
    case CamelliaKuznyechik => assert ALL_SUPPORTED[10] == ct;
    case CamelliaSerpent => assert ALL_SUPPORTED[11] == ct;
    case KuznyechikAes => assert ALL_SUPPORTED[12] == ct;
    case KuznyechikSerpentCamellia => assert ALL_SUPPORTED[13] == ct;
    case KuznyechikTwofish => assert ALL_SUPPORTED[14] == ct;
  }

  lemma FoundWhenTried(p: Primitives, password: seq<byte>, kdfs: seq<KdfCandidate>, a: Attempt)
    requires Proper(a) && a in SlotAttempts(a.head, a.isBackup, kdfs) && Try(p, password, a).Some?
    ensures Found(p, password, kdfs, a.head, a.isBackup).Some?
    ensures ReachedFirst(p, password, kdfs, a) ==> Found(p, password, kdfs, a.head, a.isBackup) == Try(p, password, a)
  {
    hide Try, SlotAttempts, FirstSuccess;
    var attempts := SlotAttempts(a.head, a.isBackup, kdfs);
    var k :| 0 <= k < |attempts| && attempts[k] == a;
    var i := FirstSuccessIs(p, password, attempts);
    assert i <= k;
    if ReachedFirst(p, password, kdfs, a) {
      var n :| 0 <= n < |attempts| && attempts[n] == a && NoneBefore(p, password, attempts, n);
      FirstSuccessAt(p, password, attempts, n);
    }
  }

  /** Without a named algorithm the search tries each of the six exactly once. */
  lemma AutoTriesEach(p: Primitives, pim: Option<int>, algorithm: KdfAlgorithm) returns (i: nat)
    ensures var c := AutoCandidates(p, pim);
            && i < |c| && c[i] == MakeCandidate(p, algorithm, if pim.Some? then pim.value else 0)
            && forall j :: 0 <= j < |c| && j != i ==> c[j].algorithm != algorithm
  {
    match algorithm
    case Pbkdf2Sha512 => i := 0;
    case Pbkdf2Sha256 => i := 1;
    case Pbkdf2Blake2s => i := 2;
    case Pbkdf2Whirlpool => i := 3;
    case Pbkdf2Streebog => i := 4;
    case Argon2id => i := 5;
  }

  /** So a header sealed with any algorithm, under the costs of any multiplier, and with any cipher is found
      by a search that is told the password and the multiplier, with the algorithm or without; and
      without the multiplier too if it was sealed with 0. */
  lemma FindsSealed(p: Primitives, password: seq<byte>, h: VolumeHeader, key: seq<byte>, algorithm: KdfAlgorithm,
                    pim: int, ct: CipherType, isBackup: bool)
    requires Printable(h) && |key| == MAX_HEADER_KEY_SIZE
    requires if algorithm.Argon2id? then
               p.kdfs.derive(Argon2id, p.kdfs.argonCosts(pim).1, Some(p.kdfs.argonCosts(pim).0), password, h.salt)
               == Some(key)
             else p.kdfs.derive(algorithm, p.kdfs.iterationCount(algorithm, pim), None, password, h.salt) == Some(key)
    ensures Found(p, password, [MakeCandidate(p, algorithm, pim)], SealedHead(p, h, key, ct), isBackup).Some?
    ensures Found(p, password, AutoCandidates(p, Some(pim)), SealedHead(p, h, key, ct), isBackup).Some?
    ensures pim == 0 ==> Found(p, password, AutoCandidates(p, None), SealedHead(p, h, key, ct), isBackup).Some?
  {
    assert Derive(p, MakeCandidate(p, algorithm, pim), password, h.salt) == Some(key);
    hide Try, Derive, SlotAttempts, FirstSuccess, SealedHead, Found, MakeCandidate, AutoCandidates;
    var head, kdf := SealedHead(p, h, key, ct), MakeCandidate(p, algorithm, pim);
    var a := Attempt(head, isBackup, kdf, ct);
    SealedOpens(p, password, h, key, kdf, ct, isBackup);
    IsTried(head, isBackup, [kdf], 0, ct);
    FoundWhenTried(p, password, [kdf], a);
    var i := AutoTriesEach(p, Some(pim), algorithm);
    IsTried(head, isBackup, AutoCandidates(p, Some(pim)), i, ct);
    FoundWhenTried(p, password, AutoCandidates(p, Some(pim)), a);
    if pim == 0 {
      i := AutoTriesEach(p, None, algorithm);
      IsTried(head, isBackup, AutoCandidates(p, None), i, ct);
      FoundWhenTried(p, password, AutoCandidates(p, None), a);
    }
  }

  /** And so does a file of any size that starts with such a header open. */
  lemma OpensSealed(p: Primitives, data: seq<byte>, password: seq<byte>, h: VolumeHeader, key: seq<byte>,
                    algorithm: KdfAlgorithm, pim: int, ct: CipherType)
    requires Printable(h) && |key| == MAX_HEADER_KEY_SIZE
    requires if algorithm.Argon2id? then
               p.kdfs.derive(Argon2id, p.kdfs.argonCosts(pim).1, Some(p.kdfs.argonCosts(pim).0), password, h.salt)
               == Some(key)
             else p.kdfs.derive(algorithm, p.kdfs.iterationCount(algorithm, pim), None, password, h.salt) == Some(key)
    requires 512 <= |data| < TWO_64 && data[..512] == SealedHead(p, h, key, ct)
    ensures Open(p, data, password, [MakeCandidate(p, algorithm, pim)]).Ok?
    ensures Open(p, data, password, AutoCandidates(p, Some(pim))).Ok?
    ensures pim == 0 ==> Open(p, data, password, AutoCandidates(p, None)).Ok?
  {
    hide Open, Found, SealedHead, MakeCandidate, AutoCandidates;
    FindsSealed(p, password, h, key, algorithm, pim, ct, |data| <= 2 * SLOT_SIZE);
    assert Head(data, 0) == data[..512];
    FirstSlotDecides(p, data, password, [MakeCandidate(p, algorithm, pim)]);
    FirstSlotDecides(p, data, password, AutoCandidates(p, Some(pim)));
    if pim == 0 {
      FirstSlotDecides(p, data, password, AutoCandidates(p, None));
    }
  }

  /** The flag that says a result came from a backup slot follows the slot; nothing else depends on it. */
  lemma {:induction false} FlagFollowsSlot(p: Primitives, password: seq<byte>, kdfs: seq<KdfCandidate>, head: seq<byte>)
    requires |head| == EFFECTIVE_SIZE
    ensures var a, b := Found(p, password, kdfs, head, true), Found(p, password, kdfs, head, false);
            && (a.Some? <==> b.Some?)
            && (a.Some? ==> a.value.usedBackupHeader && b.value == a.value.(usedBackupHeader := false))
    decreases |kdfs|
  {
    hide Try, FirstSuccess;
    if kdfs == [] {
      NoKdfsTried(p, password, head, true);
      NoKdfsTried(p, password, head, false);
    } else {
      var init, last := kdfs[..|kdfs| - 1], kdfs[|kdfs| - 1];
      FlagFollowsSlot(p, password, init, head);
      FlagFollowsCipher(p, password, head, last, |ALL_SUPPORTED|);
      assert ALL_SUPPORTED[..|ALL_SUPPORTED|] == ALL_SUPPORTED;
      FirstOfConcat(p, password, SlotAttempts(head, true, init), CipherAttempts(head, true, last, ALL_SUPPORTED));
      FirstOfConcat(p, password, SlotAttempts(head, false, init), CipherAttempts(head, false, last, ALL_SUPPORTED));
    }
  }

  lemma {:induction false} FlagFollowsCipher(p: Primitives, password: seq<byte>, head: seq<byte>, kdf: KdfCandidate,
                                             j: nat)
    requires |head| == EFFECTIVE_SIZE && j <= |ALL_SUPPORTED|
    ensures var a := FirstSuccess(p, password, CipherAttempts(head, true, kdf, ALL_SUPPORTED[..j]));
            var b := FirstSuccess(p, password, CipherAttempts(head, false, kdf, ALL_SUPPORTED[..j]));
            && (a.Some? <==> b.Some?)
            && (a.Some? ==> a.value.usedBackupHeader && b.value == a.value.(usedBackupHeader := false))
  {
    hide FirstSuccess, Parse, Crypted, Derive;
    if j == 0 {
      NoCiphersTried(p, password, head, true, kdf);
      NoCiphersTried(p, password, head, false, kdf);
    } else {
      FlagFollowsCipher(p, password, head, kdf, j - 1);
      CiphersUpTo(p, password, head, true, kdf, j - 1);
      CiphersUpTo(p, password, head, false, kdf, j - 1);
    }
  }

  lemma CiphersUpTo(p: Primitives, password: seq<byte>, head: seq<byte>, isBackup: bool, kdf: KdfCandidate, j: nat)
    requires |head| == EFFECTIVE_SIZE && j < |ALL_SUPPORTED|
    ensures FirstSuccess(p, password, CipherAttempts(head, isBackup, kdf, ALL_SUPPORTED[..j + 1]))
         == Either(FirstSuccess(p, password, CipherAttempts(head, isBackup, kdf, ALL_SUPPORTED[..j])),
                   Try(p, password, Attempt(head, isBackup, kdf, ALL_SUPPORTED[j])))
  {
    hide Try;
    var before := CipherAttempts(head, isBackup, kdf, ALL_SUPPORTED[..j]);
    var next := [Attempt(head, isBackup, kdf, ALL_SUPPORTED[j])];
    assert CipherAttempts(head, isBackup, kdf, ALL_SUPPORTED[..j + 1]) == before + next;
    FirstOfConcat(p, password, before, next);
    assert next[1..] == [];
  }
}
