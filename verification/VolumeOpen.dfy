/**
 Opening a volume file: a search over header layouts, slot offsets, key derivations and
 ciphers, which stops at the first attempt whose decrypted header parses.
 */
module VolumeOpen {
  import opened Bytes
  import opened Ciphers
  import opened HeaderFormat
  import opened HeaderCrypto

  datatype VolumeError =
    | AuthFailed
    | InvalidFormat
    | CryptoFailed
    | IoError
    | ReadError
    | WriteError
    | Unsupported
    | HiddenVolumeProtection

  datatype VolumeType = Normal | Hidden

  datatype OpenResult = OpenResult(
    headerCipher: CipherType,
    dataCipher: CipherType,
    kdf: KdfCandidate,
    masterKey: seq<byte>,
    dataOffset: u64,
    dataLength: u64,
    salt: Salt,
    header: VolumeHeader,
    usedBackupHeader: bool,
    volumeType: VolumeType)

  // ------------------------------------------------------------------ one attempt

  /** A header at a place in the search: its first 512 bytes, and what they are tried with. */
  datatype Attempt = Attempt(head: seq<byte>, isBackup: bool, kdf: KdfCandidate, cipher: CipherType)

  predicate Proper(a: Attempt) {
    |a.head| == EFFECTIVE_SIZE
  }

  /** What an opened volume is, given its parsed header. */
  function Opened(h: VolumeHeader, salt: Salt, kdf: KdfCandidate, ct: CipherType, isBackup: bool): OpenResult
    requires |h.masterKeydata| == KEYDATA_SIZE
  {
    OpenResult(ct, ct, kdf, h.masterKeydata[..KeySize(ct) * 2], h.encryptedAreaStart,
               if h.encryptedAreaLength > 0 then h.encryptedAreaLength else h.volumeSize,
               salt, h, isBackup, if h.hiddenVolumeSize != 0 then Hidden else Normal)
  }

  lemma ParsedKeydata(data: seq<byte>)
    requires Parse(data).Ok?
    ensures |Parse(data).value.masterKeydata| == KEYDATA_SIZE
    ensures Parse(data).value.salt == data[..SALT_SIZE]
    ensures Parse(data).value.magic == VOLUME_MAGIC && ValidSectorSize(Parse(data).value.sectorSize)
  {
    hide U16At, U32At, U64At;
  }

  function Decrypted(s: Suite, head: seq<byte>, key: seq<byte>, kdf: KdfCandidate, ct: CipherType, isBackup: bool)
    : Option<OpenResult>
    requires |head| == EFFECTIVE_SIZE && |key| == 2 * KeySize(ct)
  {
    var plain := Crypted(s, ct, key, head, false);
    match Parse(plain)
    case Err(_) => None
    case Ok(h) =>
      ParsedKeydata(plain);
      Some(Opened(h, head[..SALT_SIZE], kdf, ct, isBackup))
  }

  /** What an attempt that succeeds gives, byte for byte, from the decrypted header: the master key from byte
      256 on, the data area from bytes 108 to 124, or from the volume size at 100 if it has no length,
      and a hidden volume if there is a size for one at 92. */
  lemma OpenedFrom(s: Suite, head: seq<byte>, key: seq<byte>, kdf: KdfCandidate, ct: CipherType, isBackup: bool)
    requires |head| == 512 && |key| == 2 * KeySize(ct) && Decrypted(s, head, key, kdf, ct, isBackup).Some?
    ensures var r, plain := Decrypted(s, head, key, kdf, ct, isBackup).value, Crypted(s, ct, key, head, false);
            && r.headerCipher == ct && r.dataCipher == ct && r.kdf == kdf && r.usedBackupHeader == isBackup
            && r.salt == head[..64] && r.masterKey == plain[256..256 + 2 * KeySize(ct)]
            && r.dataOffset == BeValue(plain[108..116])
            && r.dataLength == (if BeValue(plain[116..124]) > 0 then BeValue(plain[116..124])
                                else BeValue(plain[100..108]))
            && (r.volumeType == Hidden <==> BeValue(plain[92..100]) != 0)
  {
    hide Crypted, Parse, BeValue, KeySize;
    var plain, n := Crypted(s, ct, key, head, false), 2 * KeySize(ct);
    ParsedPlaces(plain);
    SliceOfSlice(plain, 256, 512, 0, n);
    assert plain[256..512][0..n] == plain[256..512][..n];
  }

  lemma ParsedPlaces(data: seq<byte>)
    requires |data| == 512 && Parse(data).Ok?
    ensures var h := Parse(data).value;
            && h.masterKeydata == data[256..512] && h.hiddenVolumeSize == BeValue(data[92..100])
            && h.volumeSize == BeValue(data[100..108]) && h.encryptedAreaStart == BeValue(data[108..116])
            && h.encryptedAreaLength == BeValue(data[116..124])
  {
    ParseGives(data);
    FieldPlaces(data[..64], data[64..512]);
    hide Parse, BeValue, Fields;
    SliceOfSlice(data, 64, 512, 28, 36);
    SliceOfSlice(data, 64, 512, 36, 44);
    SliceOfSlice(data, 64, 512, 44, 52);
    SliceOfSlice(data, 64, 512, 52, 60);
    SliceOfSlice(data, 64, 512, 192, 448);
    assert data[64..512][192..448] == data[64..512][192..];
  }

  lemma ParseGives(data: seq<byte>)
    requires |data| == 512 && Parse(data).Ok?
    ensures Parse(data).value == Fields(data[..64], data[64..512])
  {
    hide U16At, U32At, U64At;
  }

  lemma FieldPlaces(salt: Salt, enc: seq<byte>)
    requires |enc| == 448
    ensures var h := Fields(salt, enc);
            && h.masterKeydata == enc[192..] && h.hiddenVolumeSize == BeValue(enc[28..36])
            && h.volumeSize == BeValue(enc[36..44]) && h.encryptedAreaStart == BeValue(enc[44..52])
            && h.encryptedAreaLength == BeValue(enc[52..60])
  {
    hide BeValue, U16At, U32At;
  }

  /** What one attempt yields. */
  function Try(p: Primitives, password: seq<byte>, a: Attempt): Option<OpenResult>
    requires Proper(a)
  {
    match Derive(p, a.kdf, password, a.head[..SALT_SIZE])
    case None => None
    case Some(key) => Decrypted(p.suite, a.head, CipherKey(key, a.cipher), a.kdf, a.cipher, a.isBackup)
  }

  // ------------------------------------------------------------------ the first that authenticates

  function FirstSuccess(p: Primitives, password: seq<byte>, attempts: seq<Attempt>): Option<OpenResult>
    requires forall a :: a in attempts ==> Proper(a)
    decreases |attempts|
  {
    if attempts == [] then None
    else if Try(p, password, attempts[0]).Some? then Try(p, password, attempts[0])
    else FirstSuccess(p, password, attempts[1..])
  }

  lemma {:induction false} FirstOfConcat(p: Primitives, password: seq<byte>, a: seq<Attempt>, b: seq<Attempt>)
    requires forall x :: x in a + b ==> Proper(x)
    requires forall x :: x in a ==> Proper(x)
    requires forall x :: x in b ==> Proper(x)
    ensures FirstSuccess(p, password, a + b)
         == if FirstSuccess(p, password, a).Some? then FirstSuccess(p, password, a) else FirstSuccess(p, password, b)
    decreases |a|
  {
    hide Try;
    if a == [] {
      assert a + b == b;
    } else {
      assert (a + b)[1..] == a[1..] + b;
      FirstOfConcat(p, password, a[1..], b);
    }
  }

  /** The search yields attempt `i`'s result when `i` succeeds and nothing before it does. */
  lemma {:induction false} FirstSuccessAt(p: Primitives, password: seq<byte>, attempts: seq<Attempt>, i: nat)
    requires forall a :: a in attempts ==> Proper(a)
    requires i < |attempts| && Try(p, password, attempts[i]).Some?
    requires forall j :: 0 <= j < i ==> Try(p, password, attempts[j]).None?
    ensures FirstSuccess(p, password, attempts) == Try(p, password, attempts[i])
    decreases |attempts|
  {
    hide Try;
    if i > 0 {
      assert Try(p, password, attempts[0]).None?;
      FirstSuccessAt(p, password, attempts[1..], i - 1);
    }
  }

  /** Where the search stopped, or that nothing succeeds. */
  lemma {:induction false} FirstSuccessIs(p: Primitives, password: seq<byte>, attempts: seq<Attempt>)
    returns (i: nat)
    requires forall a :: a in attempts ==> Proper(a)
    ensures i <= |attempts|
    ensures i < |attempts| <==> FirstSuccess(p, password, attempts).Some?
    ensures i < |attempts| ==> FirstSuccess(p, password, attempts) == Try(p, password, attempts[i])
    ensures forall j :: 0 <= j < i ==> Try(p, password, attempts[j]).None?
    decreases |attempts|
  {
    hide Try;
    if attempts == [] || Try(p, password, attempts[0]).Some? {
      i := 0;
    } else {
      var k := FirstSuccessIs(p, password, attempts[1..]);
      i := k + 1;
      assert forall j :: 0 < j < i ==> attempts[j] == attempts[1..][j - 1];
    }
  }

  // ------------------------------------------------------------------ the order of the search

  const AUTO_KDFS: seq<KdfAlgorithm> :=
    [Pbkdf2Sha512, Pbkdf2Sha256, Pbkdf2Blake2s, Pbkdf2Whirlpool, Pbkdf2Streebog, Argon2id]

  function AutoCandidates(p: Primitives, pim: Option<int>): (c: seq<KdfCandidate>)
    ensures |c| == |AUTO_KDFS|
    ensures forall i :: 0 <= i < |c| ==> c[i] == MakeCandidate(p, AUTO_KDFS[i], if pim.Some? then pim.value else 0)
  {
    seq(|AUTO_KDFS|, i requires 0 <= i < |AUTO_KDFS| =>
      MakeCandidate(p, AUTO_KDFS[i], if pim.Some? then pim.value else 0))
  }

  function CipherAttempts(head: seq<byte>, isBackup: bool, kdf: KdfCandidate,
                          ciphers: seq<CipherType>): (r: seq<Attempt>)
    requires |head| == EFFECTIVE_SIZE
    ensures |r| == |ciphers|
    ensures forall j :: 0 <= j < |ciphers| ==> r[j] == Attempt(head, isBackup, kdf, ciphers[j])
    ensures forall a :: a in r ==> Proper(a)
  {
    seq(|ciphers|, j requires 0 <= j < |ciphers| => Attempt(head, isBackup, kdf, ciphers[j]))
  }

  /** Every cipher for the first derivation, then every cipher for the next. */
  function SlotAttempts(head: seq<byte>, isBackup: bool, kdfs: seq<KdfCandidate>): (r: seq<Attempt>)
    requires |head| == EFFECTIVE_SIZE
    ensures forall a :: a in r ==> Proper(a) && a.head == head && a.isBackup == isBackup
  {
    if kdfs == [] then []
    else
      SlotAttempts(head, isBackup, kdfs[..|kdfs| - 1])
      + CipherAttempts(head, isBackup, kdfs[|kdfs| - 1], ALL_SUPPORTED)
  }

  /** Within a slot the derivations are the outer loop and the ciphers the inner one. */
  lemma {:induction false} AttemptAt(head: seq<byte>, isBackup: bool, kdfs: seq<KdfCandidate>, i: nat, j: nat)
    requires |head| == EFFECTIVE_SIZE && i < |kdfs| && j < 15
    ensures |SlotAttempts(head, isBackup, kdfs)| == 15 * |kdfs|
    ensures SlotAttempts(head, isBackup, kdfs)[15 * i + j] == Attempt(head, isBackup, kdfs[i], ALL_SUPPORTED[j])
    decreases |kdfs|
  {
    hide SlotAttempts, CipherAttempts;
    var init, last := kdfs[..|kdfs| - 1], kdfs[|kdfs| - 1];
    var before, after := SlotAttempts(head, isBackup, init), CipherAttempts(head, isBackup, last, ALL_SUPPORTED);
    LastDerivation(head, isBackup, kdfs);
    if init == [] {
      LastDerivation(head, isBackup, init);
    } else {
      AttemptAt(head, isBackup, init, if i < |init| then i else 0, j);
    }
    if i == |init| {
      assert (before + after)[15 * i + j] == after[j];
    }
  }

  lemma LastDerivation(head: seq<byte>, isBackup: bool, kdfs: seq<KdfCandidate>)
    requires |head| == EFFECTIVE_SIZE
    ensures kdfs == [] ==> SlotAttempts(head, isBackup, kdfs) == []
    ensures kdfs != [] ==>
      SlotAttempts(head, isBackup, kdfs)
      == SlotAttempts(head, isBackup, kdfs[..|kdfs| - 1])
         + CipherAttempts(head, isBackup, kdfs[|kdfs| - 1], ALL_SUPPORTED)
    ensures |ALL_SUPPORTED| == 15
  {
  }

  /** `try_decrypt`: works on a local copy of the first 512 bytes. */
  method TryDecrypt(s: Suite, data: seq<byte>, ct: CipherType, key: seq<byte>, kdf: KdfCandidate, isBackup: bool)
    returns (r: Result<OpenResult, VolumeError>)
    requires |data| >= EFFECTIVE_SIZE && |key| == 2 * KeySize(ct)
    ensures r.Ok? <==> Decrypted(s, data[..EFFECTIVE_SIZE], key, kdf, ct, isBackup).Some?
    ensures r.Ok? ==> Some(r.value) == Decrypted(s, data[..EFFECTIVE_SIZE], key, kdf, ct, isBackup)
  {
    hide Parse, Crypted;
    var head := data[..EFFECTIVE_SIZE];
    var decrypted := new byte[EFFECTIVE_SIZE](i requires 0 <= i < EFFECTIVE_SIZE => head[i]);
    assert decrypted[..] == head && decrypted[..EFFECTIVE_SIZE] == head;
    var done := CryptHeaderArea(s, decrypted, key, ct, false);
    if done.Err? {
      return Err(AuthFailed);
    }
    assert decrypted[..] == Crypted(s, ct, key, head, false);
    var parsed := DeserializeHeader(decrypted[..]);
    match parsed
    case Err(_) => return Err(AuthFailed);
    case Ok(h) =>
      ParsedKeydata(decrypted[..]);
      var dataCipher := ct;
      if |h.masterKeydata| < KeySize(dataCipher) * 2 {
        return Err(InvalidFormat);
      }
      assert data[..SALT_SIZE] == head[..SALT_SIZE];
      return Ok(Opened(h, data[..SALT_SIZE], kdf, ct, isBackup));
  }

  lemma CiphersSoFar(p: Primitives, password: seq<byte>, head: seq<byte>, isBackup: bool, kdf: KdfCandidate, j: nat)
    requires |head| == EFFECTIVE_SIZE && j < |ALL_SUPPORTED|
    requires FirstSuccess(p, password, CipherAttempts(head, isBackup, kdf, ALL_SUPPORTED[..j])).None?
    ensures FirstSuccess(p, password, CipherAttempts(head, isBackup, kdf, ALL_SUPPORTED[..j + 1]))
         == Try(p, password, Attempt(head, isBackup, kdf, ALL_SUPPORTED[j]))
  {
    hide Try;
    var before := CipherAttempts(head, isBackup, kdf, ALL_SUPPORTED[..j]);
    var next := [Attempt(head, isBackup, kdf, ALL_SUPPORTED[j])];
    assert CipherAttempts(head, isBackup, kdf, ALL_SUPPORTED[..j + 1]) == before + next;
    FirstOfConcat(p, password, before, next);
    assert next[1..] == [];
  }

  /** Once one cipher has succeeded, the ciphers after it make no difference. */
  lemma CiphersStop(p: Primitives, password: seq<byte>, head: seq<byte>, isBackup: bool, kdf: KdfCandidate, j: nat)
    requires |head| == EFFECTIVE_SIZE && j <= |ALL_SUPPORTED|
    requires FirstSuccess(p, password, CipherAttempts(head, isBackup, kdf, ALL_SUPPORTED[..j])).Some?
    ensures FirstSuccess(p, password, CipherAttempts(head, isBackup, kdf, ALL_SUPPORTED))
         == FirstSuccess(p, password, CipherAttempts(head, isBackup, kdf, ALL_SUPPORTED[..j]))
  {
    hide Try;
    var before := CipherAttempts(head, isBackup, kdf, ALL_SUPPORTED[..j]);
    var after := CipherAttempts(head, isBackup, kdf, ALL_SUPPORTED[j..]);
    assert CipherAttempts(head, isBackup, kdf, ALL_SUPPORTED) == before + after;
    FirstOfConcat(p, password, before, after);
  }

  /** Without a derived key no cipher can succeed. */
  lemma {:induction false} NoKeyNoSuccess(p: Primitives, password: seq<byte>, head: seq<byte>, isBackup: bool,
                                          kdf: KdfCandidate, j: nat)
    requires |head| == EFFECTIVE_SIZE && j <= |ALL_SUPPORTED| && Derive(p, kdf, password, head[..SALT_SIZE]).None?
    ensures FirstSuccess(p, password, CipherAttempts(head, isBackup, kdf, ALL_SUPPORTED[..j])).None?
  {
    if j > 0 {
      NoKeyNoSuccess(p, password, head, isBackup, kdf, j - 1);
      CiphersSoFar(p, password, head, isBackup, kdf, j - 1);
    }
  }

  /** All ciphers with one derived key. */
  method TryCiphers(p: Primitives, header: seq<byte>, password: seq<byte>, kdf: KdfCandidate, key: seq<byte>,
                    isBackup: bool)
    returns (r: Option<OpenResult>)
    requires |header| >= EFFECTIVE_SIZE && Derive(p, kdf, password, header[..EFFECTIVE_SIZE][..SALT_SIZE]) == Some(key)
    ensures r == FirstSuccess(p, password, CipherAttempts(header[..EFFECTIVE_SIZE], isBackup, kdf, ALL_SUPPORTED))
  {
    hide FirstSuccess, Decrypted;
    ghost var head := header[..EFFECTIVE_SIZE];
    NoCiphersTried(p, password, head, isBackup, kdf);
    for j := 0 to |ALL_SUPPORTED|
      invariant FirstSuccess(p, password, CipherAttempts(head, isBackup, kdf, ALL_SUPPORTED[..j])).None?
    {
      var ct := ALL_SUPPORTED[j];
      CiphersSoFar(p, password, head, isBackup, kdf, j);
      var result := TryDecrypt(p.suite, header, ct, CipherKey(key, ct), kdf, isBackup);
      if result.Ok? {
        CiphersStop(p, password, head, isBackup, kdf, j + 1);
        return Some(result.value);
      }
    }
    assert ALL_SUPPORTED[..|ALL_SUPPORTED|] == ALL_SUPPORTED;
    return None;
  }

  lemma NoCiphersTried(p: Primitives, password: seq<byte>, head: seq<byte>, isBackup: bool, kdf: KdfCandidate)
    requires |head| == EFFECTIVE_SIZE
    ensures FirstSuccess(p, password, CipherAttempts(head, isBackup, kdf, ALL_SUPPORTED[..0])).None?
  {
  }

  lemma NoKdfsTried(p: Primitives, password: seq<byte>, head: seq<byte>, isBackup: bool)
    requires |head| == EFFECTIVE_SIZE
    ensures FirstSuccess(p, password, SlotAttempts(head, isBackup, [])).None?
  {
  }

  lemma KdfsSoFar(p: Primitives, password: seq<byte>, head: seq<byte>, isBackup: bool, kdfs: seq<KdfCandidate>, i: nat)
    requires |head| == EFFECTIVE_SIZE && i < |kdfs|
    requires FirstSuccess(p, password, SlotAttempts(head, isBackup, kdfs[..i])).None?
    ensures FirstSuccess(p, password, SlotAttempts(head, isBackup, kdfs[..i + 1]))
         == FirstSuccess(p, password, CipherAttempts(head, isBackup, kdfs[i], ALL_SUPPORTED))
  {
    hide Try;
    assert kdfs[..i + 1][..i] == kdfs[..i];
    FirstOfConcat(p, password, SlotAttempts(head, isBackup, kdfs[..i]),
                  CipherAttempts(head, isBackup, kdfs[i], ALL_SUPPORTED));
  }

  lemma {:induction false} KdfsStop(p: Primitives, password: seq<byte>, head: seq<byte>, isBackup: bool,
                                    kdfs: seq<KdfCandidate>, i: nat)
    requires |head| == EFFECTIVE_SIZE && i <= |kdfs|
    requires FirstSuccess(p, password, SlotAttempts(head, isBackup, kdfs[..i])).Some?
    ensures FirstSuccess(p, password, SlotAttempts(head, isBackup, kdfs))
         == FirstSuccess(p, password, SlotAttempts(head, isBackup, kdfs[..i]))
    decreases |kdfs|
  {
    hide Try;
    if i == |kdfs| {
      assert kdfs[..i] == kdfs;
    } else {
      var init := kdfs[..|kdfs| - 1];
      assert init[..i] == kdfs[..i];
      KdfsStop(p, password, head, isBackup, init, i);
      FirstOfConcat(p, password, SlotAttempts(head, isBackup, init),
                    CipherAttempts(head, isBackup, kdfs[|kdfs| - 1], ALL_SUPPORTED));
    }
  }

  /** What a search reports. */
  function Outcome(found: Option<OpenResult>): Result<OpenResult, VolumeError> {
    if found.Some? then Ok(found.value) else Err(AuthFailed)
  }

  /** `try_open`: derives once per candidate and tries every cipher with the key. */
  method TryOpen(p: Primitives, header: seq<byte>, password: seq<byte>, kdfs: seq<KdfCandidate>, isBackup: bool)
    returns (r: Result<OpenResult, VolumeError>)
    ensures |header| < EFFECTIVE_SIZE ==> r == Err(InvalidFormat)
    ensures |header| >= EFFECTIVE_SIZE ==>
      r == Outcome(FirstSuccess(p, password, SlotAttempts(header[..EFFECTIVE_SIZE], isBackup, kdfs)))
  {
    hide FirstSuccess, SlotAttempts, CipherAttempts;
    if |header| < EFFECTIVE_SIZE {
      return Err(InvalidFormat);
    }
    var salt := header[..SALT_SIZE];
    ghost var head := header[..EFFECTIVE_SIZE];
    assert head[..SALT_SIZE] == salt;
    assert kdfs[..0] == [];
    NoKdfsTried(p, password, head, isBackup);
    for i := 0 to |kdfs|
      invariant FirstSuccess(p, password, SlotAttempts(head, isBackup, kdfs[..i])).None?
    {
      KdfsSoFar(p, password, head, isBackup, kdfs, i);
      var key := Derive(p, kdfs[i], password, salt);
      if key.None? {
        NoKeyNoSuccess(p, password, head, isBackup, kdfs[i], |ALL_SUPPORTED|);
        assert ALL_SUPPORTED[..|ALL_SUPPORTED|] == ALL_SUPPORTED;
        continue;
      }
      var found := TryCiphers(p, header, password, kdfs[i], key.value, isBackup);
      if found.Some? {
        KdfsStop(p, password, head, isBackup, kdfs, i + 1);
        return Ok(found.value);
      }
    }
    assert kdfs[..|kdfs|] == kdfs;
    return Err(AuthFailed);
  }

  // ------------------------------------------------------------------ slots

  datatype HeaderLayout = HeaderLayout(headerOffset: u64, backupOffset: Option<u64>, readSize: nat,
                                       volumeType: VolumeType)

  function SaturatingSub(a: nat, b: nat): nat {
    if a < b then 0 else a - b
  }

  function Candidates(size: u64): seq<HeaderLayout> {
    [HeaderLayout(0, Some(SaturatingSub(size, 2 * SLOT_SIZE)), SLOT_SIZE, Normal),
     HeaderLayout(0, None, 512, Normal),
     HeaderLayout(SLOT_SIZE, Some(SaturatingSub(size, SLOT_SIZE)), SLOT_SIZE, Hidden)]
  }

  /** The offsets tried for a layout: the primary, and a backup that lies elsewhere in the file. */
  function OffsetsOf(layout: HeaderLayout, size: u64): seq<u64> {
    match layout.backupOffset
    case None => [layout.headerOffset]
    case Some(backup) =>
      if backup < size && backup != layout.headerOffset then [layout.headerOffset, backup] else [layout.headerOffset]
  }

  /** The places tried in a file of `size` bytes, layout by layout. */
  lemma PlacesTried(size: u64)
    ensures var layouts := Candidates(size);
            && |layouts| == 3
            && OffsetsOf(layouts[0], size) == (if size > 131072 then [0, size - 131072] else [0])
            && OffsetsOf(layouts[1], size) == [0]
            && OffsetsOf(layouts[2], size)
               == (if size == 0 || size == 131072 then [65536]
                   else if size < 65536 then [65536, 0]
                   else [65536, size - 65536])
  {
  }

  method CandidateOffsets(layout: HeaderLayout, size: u64) returns (offsets: seq<u64>)
    ensures offsets == OffsetsOf(layout, size)
  {
    offsets := [layout.headerOffset];
    if layout.backupOffset.Some? {
      var backup := layout.backupOffset.value;
      if backup < size && backup !in offsets {
        offsets := offsets + [backup];
      }
    }
  }

  /** The attempts on one slot of a file; a slot cut short by the end of the file is skipped. */
  function OffsetAttempts(data: seq<byte>, layout: HeaderLayout, offset: u64,
                          kdfs: seq<KdfCandidate>): (r: seq<Attempt>)
    ensures forall a :: a in r ==> Proper(a)
  {
    if offset + EFFECTIVE_SIZE > |data| then []
    else SlotAttempts(data[offset..offset + EFFECTIVE_SIZE], layout.backupOffset == Some(offset), kdfs)
  }

  function LayoutAttempts(data: seq<byte>, layout: HeaderLayout, offsets: seq<u64>,
                          kdfs: seq<KdfCandidate>): (r: seq<Attempt>)
    ensures forall a :: a in r ==> Proper(a)
  {
    if offsets == [] then []
    else
      LayoutAttempts(data, layout, offsets[..|offsets| - 1], kdfs)
      + OffsetAttempts(data, layout, offsets[|offsets| - 1], kdfs)
  }

  function LayoutsAttempts(data: seq<byte>, layouts: seq<HeaderLayout>, kdfs: seq<KdfCandidate>): (r: seq<Attempt>)
    requires |data| < TWO_64
    ensures forall a :: a in r ==> Proper(a)
  {
    if layouts == [] then []
    else
      var last := layouts[|layouts| - 1];
      LayoutsAttempts(data, layouts[..|layouts| - 1], kdfs) + LayoutAttempts(data, last, OffsetsOf(last, |data|), kdfs)
  }

  /** Every attempt on a file, in search order. */
  function FileAttempts(data: seq<byte>, kdfs: seq<KdfCandidate>): (r: seq<Attempt>)
    requires |data| < TWO_64
    ensures forall a :: a in r ==> Proper(a)
  {
    LayoutsAttempts(data, Candidates(|data|), kdfs)
  }

  /** What opening a file yields. */
  function Open(p: Primitives, data: seq<byte>, password: seq<byte>, kdfs: seq<KdfCandidate>): Result<OpenResult,
                VolumeError>
    requires |data| < TWO_64
  {
    Outcome(FirstSuccess(p, password, FileAttempts(data, kdfs)))
  }

  lemma OffsetsSoFar(p: Primitives, password: seq<byte>, data: seq<byte>, layout: HeaderLayout, offsets: seq<u64>,
                     kdfs: seq<KdfCandidate>, i: nat)
    requires i < |offsets|
    requires FirstSuccess(p, password, LayoutAttempts(data, layout, offsets[..i], kdfs)).None?
    ensures FirstSuccess(p, password, LayoutAttempts(data, layout, offsets[..i + 1], kdfs))
         == FirstSuccess(p, password, OffsetAttempts(data, layout, offsets[i], kdfs))
  {
    hide Try, SlotAttempts;
    assert offsets[..i + 1][..i] == offsets[..i];
    FirstOfConcat(p, password, LayoutAttempts(data, layout, offsets[..i], kdfs),
                  OffsetAttempts(data, layout, offsets[i], kdfs));
  }

  lemma {:induction false} OffsetsStop(p: Primitives, password: seq<byte>, data: seq<byte>, layout: HeaderLayout,
                                       offsets: seq<u64>, kdfs: seq<KdfCandidate>, i: nat)
    requires i <= |offsets|
    requires FirstSuccess(p, password, LayoutAttempts(data, layout, offsets[..i], kdfs)).Some?
    ensures FirstSuccess(p, password, LayoutAttempts(data, layout, offsets, kdfs))
         == FirstSuccess(p, password, LayoutAttempts(data, layout, offsets[..i], kdfs))
    decreases |offsets|
  {
    hide Try, SlotAttempts;
    if i == |offsets| {
      assert offsets[..i] == offsets;
    } else {
      var init := offsets[..|offsets| - 1];
      assert init[..i] == offsets[..i];
      OffsetsStop(p, password, data, layout, init, kdfs, i);
      FirstOfConcat(p, password, LayoutAttempts(data, layout, init, kdfs),
                    OffsetAttempts(data, layout, offsets[|offsets| - 1], kdfs));
    }
  }

  lemma LayoutsSoFar(p: Primitives, password: seq<byte>, data: seq<byte>, layouts: seq<HeaderLayout>,
                     kdfs: seq<KdfCandidate>, i: nat)
    requires |data| < TWO_64 && i < |layouts|
    requires FirstSuccess(p, password, LayoutsAttempts(data, layouts[..i], kdfs)).None?
    ensures FirstSuccess(p, password, LayoutsAttempts(data, layouts[..i + 1], kdfs))
         == FirstSuccess(p, password, LayoutAttempts(data, layouts[i], OffsetsOf(layouts[i], |data|), kdfs))
  {
    hide Try, LayoutAttempts, OffsetsOf;
    assert layouts[..i + 1][..i] == layouts[..i];
    FirstOfConcat(p, password, LayoutsAttempts(data, layouts[..i], kdfs),
                  LayoutAttempts(data, layouts[i], OffsetsOf(layouts[i], |data|), kdfs));
  }

  lemma {:induction false} LayoutsStop(p: Primitives, password: seq<byte>, data: seq<byte>, layouts: seq<HeaderLayout>,
                                       kdfs: seq<KdfCandidate>, i: nat)
    requires |data| < TWO_64 && i <= |layouts|
    requires FirstSuccess(p, password, LayoutsAttempts(data, layouts[..i], kdfs)).Some?
    ensures FirstSuccess(p, password, LayoutsAttempts(data, layouts, kdfs))
         == FirstSuccess(p, password, LayoutsAttempts(data, layouts[..i], kdfs))
    decreases |layouts|
  {
    hide Try, LayoutAttempts, OffsetsOf;
    if i == |layouts| {
      assert layouts[..i] == layouts;
    } else {
      var init, last := layouts[..|layouts| - 1], layouts[|layouts| - 1];
      assert init[..i] == layouts[..i];
      LayoutsStop(p, password, data, init, kdfs, i);
      FirstOfConcat(p, password, LayoutsAttempts(data, init, kdfs),
                    LayoutAttempts(data, last, OffsetsOf(last, |data|), kdfs));
    }
  }

  lemma NoOffsetsTried(p: Primitives, password: seq<byte>, data: seq<byte>, layout: HeaderLayout,
                       kdfs: seq<KdfCandidate>)
    ensures FirstSuccess(p, password, LayoutAttempts(data, layout, [], kdfs)).None?
  {
  }

  lemma NoLayoutsTried(p: Primitives, password: seq<byte>, data: seq<byte>, kdfs: seq<KdfCandidate>)
    requires |data| < TWO_64
    ensures FirstSuccess(p, password, LayoutsAttempts(data, [], kdfs)).None?
  {
  }

  /** One slot of the file. */
  method TryOffset(p: Primitives, data: seq<byte>, password: seq<byte>, layout: HeaderLayout, offset: u64,
                   kdfs: seq<KdfCandidate>)
    returns (r: Result<OpenResult, VolumeError>)
    requires layout.readSize >= EFFECTIVE_SIZE
    ensures r == Outcome(FirstSuccess(p, password, OffsetAttempts(data, layout, offset, kdfs)))
  {
    hide Try, SlotAttempts;
    var readSize := Min(layout.readSize, SaturatingSub(|data|, offset));
    if readSize < EFFECTIVE_SIZE {
      return Err(AuthFailed);
    }
    var isBackup := layout.backupOffset == Some(offset);
    var header := data[offset..offset + readSize];
    assert header[..EFFECTIVE_SIZE] == data[offset..offset + EFFECTIVE_SIZE];
    r := TryOpen(p, header, password, kdfs, isBackup);
  }

  /** The two nested loops of both file openers: authentication failures move the search on. */
  method SearchFile(p: Primitives, data: seq<byte>, password: seq<byte>, kdfs: seq<KdfCandidate>)
    returns (r: Result<OpenResult, VolumeError>)
    requires |data| < TWO_64
    ensures r == Open(p, data, password, kdfs)
  {
    hide FirstSuccess, OffsetAttempts, LayoutAttempts, LayoutsAttempts, OffsetsOf;
    var layouts := Candidates(|data|);
    NoLayoutsTried(p, password, data, kdfs);
    assert layouts[..0] == [];
    for i := 0 to |layouts|
      invariant FirstSuccess(p, password, LayoutsAttempts(data, layouts[..i], kdfs)).None?
    {
      LayoutsSoFar(p, password, data, layouts, kdfs, i);
      var layout := layouts[i];
      r := SearchLayout(p, data, password, layout, kdfs);
      match r
      case Ok(_) =>
        LayoutsStop(p, password, data, layouts, kdfs, i + 1);
        return;
      case Err(e) =>
        if e != AuthFailed {
          return;
        }
    }
    assert layouts[..|layouts|] == layouts;
    return Err(AuthFailed);
  }

  method SearchLayout(p: Primitives, data: seq<byte>, password: seq<byte>, layout: HeaderLayout,
                      kdfs: seq<KdfCandidate>)
    returns (r: Result<OpenResult, VolumeError>)
    requires |data| < TWO_64 && layout.readSize >= EFFECTIVE_SIZE
    ensures r == Outcome(FirstSuccess(p, password, LayoutAttempts(data, layout, OffsetsOf(layout, |data|), kdfs)))
  {
    hide FirstSuccess, OffsetAttempts, LayoutAttempts, OffsetsOf;
    var offsets := CandidateOffsets(layout, |data|);
    NoOffsetsTried(p, password, data, layout, kdfs);
    assert offsets[..0] == [];
    for i := 0 to |offsets|
      invariant FirstSuccess(p, password, LayoutAttempts(data, layout, offsets[..i], kdfs)).None?
    {
      OffsetsSoFar(p, password, data, layout, offsets, kdfs, i);
      r := TryOffset(p, data, password, layout, offsets[i], kdfs);
      match r
      case Ok(_) =>
        OffsetsStop(p, password, data, layout, offsets, kdfs, i + 1);
        return;
      case Err(e) =>
        if e != AuthFailed {
          return;
        }
    }
    assert offsets[..|offsets|] == offsets;
    return Err(AuthFailed);
  }

  /** `open_volume_file`, from the password with any keyfiles mixed in. */
  method OpenVolumeFile(p: Primitives, data: seq<byte>, password: seq<byte>, pim: Option<int>)
    returns (r: Result<OpenResult, VolumeError>)
    requires |data| < TWO_64
    ensures r == Open(p, data, password, AutoCandidates(p, pim))
  {
    r := SearchFile(p, data, password, AutoCandidates(p, pim));
  }

  method OpenVolumeFileWithKdf(p: Primitives, data: seq<byte>, password: seq<byte>, kdf: KdfAlgorithm, pim: int)
    returns (r: Result<OpenResult, VolumeError>)
    requires |data| < TWO_64
    ensures r == Open(p, data, password, [MakeCandidate(p, kdf, pim)])
  {
    r := SearchFile(p, data, password, [MakeCandidate(p, kdf, pim)]);
  }

  /** Opening finds the lexicographically first (layout, offset, derivation, cipher) that
      authenticates, and fails only when none does. */
  lemma OpensFirst(p: Primitives, data: seq<byte>, password: seq<byte>, kdfs: seq<KdfCandidate>) returns (i: nat)
    requires |data| < TWO_64
    ensures var attempts := FileAttempts(data, kdfs);
            && i <= |attempts|
            && (forall j :: 0 <= j < i ==> Try(p, password, attempts[j]).None?)
            && (i < |attempts| ==> Open(p, data, password, kdfs) == Outcome(Try(p, password, attempts[i])))
            && (i < |attempts| ==> Open(p, data, password, kdfs).Ok?)
            && (i == |attempts| ==> Open(p, data, password, kdfs) == Err(AuthFailed))
  {
    hide FileAttempts;
    i := FirstSuccessIs(p, password, FileAttempts(data, kdfs));
  }
}
