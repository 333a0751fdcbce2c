/**
 Header encryption: the key derivation functions seen from outside, and the cipher pass over
 bytes 64 to 512 of a header under the first bytes of a 192-byte derived key.
 */
module HeaderCrypto {
  import opened Bytes
  import opened Ciphers
  import opened Tweak
  import opened Xts
  import opened Cascade
  import opened HeaderFormat

  datatype KdfAlgorithm =
    | Pbkdf2Sha512 | Pbkdf2Sha256 | Pbkdf2Blake2s | Pbkdf2Whirlpool | Pbkdf2Streebog | Argon2id

  /** A way to derive: the algorithm and the costs that the personal multiplier `pim` stands for. */
  datatype KdfCandidate = KdfCandidate(algorithm: KdfAlgorithm, pim: int, iterations: u32, memoryCostKib: Option<u32>)

  const MAX_HEADER_KEY_SIZE := 192

  /** Key derivation, by algorithm, iterations, memory cost, password and salt, always for 192
      bytes; it may fail. The costs a multiplier stands for are a table of the algorithm's. */
  datatype RawKdfs = RawKdfs(
    derive: (KdfAlgorithm, u32, Option<u32>, seq<byte>, Salt) -> Option<seq<byte>>,
    iterationCount: (KdfAlgorithm, int) -> u32,
    argonCosts: int -> (u32, u32))

  ghost predicate LawfulKdfs(k: RawKdfs) {
    forall a, n, m, password, salt ::
      k.derive(a, n, m, password, salt).Some? ==> |k.derive(a, n, m, password, salt).value| == MAX_HEADER_KEY_SIZE
  }

  function NoKey(a: KdfAlgorithm, n: u32, m: Option<u32>, password: seq<byte>, salt: Salt): Option<seq<byte>> {
    None
  }

  type Kdfs = k: RawKdfs | LawfulKdfs(k)
    witness RawKdfs(NoKey, (a: KdfAlgorithm, pim: int) => 1 as u32, (pim: int) => (1 as u32, 1 as u32))

  /** Everything cryptographic that the volume code calls. */
  datatype Primitives = Primitives(suite: Suite, kdfs: Kdfs)

  function MakeCandidate(p: Primitives, algorithm: KdfAlgorithm, pim: int): (c: KdfCandidate)
    ensures c.algorithm == algorithm && c.pim == pim
  {
    if algorithm.Argon2id? then
      var (memory, time) := p.kdfs.argonCosts(pim);
      KdfCandidate(algorithm, pim, time, Some(memory))
    else
      KdfCandidate(algorithm, pim, p.kdfs.iterationCount(algorithm, pim), None)
  }

  function Derive(p: Primitives, c: KdfCandidate, password: seq<byte>, salt: Salt): (r: Option<seq<byte>>)
    ensures r.Some? ==> |r.value| == MAX_HEADER_KEY_SIZE
  {
    p.kdfs.derive(c.algorithm, c.iterations, c.memoryCostKib, password, salt)
  }

  /** The part of a derived key that a cipher choice uses. */
  function CipherKey(key: seq<byte>, ct: CipherType): (r: seq<byte>)
    requires |key| == MAX_HEADER_KEY_SIZE
    ensures |r| == 2 * KeySize(ct) && r <= key
  {
    key[..KeySize(ct) * 2]
  }

  // ------------------------------------------------------------------ the encrypted area

  datatype HeaderError = TooShort(actualLength: nat) | Crypto(cause: CryptoError)

  /** The first 512 bytes of a header with the area after the salt encrypted or decrypted. */
  function Crypted(s: Suite, ct: CipherType, key: seq<byte>, head: seq<byte>, encrypt: bool): (r: seq<byte>)
    requires |key| == 2 * KeySize(ct) && |head| == EFFECTIVE_SIZE
    ensures |r| == EFFECTIVE_SIZE && r[..SALT_SIZE] == head[..SALT_SIZE]
  {
    head[..SALT_SIZE] + Transformed(s, Passes(ct, key), 0, head[SALT_SIZE..], encrypt)
  }

  lemma DecryptedEncrypted(s: Suite, ct: CipherType, key: seq<byte>, head: seq<byte>)
    requires |key| == 2 * KeySize(ct) && |head| == EFFECTIVE_SIZE
    ensures Crypted(s, ct, key, Crypted(s, ct, key, head, true), false) == head
  {
    hide Passes, RunPasses, UndoPasses;
    var area := Transformed(s, Passes(ct, key), 0, head[SALT_SIZE..], true);
    UndoRun(s, Passes(ct, key), 0, head[SALT_SIZE..]);
    assert (head[..SALT_SIZE] + area)[SALT_SIZE..] == area;
    assert head == head[..SALT_SIZE] + head[SALT_SIZE..];
  }

  /** The area of a header, written out for a single cipher: block `j` of the 28 after the salt, under the
      first 32 bytes of the key and with the tweak of sector 0 under the next 32. */
  lemma HeaderBlockWrittenOut(s: Suite, ct: CipherType, key: seq<byte>, head: seq<byte>, j: nat, encrypt: bool)
    requires IsSingle(ct) && |key| == 64 && |head| == 512 && j < 28
    ensures KeySize(ct) == 32
    ensures var t := Power(s.encrypt(ct, key[32..], Zeros(16)), j);
            var b: Block := head[64 + 16 * j..80 + 16 * j];
            Crypted(s, ct, key, head, encrypt)[64 + 16 * j..80 + 16 * j]
            == Xor(if encrypt then s.encrypt(ct, key[..32], Xor(b, t)) else s.decrypt(ct, key[..32], Xor(b, t)), t)
  {
    SingleArea(s, ct, key, head, encrypt);
    AreaBlock(s, ct, key, head[64..], j, encrypt);
    hide Power, Processed, Crypted, Xor;
    SliceAfter(head[..64], Processed(s, XtsMode(ct, key[..32], key[32..]), 0, head[64..], encrypt), 16 * j);
    SliceAfter(head[..64], head[64..], 16 * j);
    assert head[..64] + head[64..] == head;
  }

  lemma AreaBlock(s: Suite, ct: CipherType, key: seq<byte>, area: seq<byte>, j: nat, encrypt: bool)
    requires IsSingle(ct) && |key| == 64 && |area| == 448 && j < 28
    ensures var t := Power(s.encrypt(ct, key[32..], Zeros(16)), j);
            var b: Block := area[16 * j..16 * j + 16];
            Processed(s, XtsMode(ct, key[..32], key[32..]), 0, area, encrypt)[16 * j..16 * j + 16]
            == Xor(if encrypt then s.encrypt(ct, key[..32], Xor(b, t)) else s.decrypt(ct, key[..32], Xor(b, t)), t)
  {
    SectorZero();
    hide Power, Processed, IsNumber, Xor, Double;
    BlockWrittenOut(s, XtsMode(ct, key[..32], key[32..]), 0, Zeros(16), area, j, encrypt);
  }

  lemma SectorZero()
    ensures IsNumber(Zeros(16), 0)
  {
  }

  lemma SliceAfter(a: seq<byte>, b: seq<byte>, at: nat)
    requires |a| == 64 && at + 16 <= |b|
    ensures (a + b)[64 + at..80 + at] == b[at..at + 16]
  {
  }

  lemma SingleArea(s: Suite, ct: CipherType, key: seq<byte>, head: seq<byte>, encrypt: bool)
    requires IsSingle(ct) && |key| == 64 && |head| == 512
    ensures KeySize(ct) == 32
    ensures Crypted(s, ct, key, head, encrypt)
         == head[..64] + Processed(s, XtsMode(ct, key[..32], key[32..]), 0, head[64..], encrypt)
  {
    hide Encrypted, Decrypted, Passes;
    PassesWrittenOut(ct, key);
    OnePass(s, XtsMode(ct, key[..32], key[32..]), 0, head[64..]);
  }

  /** `encrypt_header_area` and `decrypt_header_area`. */
  method CryptHeaderArea(s: Suite, data: array<byte>, key: seq<byte>, ct: CipherType, encrypt: bool)
    returns (r: Result<(), HeaderError>)
    modifies data
    ensures r.Ok? <==> data.Length >= EFFECTIVE_SIZE && |key| == 2 * KeySize(ct)
    ensures r.Ok? ==>
      data[..] == Crypted(s, ct, key, old(data[..EFFECTIVE_SIZE]), encrypt) + old(data[EFFECTIVE_SIZE..])
    ensures r.Err? ==> data[..] == old(data[..])
  {
    hide Passes, Transformed;
    if data.Length < EFFECTIVE_SIZE {
      return Err(TooShort(data.Length));
    }
    ghost var start := data[..];
    var done := ApplyXts(s, ct, key, data, SALT_SIZE, EFFECTIVE_SIZE, encrypt);
    if done.Err? {
      return Err(Crypto(done.error));
    }
    ghost var head := start[..EFFECTIVE_SIZE];
    assert head[SALT_SIZE..] == start[SALT_SIZE..EFFECTIVE_SIZE];
    AreaInPlace(start, Transformed(s, Passes(ct, key), 0, head[SALT_SIZE..], encrypt));
    return Ok(());
  }

  lemma AreaInPlace(start: seq<byte>, area: seq<byte>)
    requires |start| >= EFFECTIVE_SIZE && |area| == ENCRYPTED_SIZE
    ensures Splice(start, SALT_SIZE, area) == start[..EFFECTIVE_SIZE][..SALT_SIZE] + area + start[EFFECTIVE_SIZE..]
  {
  }
}
