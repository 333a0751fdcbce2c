/**
 The block-level cascade: single ciphers applied to one block in the order of the cascade's
 name, which is not the order of the passes on disk.
 */
module BlockCascade {
  import opened Bytes
  import opened Ciphers
  import opened Tweak
  import opened Cascade

  /** A single cipher with its key. */
  type Instance = (CipherType, seq<byte>)

  /** Cipher `i` of the name, with slice `i` of the key. */
  function CreateCiphers(ct: CipherType, key: seq<byte>): (r: seq<Instance>)
    requires |key| == KeySize(ct)
    ensures |r| == |NameOrder(ct)|
  {
    seq(|NameOrder(ct)|, i requires 0 <= i < |NameOrder(ct)| => (NameOrder(ct)[i], key[32 * i..32 * i + 32]))
  }

  function NewCascade(ct: CipherType, key: seq<byte>): (r: Result<seq<Instance>, CryptoError>)
    requires !IsSingle(ct)
    ensures r.Ok? <==> |key| == KeySize(ct)
  {
    if |key| != KeySize(ct) then Err(InvalidKeySize(KeySize(ct), |key|)) else Ok(CreateCiphers(ct, key))
  }

  function Names(ciphers: seq<Instance>): seq<CipherType> {
    seq(|ciphers|, i requires 0 <= i < |ciphers| => ciphers[i].0)
  }

  function Keys(ciphers: seq<Instance>): seq<byte> {
    if ciphers == [] then [] else Keys(ciphers[..|ciphers| - 1]) + ciphers[|ciphers| - 1].1
  }

  lemma {:induction false} KeysSoFar(ct: CipherType, key: seq<byte>, n: nat)
    requires |key| == KeySize(ct) && n <= |NameOrder(ct)|
    ensures Keys(CreateCiphers(ct, key)[..n]) == key[..32 * n]
  {
    hide NameOrder;
    if n > 0 {
      var all := CreateCiphers(ct, key);
      KeysSoFar(ct, key, n - 1);
      assert all[..n][..n - 1] == all[..n - 1];
      assert key[..32 * n] == key[..32 * (n - 1)] + key[32 * (n - 1)..32 * (n - 1) + 32];
    }
  }

  /** A cascade is built exactly from a key of 32 bytes for each cipher of its name: it has those
      ciphers in that order, and their keys laid end to end are the key. */
  lemma CascadeBuilt(ct: CipherType, key: seq<byte>)
    requires !IsSingle(ct)
    ensures NewCascade(ct, key).Ok? <==> |key| == 32 * |NameOrder(ct)|
    ensures NewCascade(ct, key).Ok? ==>
      Names(NewCascade(ct, key).value) == NameOrder(ct) && Keys(NewCascade(ct, key).value) == key
  {
    hide NameOrder;
    if |key| == KeySize(ct) {
      var all := CreateCiphers(ct, key);
      KeysSoFar(ct, key, |all|);
      assert all[..|all|] == all && key[..32 * |all|] == key;
      assert Names(all) == NameOrder(ct);
    }
  }

  function EncryptThrough(s: Suite, ciphers: seq<Instance>, b: Block): Block {
    if ciphers == [] then b
    else s.encrypt(ciphers[|ciphers| - 1].0, ciphers[|ciphers| - 1].1, EncryptThrough(s, ciphers[..|ciphers| - 1], b))
  }

  function DecryptThrough(s: Suite, ciphers: seq<Instance>, b: Block): Block {
    if ciphers == [] then b
    else DecryptThrough(s, ciphers[..|ciphers| - 1], s.decrypt(ciphers[|ciphers| - 1].0, ciphers[|ciphers| - 1].1, b))
  }

  /** The first cipher of the list comes first in encryption and last in decryption. */
  lemma OneAfterAnother(s: Suite, ciphers: seq<Instance>, last: Instance, b: Block)
    ensures EncryptThrough(s, [], b) == b == DecryptThrough(s, [], b)
    ensures EncryptThrough(s, ciphers + [last], b) == s.encrypt(last.0, last.1, EncryptThrough(s, ciphers, b))
    ensures DecryptThrough(s, ciphers + [last], b) == DecryptThrough(s, ciphers, s.decrypt(last.0, last.1, b))
  {
    assert (ciphers + [last])[..|ciphers|] == ciphers;
  }

  /** `encrypt_block`: forward, in place. */
  method EncryptBlock(s: Suite, ciphers: seq<Instance>, block: array<byte>) returns (r: Result<(), CryptoError>)
    modifies block
    ensures r == if block.Length == 16 then Ok(()) else Err(InvalidBlockSize(16, block.Length))
    ensures r.Ok? ==> block[..] == EncryptThrough(s, ciphers, old(block[..]))
    ensures r.Err? ==> block[..] == old(block[..])
  {
    if block.Length != 16 {
      return Err(InvalidBlockSize(16, block.Length));
    }
    ghost var start := block[..];
    for i := 0 to |ciphers|
      invariant block[..] == EncryptThrough(s, ciphers[..i], start)
    {
      assert ciphers[..i + 1][..i] == ciphers[..i];
      StoreAll(block, s.encrypt(ciphers[i].0, ciphers[i].1, block[..]));
    }
    assert ciphers[..|ciphers|] == ciphers;
    return Ok(());
  }

  /** `decrypt_block`: backward, in place. */
  method DecryptBlock(s: Suite, ciphers: seq<Instance>, block: array<byte>) returns (r: Result<(), CryptoError>)
    modifies block
    ensures r == if block.Length == 16 then Ok(()) else Err(InvalidBlockSize(16, block.Length))
    ensures r.Ok? ==> block[..] == DecryptThrough(s, ciphers, old(block[..]))
    ensures r.Err? ==> block[..] == old(block[..])
  {
    if block.Length != 16 {
      return Err(InvalidBlockSize(16, block.Length));
    }
    ghost var start := block[..];
    var n := |ciphers|;
    assert ciphers[..n] == ciphers;
    while n > 0
      invariant n <= |ciphers|
      invariant DecryptThrough(s, ciphers[..n], block[..]) == DecryptThrough(s, ciphers, start)
    {
      n := n - 1;
      assert ciphers[..n + 1][..n] == ciphers[..n];
      StoreAll(block, s.decrypt(ciphers[n].0, ciphers[n].1, block[..]));
    }
    return Ok(());
  }

  /** Decrypting undoes encrypting, for every list of ciphers. */
  lemma {:induction false} DecryptUndoes(s: Suite, ciphers: seq<Instance>, b: Block)
    ensures DecryptThrough(s, ciphers, EncryptThrough(s, ciphers, b)) == b
    decreases |ciphers|
  {
    if ciphers != [] {
      DecryptUndoes(s, ciphers[..|ciphers| - 1], b);
    }
  }

  /** The ciphers run in the opposite order to the passes on disk, and so not in the same order. */
  lemma OppositeToDisk(ct: CipherType, key: seq<byte>, xtsKey: seq<byte>)
    requires !IsSingle(ct) && |key| == KeySize(ct) && |xtsKey| == 2 * KeySize(ct)
    ensures var block, disk := CreateCiphers(ct, key), Passes(ct, xtsKey);
            && |block| == |disk| >= 2
            && (forall i :: 0 <= i < |block| ==> block[i].0 == disk[|disk| - 1 - i].ct)
            && block[0].0 != disk[0].ct
  {
    hide Pass;
    FirstIsNotLast(ct);
    forall i | 0 <= i < |NameOrder(ct)|
      ensures Passes(ct, xtsKey)[i].ct == NameOrder(ct)[|NameOrder(ct)| - 1 - i]
    {
      PassCipher(ct, xtsKey, i);
    }
  }

  lemma PassCipher(ct: CipherType, key: seq<byte>, i: nat)
    requires |key| == 2 * KeySize(ct) && i < |NameOrder(ct)|
    ensures Pass(ct, key, i).ct == NameOrder(ct)[|NameOrder(ct)| - 1 - i]
  {
  }

  lemma FirstIsNotLast(ct: CipherType)
    requires !IsSingle(ct)
    ensures |NameOrder(ct)| >= 2 && NameOrder(ct)[0] != NameOrder(ct)[|NameOrder(ct)| - 1]
  {
  }
}
