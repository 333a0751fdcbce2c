/**
 Cascades: the pass order and key layout VeraCrypt fixes, and the three builders that must
 agree on it - the kernel's cipher tree, the user-mode list of passes and the header's
 pass-by-pass loop.
 */
module Cascade {
  import opened Bytes
  import opened Ciphers
  import opened Xts

  // ------------------------------------------------------------------ what a cascade is

  /** The ciphers of a choice, in the order its name lists them. */
  function NameOrder(ct: CipherType): (order: seq<CipherType>)
    ensures 1 <= |order| <= 3 && 32 * |order| == KeySize(ct)
    ensures forall i :: 0 <= i < |order| ==> IsSingle(order[i])
  {
    match ct
    case Aes => [Aes]
    case Serpent => [Serpent]
    case Twofish => [Twofish]
    case Camellia => [Camellia]
    case Kuznyechik => [Kuznyechik]
    case AesTwofish => [Aes, Twofish]
    case AesTwofishSerpent => [Aes, Twofish, Serpent]
    case SerpentAes => [Serpent, Aes]
    case SerpentTwofishAes => [Serpent, Twofish, Aes]
    case TwofishSerpent => [Twofish, Serpent]
    case CamelliaKuznyechik => [Camellia, Kuznyechik]
    case CamelliaSerpent => [Camellia, Serpent]
    case KuznyechikAes => [Kuznyechik, Aes]
    case KuznyechikSerpentCamellia => [Kuznyechik, Serpent, Camellia]
    case KuznyechikTwofish => [Kuznyechik, Twofish]
  }

  /** The words of what a choice is called, between hyphens. */
  function Name(ct: CipherType): seq<string> {
    match ct
    case Aes => ["AES"]
    case Serpent => ["Serpent"]
    case Twofish => ["Twofish"]
    case Camellia => ["Camellia"]
    case Kuznyechik => ["Kuznyechik"]
    case AesTwofish => ["AES", "Twofish"]
    case AesTwofishSerpent => ["AES", "Twofish", "Serpent"]
    case SerpentAes => ["Serpent", "AES"]
    case SerpentTwofishAes => ["Serpent", "Twofish", "AES"]
    case TwofishSerpent => ["Twofish", "Serpent"]
    case CamelliaKuznyechik => ["Camellia", "Kuznyechik"]
    case CamelliaSerpent => ["Camellia", "Serpent"]
    case KuznyechikAes => ["Kuznyechik", "AES"]
    case KuznyechikSerpentCamellia => ["Kuznyechik", "Serpent", "Camellia"]
    case KuznyechikTwofish => ["Kuznyechik", "Twofish"]
  }

  /** The order is the one the name spells out. */
  lemma NameSpellsOrder(ct: CipherType, i: nat)
    requires i < |NameOrder(ct)|
    ensures |Name(ct)| == |NameOrder(ct)| && [Name(ct)[i]] == Name(NameOrder(ct)[i])
  {
  }

  /** Pass `i` of an encryption: the name read backwards, slice `i` of each key half. */
  function Pass(ct: CipherType, key: seq<byte>, i: nat): XtsMode
    requires |key| == 2 * KeySize(ct) && i < |NameOrder(ct)|
  {
    var names := NameOrder(ct);
    var half := KeySize(ct);
    XtsMode(names[|names| - 1 - i], key[32 * i..32 * i + 32], key[half + 32 * i..half + 32 * i + 32])
  }

  function FirstPasses(ct: CipherType, key: seq<byte>, n: nat): (passes: seq<XtsMode>)
    requires |key| == 2 * KeySize(ct) && n <= |NameOrder(ct)|
    ensures |passes| == n
    ensures forall i :: 0 <= i < n ==> passes[i] == Pass(ct, key, i)
  {
    seq(n, i requires 0 <= i < n => Pass(ct, key, i))
  }

  /** The passes a cipher choice and a key stand for, first to last. */
  function Passes(ct: CipherType, key: seq<byte>): (passes: seq<XtsMode>)
    requires |key| == 2 * KeySize(ct)
    ensures |passes| == |NameOrder(ct)|
  {
    FirstPasses(ct, key, |NameOrder(ct)|)
  }

  /** Every pass in turn over the whole buffer. */
  function RunPasses(s: Suite, passes: seq<XtsMode>, sector: nat, data: seq<byte>): (r: seq<byte>)
    requires Whole(data)
    ensures |r| == |data|
  {
    if passes == [] then data else RunPasses(s, passes[1..], sector, Encrypted(s, passes[0], sector, data))
  }

  /** The passes undone, last one first. */
  function UndoPasses(s: Suite, passes: seq<XtsMode>, sector: nat, data: seq<byte>): (r: seq<byte>)
    requires Whole(data)
    ensures |r| == |data|
  {
    if passes == [] then data else Decrypted(s, passes[0], sector, UndoPasses(s, passes[1..], sector, data))
  }

  function Transformed(s: Suite, passes: seq<XtsMode>, sector: nat, data: seq<byte>, encrypt: bool): (r: seq<byte>)
    requires Whole(data)
    ensures |r| == |data|
  {
    if encrypt then RunPasses(s, passes, sector, data) else UndoPasses(s, passes, sector, data)
  }

  /** Reverse-order decryption undoes encryption. */
  lemma {:induction false} UndoRun(s: Suite, passes: seq<XtsMode>, sector: nat, data: seq<byte>)
    requires Whole(data)
    ensures UndoPasses(s, passes, sector, RunPasses(s, passes, sector, data)) == data
    decreases |passes|
  {
    if passes != [] {
      UndoRun(s, passes[1..], sector, Encrypted(s, passes[0], sector, data));
      DecryptInverts(s, passes[0], sector, data);
    }
  }

  lemma {:induction false} RunPassesConcat(s: Suite, a: seq<XtsMode>, b: seq<XtsMode>, sector: nat, data: seq<byte>)
    requires Whole(data)
    ensures RunPasses(s, a + b, sector, data) == RunPasses(s, b, sector, RunPasses(s, a, sector, data))
    decreases |a|
  {
    if a == [] {
      assert a + b == b;
    } else {
      assert (a + b)[1..] == a[1..] + b;
      RunPassesConcat(s, a[1..], b, sector, Encrypted(s, a[0], sector, data));
    }
  }

  lemma {:induction false} UndoPassesConcat(s: Suite, a: seq<XtsMode>, b: seq<XtsMode>, sector: nat, data: seq<byte>)
    requires Whole(data)
    ensures UndoPasses(s, a + b, sector, data) == UndoPasses(s, a, sector, UndoPasses(s, b, sector, data))
    decreases |a|
  {
    if a == [] {
      assert a + b == b;
    } else {
      assert (a + b)[1..] == a[1..] + b;
      UndoPassesConcat(s, a[1..], b, sector, data);
    }
  }

  lemma OnePass(s: Suite, x: XtsMode, sector: nat, data: seq<byte>)
    requires Whole(data)
    ensures RunPasses(s, [x], sector, data) == Encrypted(s, x, sector, data)
    ensures UndoPasses(s, [x], sector, data) == Decrypted(s, x, sector, data)
  {
    assert [x][1..] == [];
  }

  // ------------------------------------------------------------------ key material

  function DataKeys(passes: seq<XtsMode>): seq<byte> {
    if passes == [] then [] else DataKeys(passes[..|passes| - 1]) + passes[|passes| - 1].dataKey
  }

  function TweakKeys(passes: seq<XtsMode>): seq<byte> {
    if passes == [] then [] else TweakKeys(passes[..|passes| - 1]) + passes[|passes| - 1].tweakKey
  }

  lemma SliceGrows(half: seq<byte>, at: nat)
    requires at + 32 <= |half|
    ensures half[..at + 32] == half[..at] + half[at..at + 32]
  {
  }

  lemma {:induction false} KeysLaidOut(passes: seq<XtsMode>, dataHalf: seq<byte>, tweakHalf: seq<byte>)
    requires 32 * |passes| <= |dataHalf| && 32 * |passes| <= |tweakHalf|
    requires forall i :: 0 <= i < |passes| ==> passes[i].dataKey == dataHalf[32 * i..32 * i + 32]
    requires forall i :: 0 <= i < |passes| ==> passes[i].tweakKey == tweakHalf[32 * i..32 * i + 32]
    ensures DataKeys(passes) == dataHalf[..32 * |passes|]
    ensures TweakKeys(passes) == tweakHalf[..32 * |passes|]
  {
    if passes != [] {
      var n := |passes| - 1;
      var init := passes[..n];
      KeysLaidOut(init, dataHalf, tweakHalf);
      SliceGrows(dataHalf, 32 * n);
      SliceGrows(tweakHalf, 32 * n);
    }
  }

  lemma PassSlices(ct: CipherType, key: seq<byte>, i: nat)
    requires |key| == 2 * KeySize(ct) && i < |NameOrder(ct)|
    ensures IsSingle(Pass(ct, key, i).ct)
    ensures Pass(ct, key, i).dataKey == key[..KeySize(ct)][32 * i..32 * i + 32]
    ensures Pass(ct, key, i).tweakKey == key[KeySize(ct)..][32 * i..32 * i + 32]
  {
    hide KeySize, NameOrder;
    var half := KeySize(ct);
    SliceOfSlice(key, 0, half, 32 * i, 32 * i + 32);
    SliceOfSlice(key, half, |key|, 32 * i, 32 * i + 32);
    assert key[0..half] == key[..half] && key[half..|key|] == key[half..];
  }

  /** The passes use up both key halves: laid end to end in pass order their data keys are
      the data half and their tweak keys the tweak half, so each 32-byte slice of either is
      used exactly once. */
  lemma KeyUsedExactlyOnce(ct: CipherType, key: seq<byte>)
    requires |key| == 2 * KeySize(ct)
    ensures DataKeys(Passes(ct, key)) == key[..KeySize(ct)]
    ensures TweakKeys(Passes(ct, key)) == key[KeySize(ct)..]
    ensures forall i :: 0 <= i < |Passes(ct, key)| ==>
              IsSingle(Passes(ct, key)[i].ct) && |Passes(ct, key)[i].dataKey| == |Passes(ct, key)[i].tweakKey| == 32
  {
    var passes := Passes(ct, key);
    var dataHalf, tweakHalf := key[..KeySize(ct)], key[KeySize(ct)..];
    forall i | 0 <= i < |passes|
      ensures IsSingle(passes[i].ct)
      ensures passes[i].dataKey == dataHalf[32 * i..32 * i + 32]
      ensures passes[i].tweakKey == tweakHalf[32 * i..32 * i + 32]
    {
      PassSlices(ct, key, i);
    }
    KeysLaidOut(passes, dataHalf, tweakHalf);
    assert dataHalf[..32 * |passes|] == dataHalf && tweakHalf[..32 * |passes|] == tweakHalf;
  }

  // ------------------------------------------------------------------ the shared order table

  datatype CascadeMode =
    | AesTwofish | AesTwofishSerpent | SerpentAes | SerpentTwofishAes | TwofishSerpent
    | CamelliaKuznyechik | CamelliaSerpent | KuznyechikAes | KuznyechikSerpentCamellia | KuznyechikTwofish

  function ModeOf(ct: CipherType): CascadeMode
    requires !IsSingle(ct)
  {
    match ct
    case AesTwofish => CascadeMode.AesTwofish
    case AesTwofishSerpent => CascadeMode.AesTwofishSerpent
    case SerpentAes => CascadeMode.SerpentAes
    case SerpentTwofishAes => CascadeMode.SerpentTwofishAes
    case TwofishSerpent => CascadeMode.TwofishSerpent
    case CamelliaKuznyechik => CascadeMode.CamelliaKuznyechik
    case CamelliaSerpent => CascadeMode.CamelliaSerpent
    case KuznyechikAes => CascadeMode.KuznyechikAes
    case KuznyechikSerpentCamellia => CascadeMode.KuznyechikSerpentCamellia
    case KuznyechikTwofish => CascadeMode.KuznyechikTwofish
  }

  function CipherCount(mode: CascadeMode): nat {
    match mode
    case AesTwofish => 2
    case SerpentAes => 2
    case TwofishSerpent => 2
    case CamelliaKuznyechik => 2
    case CamelliaSerpent => 2
    case KuznyechikAes => 2
    case KuznyechikTwofish => 2
    case AesTwofishSerpent => 3
    case SerpentTwofishAes => 3
    case KuznyechikSerpentCamellia => 3
  }

  function ModeKeySize(mode: CascadeMode): nat {
    CipherCount(mode) * 32
  }

  /** Cipher and key offset of each pass, in encryption order. */
  function VeracryptOrder(mode: CascadeMode): seq<(CipherType, nat)> {
    match mode
    case AesTwofish => [(CipherType.Twofish, 0), (CipherType.Aes, 32)]
    case AesTwofishSerpent => [(CipherType.Serpent, 0), (CipherType.Twofish, 32), (CipherType.Aes, 64)]
    case SerpentAes => [(CipherType.Aes, 0), (CipherType.Serpent, 32)]
    case SerpentTwofishAes => [(CipherType.Aes, 0), (CipherType.Twofish, 32), (CipherType.Serpent, 64)]
    case TwofishSerpent => [(CipherType.Serpent, 0), (CipherType.Twofish, 32)]
    case CamelliaKuznyechik => [(CipherType.Kuznyechik, 0), (CipherType.Camellia, 32)]
    case CamelliaSerpent => [(CipherType.Serpent, 0), (CipherType.Camellia, 32)]
    case KuznyechikAes => [(CipherType.Aes, 0), (CipherType.Kuznyechik, 32)]
    case KuznyechikSerpentCamellia => [(CipherType.Camellia, 0), (CipherType.Serpent, 32), (CipherType.Kuznyechik, 64)]
    case KuznyechikTwofish => [(CipherType.Twofish, 0), (CipherType.Kuznyechik, 32)]
  }

  /** The table is the cascade's name read backwards, with consecutive 32-byte offsets. */
  lemma OrderIsNameReversed(ct: CipherType)
    requires !IsSingle(ct)
    ensures var order, names := VeracryptOrder(ModeOf(ct)), NameOrder(ct);
            && |order| == |names| == CipherCount(ModeOf(ct)) && 2 <= |order| <= 3
            && ModeKeySize(ModeOf(ct)) == KeySize(ct)
            && forall i :: 0 <= i < |order| ==> order[i] == (names[|names| - 1 - i], 32 * i)
  {
  }

  /** One entry of the table applied to the two key halves. */
  function CombinedKey(dataHalf: seq<byte>, tweakHalf: seq<byte>, offset: nat): (k: seq<byte>)
    requires offset + 32 <= |dataHalf| && offset + 32 <= |tweakHalf|
    ensures |k| == 64
  {
    dataHalf[offset..offset + 32] + tweakHalf[offset..offset + 32]
  }

  lemma EntryIsPass(ct: CipherType, key: seq<byte>, i: nat)
    requires !IsSingle(ct) && |key| == 2 * KeySize(ct) && i < |NameOrder(ct)|
    ensures var half := ModeKeySize(ModeOf(ct));
            && |VeracryptOrder(ModeOf(ct))| == |NameOrder(ct)| && half == KeySize(ct)
            && var (pass, offset) := VeracryptOrder(ModeOf(ct))[i];
            && IsSingle(pass) && offset + 32 <= half
            && NewXts(pass, CombinedKey(key[..half], key[half..], offset)) == Ok(Pass(ct, key, i))
  {
    hide NameOrder, VeracryptOrder, ModeOf, KeySize, CipherCount;
    OrderIsNameReversed(ct);
    var half := KeySize(ct);
    var combined := CombinedKey(key[..half], key[half..], 32 * i);
    SliceOfSlice(key, 0, half, 32 * i, 32 * i + 32);
    SliceOfSlice(key, half, |key|, 32 * i, 32 * i + 32);
    assert combined[..32] == key[32 * i..32 * i + 32];
    assert combined[32..] == key[half + 32 * i..half + 32 * i + 32];
  }

  /** The passes of every choice from its key: on disk the last cipher of the name comes first, with the
      first 32 bytes of either half of the key. */
  lemma PassesWrittenOut(ct: CipherType, key: seq<byte>)
    requires |key| == 2 * KeySize(ct)
    ensures var n, passes := NameOrder(ct), Passes(ct, key);
            && |passes| == |n|
            && (|n| == 1 ==> passes == [XtsMode(n[0], key[..32], key[32..])])
            && (|n| == 2 ==> passes == [XtsMode(n[1], key[..32], key[64..96]), XtsMode(n[0], key[32..64], key[96..])])
            && (|n| == 3 ==>
                passes == [XtsMode(n[2], key[..32], key[96..128]), XtsMode(n[1], key[32..64], key[128..160]),
                           XtsMode(n[0], key[64..96], key[160..])])
  {
    hide NameOrder, Pass;
    var n := NameOrder(ct);
    PassParts(ct, key, 0);
    if |n| == 1 {
      assert key[32..64] == key[32..];
    } else if |n| == 2 {
      PassParts(ct, key, 1);
      assert key[96..128] == key[96..];
    } else {
      PassParts(ct, key, 1);
      PassParts(ct, key, 2);
      assert key[160..192] == key[160..];
    }
  }

  lemma PassParts(ct: CipherType, key: seq<byte>, i: nat)
    requires |key| == 2 * KeySize(ct) && i < |NameOrder(ct)|
    ensures var n, half := NameOrder(ct), KeySize(ct);
            Pass(ct, key, i)
            == XtsMode(n[|n| - 1 - i], key[32 * i..32 * i + 32], key[half + 32 * i..half + 32 * i + 32])
  {
  }

  // ------------------------------------------------------------------ the kernel's builder

  datatype KernelSectorCipher =
    | Single(xts: XtsMode)
    | Cascade2(first: KernelSectorCipher, second: KernelSectorCipher)
    | Cascade3(first: KernelSectorCipher, second: KernelSectorCipher, third: KernelSectorCipher)

  function PassesOf(k: KernelSectorCipher): seq<XtsMode> {
    match k
    case Single(xts) => [xts]
    case Cascade2(a, b) => PassesOf(a) + PassesOf(b)
    case Cascade3(a, b, c) => PassesOf(a) + PassesOf(b) + PassesOf(c)
  }

  /** Accepts exactly the keys of the right length, and stands for the passes of the cascade. */
  method NewKernelCipher(ct: CipherType, key: seq<byte>) returns (r: Result<KernelSectorCipher, CryptoError>)
    ensures r.Ok? <==> |key| == 2 * KeySize(ct)
    ensures r.Ok? ==> PassesOf(r.value) == Passes(ct, key)
    ensures r.Err? ==> r.error == InvalidKeySize(2 * KeySize(ct), |key|)
    decreases if IsSingle(ct) then 0 else 2
  {
    if IsSingle(ct) {
      var xts := NewXts(ct, key);
      if xts.Err? {
        return Err(xts.error);
      }
      SinglePasses(ct, key);
      return Ok(Single(xts.value));
    }
    r := BuildCascade(ct, key);
  }

  method BuildCascade(ct: CipherType, key: seq<byte>) returns (r: Result<KernelSectorCipher, CryptoError>)
    requires !IsSingle(ct)
    ensures r.Ok? <==> |key| == 2 * KeySize(ct)
    ensures r.Ok? ==> PassesOf(r.value) == Passes(ct, key)
    ensures r.Err? ==> r.error == InvalidKeySize(2 * KeySize(ct), |key|)
    decreases 1
  {
    hide NameOrder, VeracryptOrder, ModeOf, KeySize, CipherCount, CombinedKey, Pass;
    var mode := ModeOf(ct);
    OrderIsNameReversed(ct);
    var half := ModeKeySize(mode);
    if |key| != half * 2 {
      return Err(InvalidKeySize(half * 2, |key|));
    }
    var dataHalf, tweakHalf := key[..half], key[half..];
    var order := VeracryptOrder(mode);
    var built: seq<KernelSectorCipher> := [];
    for i := 0 to |order|
      invariant |built| == i
      invariant forall j :: 0 <= j < i ==> PassesOf(built[j]) == [Pass(ct, key, j)]
    {
      EntryIsPass(ct, key, i);
      var (pass, offset) := order[i];
      SinglePasses(pass, CombinedKey(dataHalf, tweakHalf, offset));
      var k := NewKernelCipher(pass, CombinedKey(dataHalf, tweakHalf, offset));
      match k
      case Err(e) => return Err(e);
      case Ok(cipher) => built := built + [cipher];
    }
    if |built| == 2 {
      assert Passes(ct, key) == [Pass(ct, key, 0)] + [Pass(ct, key, 1)];
      return Ok(Cascade2(built[0], built[1]));
    } else if |built| == 3 {
      assert Passes(ct, key) == [Pass(ct, key, 0)] + [Pass(ct, key, 1)] + [Pass(ct, key, 2)];
      return Ok(Cascade3(built[0], built[1], built[2]));
    } else {
      return Err(UnsupportedCipher(ct));
    }
  }

  lemma SinglePasses(ct: CipherType, key: seq<byte>)
    requires IsSingle(ct) && |key| == 64
    ensures NewXts(ct, key).Ok? && Passes(ct, key) == [NewXts(ct, key).value]
  {
    assert key[32 * 0..32 * 0 + 32] == key[..32];
    assert key[32 + 32 * 0..32 + 32 * 0 + 32] == key[32..];
    assert Pass(ct, key, 0) == NewXts(ct, key).value;
  }

  function TreeTransformed(s: Suite, k: KernelSectorCipher, sector: nat, data: seq<byte>, encrypt: bool): (r: seq<byte>)
    requires Whole(data)
    ensures |r| == |data|
  {
    match k
    case Single(x) => Processed(s, x, sector, data, encrypt)
    case Cascade2(a, b) =>
      if encrypt then
        TreeTransformed(s, b, sector, TreeTransformed(s, a, sector, data, encrypt), encrypt)
      else
        TreeTransformed(s, a, sector, TreeTransformed(s, b, sector, data, encrypt), encrypt)
    case Cascade3(a, b, c) =>
      if encrypt then
        TreeTransformed(s, c, sector,
          TreeTransformed(s, b, sector, TreeTransformed(s, a, sector, data, encrypt), encrypt), encrypt)
      else
        TreeTransformed(s, a, sector,
          TreeTransformed(s, b, sector, TreeTransformed(s, c, sector, data, encrypt), encrypt), encrypt)
  }

  /** The tree runs, or undoes, its passes left to right. */
  lemma {:induction false} KernelRunsPasses(s: Suite, k: KernelSectorCipher, sector: nat, data: seq<byte>,
                                            encrypt: bool)
    requires Whole(data)
    ensures TreeTransformed(s, k, sector, data, encrypt) == Transformed(s, PassesOf(k), sector, data, encrypt)
    decreases k
  {
    match k
    case Single(x) =>
      OnePass(s, x, sector, data);
    case Cascade2(a, b) =>
      if encrypt {
        KernelRunsPasses(s, a, sector, data, true);
        KernelRunsPasses(s, b, sector, TreeTransformed(s, a, sector, data, true), true);
        RunPassesConcat(s, PassesOf(a), PassesOf(b), sector, data);
      } else {
        KernelRunsPasses(s, b, sector, data, false);
        KernelRunsPasses(s, a, sector, TreeTransformed(s, b, sector, data, false), false);
        UndoPassesConcat(s, PassesOf(a), PassesOf(b), sector, data);
      }
    case Cascade3(a, b, c) =>
      var ab := Cascade2(a, b);
      if encrypt {
        KernelRunsPasses(s, a, sector, data, true);
        KernelRunsPasses(s, b, sector, TreeTransformed(s, a, sector, data, true), true);
        KernelRunsPasses(s, c, sector, TreeTransformed(s, ab, sector, data, true), true);
        RunPassesConcat(s, PassesOf(a), PassesOf(b), sector, data);
        RunPassesConcat(s, PassesOf(ab), PassesOf(c), sector, data);
      } else {
        KernelRunsPasses(s, c, sector, data, false);
        var afterC := TreeTransformed(s, c, sector, data, false);
        KernelRunsPasses(s, b, sector, afterC, false);
        KernelRunsPasses(s, a, sector, TreeTransformed(s, b, sector, afterC, false), false);
        UndoPassesConcat(s, PassesOf(a), PassesOf(b), sector, afterC);
        UndoPassesConcat(s, PassesOf(ab), PassesOf(c), sector, data);
      }
  }

  /** Encrypts or decrypts one 512-byte sector in place. */
  method KernelSector(s: Suite, k: KernelSectorCipher, sector: nat, data: array<byte>, lo: nat, encrypt: bool)
    requires lo + 512 <= data.Length
    modifies data
    ensures data[..] == Splice(old(data[..]), lo, Transformed(s, PassesOf(k), sector, old(data[lo..lo + 512]), encrypt))
  {
    KernelRunsPasses(s, k, sector, data[lo..lo + 512], encrypt);
    KernelTree(s, k, sector, data, lo, encrypt);
  }

  method KernelTree(s: Suite, k: KernelSectorCipher, sector: nat, data: array<byte>, lo: nat, encrypt: bool)
    requires lo + 512 <= data.Length
    modifies data
    ensures data[..] == Splice(old(data[..]), lo, TreeTransformed(s, k, sector, old(data[lo..lo + 512]), encrypt))
    decreases k
  {
    ghost var start, input := data[..], data[lo..lo + 512];
    match k
    case Single(x) =>
      ProcessSector(s, x, sector, data, lo, encrypt);
    case Cascade2(a, b) =>
      var first, second := if encrypt then a else b, if encrypt then b else a;
      KernelTree(s, first, sector, data, lo, encrypt);
      ghost var one := TreeTransformed(s, first, sector, input, encrypt);
      SpliceParts(start, lo, one);
      KernelTree(s, second, sector, data, lo, encrypt);
      SpliceTwice(start, lo, one, TreeTransformed(s, second, sector, one, encrypt));
    case Cascade3(a, b, c) =>
      var first, last := if encrypt then a else c, if encrypt then c else a;
      KernelTree(s, first, sector, data, lo, encrypt);
      ghost var one := TreeTransformed(s, first, sector, input, encrypt);
      SpliceParts(start, lo, one);
      KernelTree(s, b, sector, data, lo, encrypt);
      ghost var two := TreeTransformed(s, b, sector, one, encrypt);
      SpliceTwice(start, lo, one, two);
      SpliceParts(start, lo, two);
      KernelTree(s, last, sector, data, lo, encrypt);
      SpliceTwice(start, lo, two, TreeTransformed(s, last, sector, two, encrypt));
  }

  // ------------------------------------------------------------------ the user-mode builder

  datatype SectorCipher =
    | SingleSectorXts(xts: XtsMode)
    | CascadeSectorCipher(passes: seq<XtsMode>)

  function UserPasses(c: SectorCipher): seq<XtsMode> {
    match c
    case SingleSectorXts(x) => [x]
    case CascadeSectorCipher(passes) => passes
  }

  method CreateSectorCipher(ct: CipherType, key: seq<byte>) returns (r: Result<SectorCipher, CryptoError>)
    ensures r.Ok? <==> |key| == 2 * KeySize(ct)
    ensures r.Ok? ==> UserPasses(r.value) == Passes(ct, key)
  {
    if IsSingle(ct) {
      var xts := NewXts(ct, key);
      if xts.Err? {
        return Err(xts.error);
      }
      SinglePasses(ct, key);
      return Ok(SingleSectorXts(xts.value));
    }
    var passes := BuildCascadePasses(ct, key);
    if passes.Err? {
      return Err(passes.error);
    }
    return Ok(CascadeSectorCipher(passes.value));
  }

  method BuildCascadePasses(ct: CipherType, key: seq<byte>) returns (r: Result<seq<XtsMode>, CryptoError>)
    requires !IsSingle(ct)
    ensures r.Ok? <==> |key| == 2 * KeySize(ct)
    ensures r.Ok? ==> r.value == Passes(ct, key)
  {
    hide NameOrder, VeracryptOrder, ModeOf, KeySize, CipherCount, CombinedKey, Pass;
    var mode := ModeOf(ct);
    OrderIsNameReversed(ct);
    var half := ModeKeySize(mode);
    if |key| != half * 2 {
      return Err(InvalidKeySize(half * 2, |key|));
    }
    var order := VeracryptOrder(mode);
    var passes := [];
    for i := 0 to |order|
      invariant passes == FirstPasses(ct, key, i)
    {
      EntryIsPass(ct, key, i);
      var (pass, offset) := order[i];
      match NewXts(pass, CombinedKey(key[..half], key[half..], offset))
      case Err(e) => return Err(e);
      case Ok(xts) => passes := passes + [xts];
    }
    return Ok(passes);
  }

  /** Encrypts or decrypts `data[lo..hi]` in place, whatever its length, under one sector number. */
  method UserSector(s: Suite, c: SectorCipher, sector: nat, data: array<byte>, lo: nat, hi: nat, encrypt: bool)
    returns (r: Result<(), CryptoError>)
    requires lo <= hi <= data.Length && UserPasses(c) != []
    modifies data
    ensures r == ValidateDataLength(hi - lo)
    ensures r.Ok? ==>
      data[..] == Splice(old(data[..]), lo, Transformed(s, UserPasses(c), sector, old(data[lo..hi]), encrypt))
    ensures r.Err? ==> data[..] == old(data[..])
  {
    match c
    case SingleSectorXts(x) =>
      r := Crypt(s, x, sector, data, lo, hi, encrypt);
      if r.Ok? {
        OnePass(s, x, sector, old(data[lo..hi]));
      }
    case CascadeSectorCipher(passes) =>
      r := EachPass(s, passes, sector, data, lo, hi, encrypt);
  }

  /** Forward over the passes to encrypt, backward to decrypt. */
  method EachPass(s: Suite, passes: seq<XtsMode>, sector: nat, data: array<byte>, lo: nat, hi: nat, encrypt: bool)
    returns (r: Result<(), CryptoError>)
    requires lo <= hi <= data.Length && passes != []
    modifies data
    ensures r == ValidateDataLength(hi - lo)
    ensures r.Ok? ==> data[..] == Splice(old(data[..]), lo, Transformed(s, passes, sector, old(data[lo..hi]), encrypt))
    ensures r.Err? ==> data[..] == old(data[..])
  {
    hide SomePasses;
    ghost var start, input := data[..], data[lo..hi];
    SpliceSelf(start, lo, hi);
    if ValidateDataLength(hi - lo).Ok? {
      NoneAndAllPasses(s, passes, sector, input, encrypt);
    }
    var n := 0;
    while n < |passes|
      invariant n <= |passes|
      invariant ValidateDataLength(hi - lo).Ok? ==>
        data[..] == Splice(start, lo, SomePasses(s, passes, n, sector, input, encrypt))
      invariant ValidateDataLength(hi - lo).Err? ==> n == 0 && data[..] == start
    {
      var x := if encrypt then passes[n] else passes[|passes| - 1 - n];
      if ValidateDataLength(hi - lo).Ok? {
        PassInPlace(s, passes, n, sector, start, lo, hi, encrypt);
      }
      r := Crypt(s, x, sector, data, lo, hi, encrypt);
      if r.Err? {
        return;
      }
      n := n + 1;
    }
    r := Ok(());
  }

  lemma SpliceSelf(s: seq<byte>, lo: nat, hi: nat)
    requires lo <= hi <= |s|
    ensures Splice(s, lo, s[lo..hi]) == s
  {
  }

  /** The first `n` passes of an encryption, or the last `n` undone. */
  function SomePasses(s: Suite, passes: seq<XtsMode>, n: nat, sector: nat, data: seq<byte>,
                      encrypt: bool): (r: seq<byte>)
    requires Whole(data) && n <= |passes|
    ensures |r| == |data|
  {
    if encrypt then RunPasses(s, passes[..n], sector, data) else UndoPasses(s, passes[|passes| - n..], sector, data)
  }

  lemma NoneAndAllPasses(s: Suite, passes: seq<XtsMode>, sector: nat, data: seq<byte>, encrypt: bool)
    requires Whole(data)
    ensures SomePasses(s, passes, 0, sector, data, encrypt) == data
    ensures SomePasses(s, passes, |passes|, sector, data, encrypt) == Transformed(s, passes, sector, data, encrypt)
  {
    assert passes[..|passes|] == passes && passes[0..] == passes;
  }

  lemma MorePasses(s: Suite, passes: seq<XtsMode>, n: nat, sector: nat, data: seq<byte>, encrypt: bool)
    requires Whole(data) && n < |passes|
    ensures SomePasses(s, passes, n + 1, sector, data, encrypt)
         == Processed(s, if encrypt then passes[n] else passes[|passes| - 1 - n], sector,
                      SomePasses(s, passes, n, sector, data, encrypt), encrypt)
  {
    if encrypt {
      assert passes[..n + 1] == passes[..n] + [passes[n]];
      RunPassesConcat(s, passes[..n], [passes[n]], sector, data);
      OnePass(s, passes[n], sector, RunPasses(s, passes[..n], sector, data));
    } else {
      var m := |passes| - n;
      assert passes[m - 1..] == [passes[m - 1]] + passes[m..];
      UndoPassesConcat(s, [passes[m - 1]], passes[m..], sector, data);
      OnePass(s, passes[m - 1], sector, UndoPasses(s, passes[m..], sector, data));
    }
  }

  /** One turn of a pass loop, on the buffer that holds the bytes. */
  lemma PassInPlace(s: Suite, passes: seq<XtsMode>, n: nat, sector: nat, start: seq<byte>, lo: nat, hi: nat,
                    encrypt: bool)
    requires lo <= hi <= |start| && (hi - lo) % 16 == 0 && n < |passes|
    ensures var now := Splice(start, lo, SomePasses(s, passes, n, sector, start[lo..hi], encrypt));
            var x := if encrypt then passes[n] else passes[|passes| - 1 - n];
            Splice(now, lo, Processed(s, x, sector, now[lo..hi], encrypt))
            == Splice(start, lo, SomePasses(s, passes, n + 1, sector, start[lo..hi], encrypt))
  {
    var input := start[lo..hi];
    var some := SomePasses(s, passes, n, sector, input, encrypt);
    var more := SomePasses(s, passes, n + 1, sector, input, encrypt);
    MorePasses(s, passes, n, sector, input, encrypt);
    SpliceParts(start, lo, some);
    SpliceTwice(start, lo, some, more);
  }

  // ------------------------------------------------------------------ the header's loop

  /** Encrypts or decrypts `data[lo..hi]` in place as data unit 0, building each pass's key as
      it is needed. Wrong-length keys and lengths the mode cannot take change nothing. */
  method ApplyXts(s: Suite, ct: CipherType, key: seq<byte>, data: array<byte>, lo: nat, hi: nat, encrypt: bool)
    returns (r: Result<(), CryptoError>)
    requires lo <= hi <= data.Length
    modifies data
    ensures r.Ok? <==> |key| == 2 * KeySize(ct) && ValidateDataLength(hi - lo).Ok?
    ensures r.Ok? ==>
      data[..] == Splice(old(data[..]), lo, Transformed(s, Passes(ct, key), 0, old(data[lo..hi]), encrypt))
    ensures r.Err? ==> data[..] == old(data[..])
  {
    if |key| != 2 * KeySize(ct) {
      return Err(InvalidKeySize(2 * KeySize(ct), |key|));
    }
    if IsSingle(ct) {
      SinglePasses(ct, key);
      r := Crypt(s, NewXts(ct, key).value, 0, data, lo, hi, encrypt);
      if r.Ok? {
        OnePass(s, NewXts(ct, key).value, 0, old(data[lo..hi]));
      }
      return;
    }
    r := ApplyXtsCascade(s, ct, key, data, lo, hi, encrypt);
  }

  method ApplyXtsCascade(s: Suite, ct: CipherType, key: seq<byte>, data: array<byte>, lo: nat, hi: nat, encrypt: bool)
    returns (r: Result<(), CryptoError>)
    requires lo <= hi <= data.Length && !IsSingle(ct) && |key| == 2 * KeySize(ct)
    modifies data
    ensures r == ValidateDataLength(hi - lo)
    ensures r.Ok? ==>
      data[..] == Splice(old(data[..]), lo, Transformed(s, Passes(ct, key), 0, old(data[lo..hi]), encrypt))
    ensures r.Err? ==> data[..] == old(data[..])
  {
    hide NameOrder, VeracryptOrder, ModeOf, KeySize, CipherCount, CombinedKey, Pass, SomePasses;
    ghost var start, input := data[..], data[lo..hi];
    ghost var passes := Passes(ct, key);
    OrderIsNameReversed(ct);
    var half := ModeKeySize(ModeOf(ct));
    var order := VeracryptOrder(ModeOf(ct));
    SpliceSelf(start, lo, hi);
    if ValidateDataLength(hi - lo).Ok? {
      NoneAndAllPasses(s, passes, 0, input, encrypt);
    }
    var n := 0;
    while n < |order|
      invariant n <= |order| == |passes|
      invariant ValidateDataLength(hi - lo).Ok? ==>
        data[..] == Splice(start, lo, SomePasses(s, passes, n, 0, input, encrypt))
      invariant ValidateDataLength(hi - lo).Err? ==> n == 0 && data[..] == start
    {
      var i := if encrypt then n else |order| - 1 - n;
      EntryIsPass(ct, key, i);
      var (pass, offset) := order[i];
      var xts := NewXts(pass, CombinedKey(key[..half], key[half..], offset));
      assert xts.value == passes[i];
      if ValidateDataLength(hi - lo).Ok? {
        PassInPlace(s, passes, n, 0, start, lo, hi, encrypt);
      }
      r := Crypt(s, xts.value, 0, data, lo, hi, encrypt);
      if r.Err? {
        return;
      }
      n := n + 1;
    }
    r := Ok(());
  }

  /** A sector the kernel's cipher encrypts, the user-mode cipher of the same choice and key
      decrypts, and the other way round. */
  lemma KernelAndUserAgree(s: Suite, ct: CipherType, key: seq<byte>, k: KernelSectorCipher, c: SectorCipher,
                           sector: nat, data: seq<byte>)
    requires |key| == 2 * KeySize(ct) && PassesOf(k) == Passes(ct, key) && UserPasses(c) == Passes(ct, key)
    requires Whole(data)
    ensures TreeTransformed(s, k, sector, data, true) == Transformed(s, UserPasses(c), sector, data, true)
    ensures TreeTransformed(s, k, sector, Transformed(s, UserPasses(c), sector, data, true), false) == data
    ensures Transformed(s, UserPasses(c), sector, TreeTransformed(s, k, sector, data, true), false) == data
  {
    KernelRunsPasses(s, k, sector, data, true);
    KernelRunsPasses(s, k, sector, RunPasses(s, UserPasses(c), sector, data), false);
    UndoRun(s, UserPasses(c), sector, data);
  }
}
