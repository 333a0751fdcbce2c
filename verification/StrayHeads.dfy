/**
 Headers that nothing opens: however lawful ciphers and key derivations behave, some 512 bytes are
 refused by every attempt of a search, because each attempt lets only a few first blocks through.
 */
module StrayHeads {
  import opened Bytes
  import opened Ciphers
  import opened Tweak
  import opened Xts
  import opened Cascade
  import opened HeaderFormat
  import opened HeaderCrypto
  import opened VolumeOpen
  import opened HeaderSlots

  // ------------------------------------------------------------------ counting

  /** `n` numbers from `lo` on. */
  function Range(lo: nat, n: nat): (r: set<nat>)
    ensures |r| == n
    ensures forall m :: m in r <==> lo <= m < lo + n
  {
    if n == 0 then {} else Range(lo, n - 1) + {lo + n - 1}
  }

  lemma SubsetSize(a: set<nat>, b: set<nat>)
    requires a <= b
    ensures |a| <= |b|
  {
    assert b == a + (b - a);
  }

  /** Blocks by number, most significant byte first. */
  type BlockNumber = n: nat | n < 0x1_0000_0000_0000_0000_0000_0000_0000_0000

  lemma BlockCount()
    ensures Pow256(16) == 0x1_0000_0000_0000_0000_0000_0000_0000_0000
  {
    assert Pow256(4) == 0x1_0000_0000;
    assert Pow256(8) == 0x1_0000_0000_0000_0000;
    assert Pow256(12) == 0x1_0000_0000_0000_0000_0000_0000;
  }

  function BlockOf(n: BlockNumber): (b: Block)
    ensures BeValue(b) == n
  {
    BlockCount();
    BeRoundTrip(n, 16);
    BeBytes(n, 16)
  }

  function NumberOf(b: Block): (n: BlockNumber)
    ensures BlockOf(n) == b
  {
    BlockCount();
    BeBytesOfValue(b);
    BeValue(b)
  }

  function Sent(s: Suite, passes: seq<XtsMode>, n: BlockNumber): BlockNumber {
    NumberOf(RunPasses(s, passes, 0, BlockOf(n)))
  }

  function Back(s: Suite, passes: seq<XtsMode>, n: BlockNumber): BlockNumber {
    NumberOf(UndoPasses(s, passes, 0, BlockOf(n)))
  }

  lemma BackSent(s: Suite, passes: seq<XtsMode>, n: BlockNumber)
    ensures Back(s, passes, Sent(s, passes, n)) == n
  {
    UndoRun(s, passes, 0, BlockOf(n));
  }

  function Image(s: Suite, passes: seq<XtsMode>, a: set<BlockNumber>): set<nat> {
    set n <- a :: Sent(s, passes, n)
  }

  lemma {:induction false} ImageSize(s: Suite, passes: seq<XtsMode>, a: set<BlockNumber>)
    ensures |Image(s, passes, a)| == |a|
    decreases |a|
  {
    hide Sent, Back;
    if a != {} {
      var n :| n in a;
      var rest := a - {n};
      ImageSize(s, passes, rest);
      forall m | m in rest
        ensures Sent(s, passes, m) != Sent(s, passes, n)
      {
        BackSent(s, passes, m);
        BackSent(s, passes, n);
      }
      assert Image(s, passes, a) == Image(s, passes, rest) + {Sent(s, passes, n)};
    }
  }

  /** The numbers of the blocks that start with the magic. */
  predicate StartsWithMagic(n: BlockNumber) {
    0x5645_5241_0000_0000_0000_0000_0000_0000 <= n < 0x5645_5242_0000_0000_0000_0000_0000_0000
  }

  /** The blocks that a pass list decrypts to ones that start with the magic. */
  function LetThrough(s: Suite, passes: seq<XtsMode>): set<nat> {
    set n: BlockNumber | StartsWithMagic(Back(s, passes, n))
  }

  function AllBlocks(): (all: set<nat>)
    ensures |all| == 0x1_0000_0000_0000_0000_0000_0000_0000_0000
    ensures forall n :: n in all <==> 0 <= n < 0x1_0000_0000_0000_0000_0000_0000_0000_0000
  {
    Range(0, 0x1_0000_0000_0000_0000_0000_0000_0000_0000)
  }

  /** They are no more than the blocks that start with the magic, since encryption is injective. */
  lemma FewLetThrough(s: Suite, passes: seq<XtsMode>)
    ensures |LetThrough(s, passes)| <= 0x1_0000_0000_0000_0000_0000_0000
    ensures LetThrough(s, passes) <= AllBlocks()
  {
    hide Sent, Back, Range, AllBlocks;
    var magic := Range(0x5645_5241_0000_0000_0000_0000_0000_0000, 0x1_0000_0000_0000_0000_0000_0000);
    var others: set<BlockNumber> := set n: BlockNumber | n in AllBlocks() && n !in magic;
    assert AllBlocks() == others + magic;
    ImageSize(s, passes, others);
    forall n | n in others
      ensures Sent(s, passes, n) !in LetThrough(s, passes)
    {
      BackSent(s, passes, n);
    }
    var image := Image(s, passes, others);
    assert image !! LetThrough(s, passes);
    SubsetSize(image + LetThrough(s, passes), AllBlocks());
  }

  function AnyLetsThrough(s: Suite, lists: seq<seq<XtsMode>>): set<nat> {
    if lists == [] then {} else LetThrough(s, lists[0]) + AnyLetsThrough(s, lists[1..])
  }

  lemma {:induction false} FewInAll(s: Suite, lists: seq<seq<XtsMode>>)
    ensures |AnyLetsThrough(s, lists)| <= |lists| * 0x1_0000_0000_0000_0000_0000_0000
    ensures AnyLetsThrough(s, lists) <= AllBlocks()
    ensures forall i :: 0 <= i < |lists| ==> LetThrough(s, lists[i]) <= AnyLetsThrough(s, lists)
  {
    hide LetThrough, AllBlocks;
    if lists != [] {
      FewLetThrough(s, lists[0]);
      FewInAll(s, lists[1..]);
      assert forall i :: 0 < i < |lists| ==> lists[i] == lists[1..][i - 1];
    }
  }

  /** Fewer than 2^32 pass lists leave a block that none of them decrypts to one with the magic. */
  lemma StrayBlock(s: Suite, lists: seq<seq<XtsMode>>) returns (b: Block)
    requires |lists| < TWO_32
    ensures forall i :: 0 <= i < |lists| ==> !StartsWithMagic(NumberOf(UndoPasses(s, lists[i], 0, b)))
  {
    hide LetThrough, NumberOf, AllBlocks;
    FewInAll(s, lists);
    if AllBlocks() <= AnyLetsThrough(s, lists) {
      SubsetSize(AllBlocks(), AnyLetsThrough(s, lists));
      assert false;
    }
    var n :| n in AllBlocks() && n !in AnyLetsThrough(s, lists);
    b := BlockOf(n);
    forall i | 0 <= i < |lists|
      ensures !StartsWithMagic(NumberOf(UndoPasses(s, lists[i], 0, b)))
    {
      NotLetThrough(s, lists[i], n);
    }
  }

  lemma NotLetThrough(s: Suite, passes: seq<XtsMode>, n: BlockNumber)
    requires n !in LetThrough(s, passes)
    ensures !StartsWithMagic(NumberOf(UndoPasses(s, passes, 0, BlockOf(n))))
  {
  }

  // ------------------------------------------------------------------ headers

  lemma FirstBlockDecrypted(s: Suite, x: XtsMode, sector: nat, data: seq<byte>)
    requires Whole(data) && data != []
    ensures Xts.Decrypted(s, x, sector, data)[..16] == Xts.Decrypted(s, x, sector, data[..16])
  {
    var tweak := FirstTweak(s, x, sector);
    assert data[..16][16..] == [] && data[..16][..16] == data[..16];
    assert DecryptFrom(s, x, Double(tweak), []) == [];
  }

  lemma {:induction false} FirstBlockUndone(s: Suite, passes: seq<XtsMode>, sector: nat, data: seq<byte>)
    requires Whole(data) && data != []
    ensures UndoPasses(s, passes, sector, data)[..16] == UndoPasses(s, passes, sector, data[..16])
  {
    if passes != [] {
      FirstBlockUndone(s, passes[1..], sector, data);
      FirstBlockDecrypted(s, passes[0], sector, UndoPasses(s, passes[1..], sector, data));
    }
  }

  lemma OneMoreByte(b: Block, j: nat)
    requires j < 16
    ensures BeValue(b[..j + 1]) == 256 * BeValue(b[..j]) + b[j]
  {
    assert b[..j + 1][..j] == b[..j];
  }

  lemma MagicNumbers(b: Block)
    requires BeValue(b[..4]) == VOLUME_MAGIC
    ensures StartsWithMagic(NumberOf(b))
  {
    hide BeValue;
    OneMoreByte(b, 4);
    OneMoreByte(b, 5);
    OneMoreByte(b, 6);
    OneMoreByte(b, 7);
    OneMoreByte(b, 8);
    OneMoreByte(b, 9);
    OneMoreByte(b, 10);
    OneMoreByte(b, 11);
    OneMoreByte(b, 12);
    OneMoreByte(b, 13);
    OneMoreByte(b, 14);
    OneMoreByte(b, 15);
    assert b[..16] == b;
  }

  lemma WrongMagic(data: seq<byte>)
    requires |data| >= EFFECTIVE_SIZE && U32At(data[SALT_SIZE..EFFECTIVE_SIZE], 0) != VOLUME_MAGIC
    ensures Parse(data).Err?
  {
    hide U32At;
  }

  /** The pass lists that a search tries on a header with a given salt. */
  function KeyedLists(p: Primitives, password: seq<byte>, kdfs: seq<KdfCandidate>, salt: Salt): seq<seq<XtsMode>> {
    if kdfs == [] then [] else
      match Derive(p, kdfs[0], password, salt)
      case None => KeyedLists(p, password, kdfs[1..], salt)
      case Some(key) => ListsOf(key) + KeyedLists(p, password, kdfs[1..], salt)
  }

  function ListsOf(key: seq<byte>): (r: seq<seq<XtsMode>>)
    requires |key| == MAX_HEADER_KEY_SIZE
    ensures |r| == 15
  {
    seq(15, j requires 0 <= j < 15 => Passes(ALL_SUPPORTED[j], CipherKey(key, ALL_SUPPORTED[j])))
  }

  lemma {:induction false} ListCount(p: Primitives, password: seq<byte>, kdfs: seq<KdfCandidate>, salt: Salt)
    ensures |KeyedLists(p, password, kdfs, salt)| <= 15 * |kdfs|
  {
    hide ListsOf;
    if kdfs != [] {
      ListCount(p, password, kdfs[1..], salt);
    }
  }

  lemma {:induction false} ListIsTried(p: Primitives, password: seq<byte>, kdfs: seq<KdfCandidate>, salt: Salt,
                                       kdf: KdfCandidate, ct: CipherType)
    requires kdf in kdfs && Derive(p, kdf, password, salt).Some?
    ensures Passes(ct, CipherKey(Derive(p, kdf, password, salt).value, ct)) in KeyedLists(p, password, kdfs, salt)
  {
    hide Passes, CipherKey, Derive;
    if kdf == kdfs[0] {
      EveryCipherIsTried(ct);
      var j :| 0 <= j < |ALL_SUPPORTED| && ALL_SUPPORTED[j] == ct;
      var key := Derive(p, kdf, password, salt).value;
      assert ListsOf(key)[j] == Passes(ct, CipherKey(key, ct));
    } else {
      ListIsTried(p, password, kdfs[1..], salt, kdf, ct);
    }
  }

  function StrayHead(b: Block): (head: seq<byte>)
    ensures |head| == EFFECTIVE_SIZE && head[..SALT_SIZE] == Zeros(SALT_SIZE)
    ensures head[SALT_SIZE..][..16] == b
  {
    var head := Zeros(SALT_SIZE) + b + Zeros(ENCRYPTED_SIZE - 16);
    assert head[SALT_SIZE..][..16] == b;
    head
  }

  /** No attempt gets through a header that starts with a stray block. */
  lemma StrayFails(p: Primitives, password: seq<byte>, kdfs: seq<KdfCandidate>, b: Block, a: Attempt)
    requires a.head == StrayHead(b) && a.kdf in kdfs
    requires forall passes :: passes in KeyedLists(p, password, kdfs, Zeros(SALT_SIZE)) ==>
      !StartsWithMagic(NumberOf(UndoPasses(p.suite, passes, 0, b)))
    ensures Try(p, password, a).None?
  {
    hide Parse, Passes, StrayHead, KeyedLists, NumberOf, UndoPasses, CipherKey, U32At;
    var derived := Derive(p, a.kdf, password, Zeros(SALT_SIZE));
    if derived.Some? {
      var key := CipherKey(derived.value, a.cipher);
      ListIsTried(p, password, kdfs, Zeros(SALT_SIZE), a.kdf, a.cipher);
      var passes := Passes(a.cipher, key);
      var area := UndoPasses(p.suite, passes, 0, a.head[SALT_SIZE..]);
      FirstBlockUndone(p.suite, passes, 0, a.head[SALT_SIZE..]);
      var plain := Crypted(p.suite, a.cipher, key, a.head, false);
      assert plain[SALT_SIZE..EFFECTIVE_SIZE] == area;
      MagicOfArea(area);
      WrongMagic(plain);
    }
  }

  lemma MagicOfArea(area: seq<byte>)
    requires |area| == ENCRYPTED_SIZE && !StartsWithMagic(NumberOf(area[..16]))
    ensures U32At(area, 0) != VOLUME_MAGIC
  {
    hide NumberOf, BeValue;
    if BeValue(area[..16][..4]) == VOLUME_MAGIC {
      MagicNumbers(area[..16]);
      assert false;
    }
    assert area[0..4] == area[..16][..4];
  }

  lemma StrayNotFound(p: Primitives, password: seq<byte>, kdfs: seq<KdfCandidate>, b: Block, isBackup: bool)
    requires forall passes :: passes in KeyedLists(p, password, kdfs, Zeros(SALT_SIZE)) ==>
      !StartsWithMagic(NumberOf(UndoPasses(p.suite, passes, 0, b)))
    ensures Found(p, password, kdfs, StrayHead(b), isBackup).None?
  {
    hide Try, FirstSuccess, StrayHead, KeyedLists, UndoPasses, NumberOf;
    var attempts := SlotAttempts(StrayHead(b), isBackup, kdfs);
    var i := FirstSuccessIs(p, password, attempts);
    if i < |attempts| {
      OnlyTheseKdfs(StrayHead(b), isBackup, kdfs, attempts[i]);
      StrayFails(p, password, kdfs, b, attempts[i]);
    }
  }

  lemma {:induction false} OnlyTheseKdfs(head: seq<byte>, isBackup: bool, kdfs: seq<KdfCandidate>, a: Attempt)
    requires |head| == EFFECTIVE_SIZE && a in SlotAttempts(head, isBackup, kdfs)
    ensures a.head == head && a.kdf in kdfs
    decreases |kdfs|
  {
    var init, last := kdfs[..|kdfs| - 1], kdfs[|kdfs| - 1];
    if a in SlotAttempts(head, isBackup, init) {
      OnlyTheseKdfs(head, isBackup, init, a);
    } else {
      assert a in CipherAttempts(head, isBackup, last, ALL_SUPPORTED);
    }
  }

  /** Some header is refused under two passwords at once, wherever it stands, whatever the ciphers
      and derivations do: fewer than 2^28 derivations are too few to let every header through. */
  lemma SomeHeadIsRefused(p: Primitives, password: seq<byte>, kdfs: seq<KdfCandidate>, password2: seq<byte>,
                          kdfs2: seq<KdfCandidate>)
    returns (head: seq<byte>)
    requires |kdfs| + |kdfs2| < 0x1000_0000
    ensures |head| == EFFECTIVE_SIZE
    ensures forall isBackup ::
      Found(p, password, kdfs, head, isBackup).None? && Found(p, password2, kdfs2, head, isBackup).None?
  {
    hide KeyedLists, Found, NumberOf, UndoPasses, StrayHead;
    var salt := Zeros(SALT_SIZE);
    var first, second := KeyedLists(p, password, kdfs, salt), KeyedLists(p, password2, kdfs2, salt);
    ListCount(p, password, kdfs, salt);
    ListCount(p, password2, kdfs2, salt);
    var b := StrayBlock(p.suite, first + second);
    forall passes | passes in first || passes in second
      ensures !StartsWithMagic(NumberOf(UndoPasses(p.suite, passes, 0, b)))
    {
      assert passes in first + second;
    }
    head := StrayHead(b);
    forall isBackup: bool
      ensures Found(p, password, kdfs, head, isBackup).None? && Found(p, password2, kdfs2, head, isBackup).None?
    {
      StrayNotFound(p, password, kdfs, b, isBackup);
      StrayNotFound(p, password2, kdfs2, b, isBackup);
    }
  }
}
