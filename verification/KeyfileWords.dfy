/**
 What a pool can tell about the keyfiles it was made from: how many of the parts that count begin
 with each word, modulo 256, and nothing else. So the order of keyfiles matters exactly when it
 changes one of these numbers.
 */
module KeyfileWords {
  import opened Bytes
  import opened Keyfile

  type Word = w: seq<byte> | w != [] witness [0]

  /** How many files begin with a word. */
  function Begun(files: seq<seq<byte>>, w: Word): nat {
    if files == [] then 0 else Begun(files[..|files| - 1], w) + (if w <= files[|files| - 1] then 1 else 0)
  }

  // ------------------------------------------------------------------ pools as sums over words

  /** What the byte at the end of a word adds, the word being what the file holds up to it. */
  function Weight(next: Advance, w: Word, j: nat): nat {
    Added(Crc(next, w, |w|), |w| - 1, j)
  }

  /** The starts of a file, up to length `n`. */
  function Starts(file: seq<byte>, n: nat): seq<Word>
    requires n <= |file|
  {
    if n == 0 then [] else Starts(file, n - 1) + [file[..n]]
  }

  function AllStarts(files: seq<seq<byte>>): seq<Word> {
    if files == [] then []
    else AllStarts(files[..|files| - 1]) + Starts(files[|files| - 1], |files[|files| - 1]|)
  }

  function Sum(next: Advance, words: seq<Word>, j: nat): nat {
    if words == [] then 0 else Sum(next, words[..|words| - 1], j) + Weight(next, words[|words| - 1], j)
  }

  function Times(words: seq<Word>, w: Word): nat {
    if words == [] then 0 else Times(words[..|words| - 1], w) + (if words[|words| - 1] == w then 1 else 0)
  }

  lemma {:induction false} SumConcat(next: Advance, a: seq<Word>, b: seq<Word>, j: nat)
    ensures Sum(next, a + b, j) == Sum(next, a, j) + Sum(next, b, j)
    decreases |b|
  {
    hide Weight;
    if b == [] {
      assert a + b == a;
    } else {
      assert (a + b)[..|a + b| - 1] == a + b[..|b| - 1];
      SumConcat(next, a, b[..|b| - 1], j);
    }
  }

  lemma {:induction false} TimesConcat(a: seq<Word>, b: seq<Word>, w: Word)
    ensures Times(a + b, w) == Times(a, w) + Times(b, w)
    decreases |b|
  {
    if b == [] {
      assert a + b == a;
    } else {
      assert (a + b)[..|a + b| - 1] == a + b[..|b| - 1];
      TimesConcat(a, b[..|b| - 1], w);
    }
  }

  lemma {:induction false} CrcOfStart(next: Advance, file: seq<byte>, n: nat, m: nat)
    requires n <= m <= |file|
    ensures Crc(next, file[..m], n) == Crc(next, file, n)
    decreases n
  {
    if n > 0 {
      CrcOfStart(next, file, n - 1, m);
    }
  }

  lemma {:induction false} FileSumIsSum(next: Advance, file: seq<byte>, n: nat, j: nat)
    requires n <= |file|
    ensures FileSum(next, file, n, j) == Sum(next, Starts(file, n), j)
  {
    hide Added, Crc;
    if n > 0 {
      FileSumIsSum(next, file, n - 1, j);
      CrcOfStart(next, file, n, n);
      assert Starts(file, n)[..|Starts(file, n)| - 1] == Starts(file, n - 1);
    }
  }

  lemma {:induction false} FilesSumIsSum(next: Advance, files: seq<seq<byte>>, j: nat)
    ensures FilesSum(next, files, j) == Sum(next, AllStarts(files), j)
    decreases |files|
  {
    hide FileSum, Sum, Starts;
    if files == [] {
      NoSum(next, j);
    } else {
      var init, last := files[..|files| - 1], files[|files| - 1];
      FilesSumIsSum(next, init, j);
      FileSumIsSum(next, last, |last|, j);
      SumConcat(next, AllStarts(init), Starts(last, |last|), j);
    }
  }

  lemma NoSum(next: Advance, j: nat)
    ensures Sum(next, [], j) == 0
  {
  }

  lemma {:induction false} TimesOfStarts(file: seq<byte>, n: nat, w: Word)
    requires n <= |file|
    ensures Times(Starts(file, n), w) == if w <= file[..n] then 1 else 0
  {
    if n > 0 {
      TimesOfStarts(file, n - 1, w);
      var words := Starts(file, n);
      assert words[..|words| - 1] == Starts(file, n - 1) && words[|words| - 1] == file[..n];
      if |w| < n {
        assert w <= file[..n] <==> w <= file[..n - 1] by {
          assert file[..n][..|w|] == file[..n - 1][..|w|];
        }
      }
    }
  }

  lemma {:induction false} TimesIsBegun(files: seq<seq<byte>>, w: Word)
    ensures Times(AllStarts(files), w) == Begun(files, w)
    decreases |files|
  {
    hide Starts;
    if files != [] {
      var init, last := files[..|files| - 1], files[|files| - 1];
      TimesIsBegun(init, w);
      TimesOfStarts(last, |last|, w);
      assert last[..|last|] == last;
      TimesConcat(AllStarts(init), Starts(last, |last|), w);
    }
  }

  /** The words of a list other than one of them. */
  function Without(words: seq<Word>, w: Word): (r: seq<Word>)
    ensures |r| <= |words|
  {
    if words == [] then []
    else Without(words[..|words| - 1], w) + (if words[|words| - 1] == w then [] else [words[|words| - 1]])
  }

  lemma {:induction false} SumWithout(next: Advance, words: seq<Word>, w: Word, j: nat)
    ensures Sum(next, words, j) == Times(words, w) * Weight(next, w, j) + Sum(next, Without(words, w), j)
    ensures w in words ==> |Without(words, w)| < |words|
    decreases |words|
  {
    hide Weight;
    if words != [] {
      var init, last := words[..|words| - 1], words[|words| - 1];
      SumWithout(next, init, w, j);
      SumConcat(next, Without(init, w), [last], j);
      OneWord(next, last, j);
      if last == w {
        assert Without(words, w) == Without(init, w);
        OneMoreTime(Times(init, w), Weight(next, w, j));
      } else {
        assert words == init + [last];
      }
    }
  }

  lemma OneWord(next: Advance, w: Word, j: nat)
    ensures Sum(next, [w], j) == Weight(next, w, j)
  {
    hide Weight;
    assert [w][..0] == [];
  }

  lemma OneMoreTime(n: nat, x: nat)
    ensures (n + 1) * x == n * x + x
  {
  }

  lemma {:induction false} TimesWithout(words: seq<Word>, w: Word, v: Word)
    ensures Times(Without(words, w), v) == if v == w then 0 else Times(words, v)
    decreases |words|
  {
    if words != [] {
      var init, last := words[..|words| - 1], words[|words| - 1];
      TimesWithout(init, w, v);
      if last == w {
        assert Without(words, w) == Without(init, w);
      } else {
        TimesConcat(Without(init, w), [last], v);
        assert [last][..0] == [];
      }
    }
  }

  lemma SameRemainder(m: nat, n: nat, x: nat, s: nat, t: nat)
    requires m % 256 == n % 256 && s % 256 == t % 256
    ensures (m * x + s) % 256 == (n * x + t) % 256
  {
    var p, q, u, v := m / 256, n / 256, s / 256, t / 256;
    var r, z := m % 256 * x, s % 256;
    assert m * x == 256 * (p * x) + r by {
      assert m == 256 * p + m % 256;
    }
    assert n * x == 256 * (q * x) + r by {
      assert n == 256 * q + n % 256;
    }
    RemainderOf256(p * x + u, r + z);
    RemainderOf256(q * x + v, r + z);
  }

  lemma RemainderOf256(q: nat, r: nat)
    ensures (256 * q + r) % 256 == r % 256
  {
  }

  /** Sums over two lists agree when every word comes as often in one as in the other, modulo 256. */
  lemma {:induction false} SumsAgree(next: Advance, a: seq<Word>, b: seq<Word>, j: nat)
    requires forall v: Word :: Times(a, v) % 256 == Times(b, v) % 256
    ensures Sum(next, a, j) % 256 == Sum(next, b, j) % 256
    decreases |a| + |b|
  {
    hide Weight, Times, Sum, Without;
    if a != [] || b != [] {
      var w := if a != [] then a[0] else b[0];
      var restA, restB := Without(a, w), Without(b, w);
      SumWithout(next, a, w, j);
      SumWithout(next, b, w, j);
      forall v: Word
        ensures Times(restA, v) % 256 == Times(restB, v) % 256
      {
        TimesWithout(a, w, v);
        TimesWithout(b, w, v);
      }
      SumsAgree(next, restA, restB, j);
      SameRemainder(Times(a, w), Times(b, w), Weight(next, w, j), Sum(next, restA, j), Sum(next, restB, j));
    }
  }

  // ------------------------------------------------------------------ a checksum that follows a word

  /** A checksum that counts bytes in its upper half while they follow `w`, shows 1 in its lowest byte at
      the end of it, and then and otherwise shows nothing any more. */
  function Follow(w: Word, crc: u32, b: byte): u32
    requires |w| <= MAX_READ
  {
    if crc % 256 == 0 && crc / 256 < |w| && b == w[crc / 256] then
      256 * (crc / 256 + 1) + (if crc / 256 + 1 == |w| then 1 else 0)
    else 0x8000_0000
  }

  function Follower(w: Word): Advance
    requires |w| <= MAX_READ
  {
    (crc: u32, b: byte) => Follow(w, crc, b)
  }

  lemma {:induction false} Followed(w: Word, file: seq<byte>, n: nat)
    requires |w| <= MAX_READ && n <= |file|
    ensures Crc(Follower(w), file, n)
         == if n <= |w| && file[..n] == w[..n] then 256 * n + (if n == |w| then 1 else 0) else 0x8000_0000
  {
    if n > 0 {
      Followed(w, file, n - 1);
      assert file[..n] == file[..n - 1] + [file[n - 1]];
      if n <= |w| {
        assert w[..n] == w[..n - 1] + [w[n - 1]];
      }
    }
  }

  /** The place of the pool where the end of the word shows. */
  function PlaceOf(w: Word): (j: nat)
    ensures j < POOL_SIZE && j % 4 == 3
  {
    4 * ((|w| - 1) % 32) + 3
  }

  lemma LowestByteOnly(crc: u32, t: nat, w: Word)
    ensures Added(crc, t, PlaceOf(w)) == if t % 32 == (|w| - 1) % 32 then crc % 256 else 0
  {
    FourPlaces(t);
  }

  lemma {:induction false} ShownAtEnd(w: Word, file: seq<byte>, n: nat)
    requires |w| <= MAX_READ && n <= |file|
    ensures FileSum(Follower(w), file, n, PlaceOf(w)) == if w <= file[..n] then 1 else 0
  {
    hide Added, Crc, PlaceOf;
    if n > 0 {
      ShownAtEnd(w, file, n - 1);
      Followed(w, file, n);
      LowestByteOnly(Crc(Follower(w), file, n), n - 1, w);
      if |w| < n {
        assert file[..n][..|w|] == file[..n - 1][..|w|];
      } else if |w| == n {
        assert w[..n] == w;
      }
    }
  }

  lemma {:induction false} ShownAsOften(w: Word, files: seq<seq<byte>>)
    requires |w| <= MAX_READ
    ensures FilesSum(Follower(w), files, PlaceOf(w)) == Begun(files, w)
    decreases |files|
  {
    hide FileSum, PlaceOf, Follower;
    if files != [] {
      var last := files[|files| - 1];
      ShownAsOften(w, files[..|files| - 1]);
      ShownAtEnd(w, last, |last|);
      assert last[..|last|] == last;
    }
  }

  lemma {:induction false} NoneSoLong(files: seq<seq<byte>>, w: Word)
    requires forall f :: f in files ==> |f| < |w|
    ensures Begun(files, w) == 0
    decreases |files|
  {
    if files != [] {
      NoneSoLong(files[..|files| - 1], w);
    }
  }

  /** As many files begin with each word in one list as in the other, modulo 256. */
  ghost predicate AlikeBegun(a: seq<seq<byte>>, b: seq<seq<byte>>) {
    forall w: Word :: Begun(a, w) % 256 == Begun(b, w) % 256
  }

  /** No file is longer than what is read in all. */
  predicate Short(files: seq<seq<byte>>) {
    forall f :: f in files ==> |f| <= MAX_READ
  }

  /** Two lists of files give the same pool under every checksum exactly when as many of them begin with
      each word, modulo 256. */
  lemma PoolsAgreeIff(a: seq<seq<byte>>, b: seq<seq<byte>>)
    requires Short(a) && Short(b)
    ensures (forall next: Advance :: Pool(next, a) == Pool(next, b)) <==> AlikeBegun(a, b)
  {
    hide Pool, Begun;
    if AlikeBegun(a, b) {
      forall next: Advance
        ensures Pool(next, a) == Pool(next, b)
      {
        AlikeGivesPool(next, a, b);
      }
    } else {
      var w: Word :| Begun(a, w) % 256 != Begun(b, w) % 256;
      PoolTells(a, b, w);
    }
  }

  lemma AlikeGivesPool(next: Advance, a: seq<seq<byte>>, b: seq<seq<byte>>)
    requires AlikeBegun(a, b)
    ensures Pool(next, a) == Pool(next, b)
  {
    hide Pool, FilesSum, Sum, Begun, Times;
    forall v: Word
      ensures Times(AllStarts(a), v) % 256 == Times(AllStarts(b), v) % 256
    {
      TimesIsBegun(a, v);
      TimesIsBegun(b, v);
    }
    forall j | 0 <= j < POOL_SIZE
      ensures Pool(next, a)[j] == Pool(next, b)[j]
    {
      PoolAt(next, a, j);
      PoolAt(next, b, j);
      FilesSumIsSum(next, a, j);
      FilesSumIsSum(next, b, j);
      SumsAgree(next, AllStarts(a), AllStarts(b), j);
    }
  }

  lemma PoolTells(a: seq<seq<byte>>, b: seq<seq<byte>>, w: Word)
    requires Short(a) && Short(b) && Begun(a, w) % 256 != Begun(b, w) % 256
    ensures |w| <= MAX_READ && Pool(Follower(w), a) != Pool(Follower(w), b)
  {
    hide Pool, FilesSum, Begun, Follower, PlaceOf;
    if |w| > MAX_READ {
      NoneSoLong(a, w);
      NoneSoLong(b, w);
      assert false;
    }
    ShownAsOften(w, a);
    ShownAsOften(w, b);
    PoolAt(Follower(w), a, PlaceOf(w));
    PoolAt(Follower(w), b, PlaceOf(w));
  }

  // ------------------------------------------------------------------ the order of keyfiles

  /** The parts of readable files that count. */
  function Parts(files: seq<seq<byte>>): (r: seq<seq<byte>>)
    ensures Used(Readable(files), 0) == Ok(r)
    ensures Short(r)
  {
    UsedExactly(files, 0);
    var parts := Used(Readable(files), 0).value;
    PartsAreShort(parts);
    parts
  }

  lemma {:induction false} PartsAreShort(parts: seq<seq<byte>>)
    requires TotalLength(parts) <= MAX_READ
    ensures Short(parts)
    decreases |parts|
  {
    if parts != [] {
      PartsAreShort(parts[1..]);
      assert forall f :: f in parts ==> f == parts[0] || f in parts[1..];
    }
  }

  lemma MixedTells(password: seq<byte>, p: seq<byte>, q: seq<byte>)
    requires |password| >= POOL_SIZE == |p| == |q| && Mixed(password, p) == Mixed(password, q)
    ensures p == q
  {
    forall i | 0 <= i < POOL_SIZE
      ensures p[i] == q[i]
    {
      assert Mixed(password, p)[i] == AddBytes(password[i], p[i]);
      assert Mixed(password, q)[i] == AddBytes(password[i], q[i]);
    }
  }

  lemma AppliedIs(next: Advance, password: seq<byte>, files: seq<seq<byte>>)
    requires files != []
    ensures Applied(next, password, Readable(files)) == Ok(Mixed(Padded(password), Pool(next, Parts(files))))
  {
    hide Pool, Mixed, Padded, Used, Parts;
  }

  /** Two lists of keyfiles give the same result, for all checksums and passwords, exactly when as many of
      the parts that count begin with each word, modulo 256. */
  lemma SameResultIff(a: seq<seq<byte>>, b: seq<seq<byte>>)
    requires a != [] && b != []
    ensures SameResults(a, b) <==> AlikeBegun(Parts(a), Parts(b))
  {
    hide Pool, Mixed, Padded, Applied, Parts, AlikeBegun;
    PoolsAgreeIff(Parts(a), Parts(b));
    if AlikeBegun(Parts(a), Parts(b)) {
      forall next: Advance, password
        ensures Applied(next, password, Readable(a)) == Applied(next, password, Readable(b))
      {
        AppliedIs(next, password, a);
        AppliedIs(next, password, b);
      }
    } else {
      var next: Advance :| Pool(next, Parts(a)) != Pool(next, Parts(b));
      AppliedIs(next, [], a);
      AppliedIs(next, [], b);
      if Applied(next, [], Readable(a)) == Applied(next, [], Readable(b)) {
        MixedTells(Padded([]), Pool(next, Parts(a)), Pool(next, Parts(b)));
        assert false;
      }
    }
  }

  /** Keyfiles of any sizes can be given in any order exactly when no order changes, modulo 256, how many of
      the parts that count begin with some word. */
  lemma OrderFreeExactly(files: seq<seq<byte>>)
    ensures OrderFree(files)
       <==> forall order :: multiset(order) == multiset(files) ==> AlikeBegun(Parts(order), Parts(files))
  {
    hide Applied, Parts, AlikeBegun, SameResults;
    forall order | multiset(order) == multiset(files)
      ensures SameResults(order, files) <==> AlikeBegun(Parts(order), Parts(files))
    {
      SameCount(order, files);
      if files == [] {
        assert order == files;
        AlikeItself(files);
      } else {
        SameResultIff(order, files);
      }
    }
  }

  lemma AlikeItself(files: seq<seq<byte>>)
    ensures AlikeBegun(Parts(files), Parts(files)) && SameResults(files, files)
  {
    hide Applied, Parts;
  }

  // ------------------------------------------------------------------ two keyfiles

  /** As much of one file as is read at all. */
  function Cut(file: seq<byte>): seq<byte> {
    file[..Min(|file|, MAX_READ)]
  }

  lemma PairParts(a: seq<byte>, b: seq<byte>)
    requires a != [] && b != []
    ensures |a| < MAX_READ ==> Parts([a, b]) == [a, b[..Min(|b|, MAX_READ - |a|)]]
    ensures |a| >= MAX_READ ==> Parts([a, b]) == [Cut(a)]
  {
    hide Parts, Readable;
    var n := Min(|a|, MAX_READ);
    assert [a, b][1..] == [b] && [b][1..] == [];
    FirstMayCount([a, b], 0);
    FirstMayCount([b], n);
    NothingCounts(Min(n + |b|, MAX_READ));
    assert a[..|a|] == a;
    if |a| < MAX_READ {
      assert [b[..Min(|b|, MAX_READ - |a|)]] + [] == [b[..Min(|b|, MAX_READ - |a|)]];
      assert [a] + [b[..Min(|b|, MAX_READ - |a|)]] == [a, b[..Min(|b|, MAX_READ - |a|)]];
    } else {
      assert [a[..n]] + [] == [a[..n]];
    }
  }

  lemma NothingCounts(total: nat)
    requires total <= MAX_READ
    ensures Used(Readable([]), total) == Ok([])
  {
  }

  lemma BegunInPair(x: seq<byte>, y: seq<byte>, w: Word)
    ensures Begun([x], w) == if w <= x then 1 else 0
    ensures Begun([x, y], w) == (if w <= x then 1 else 0) + (if w <= y then 1 else 0)
  {
    assert [x][..0] == [] && [x, y][..1] == [x];
  }

  /** Of two files that do not both fit, the longer counts whole only if it comes first. */
  lemma LongerFirst(a: seq<byte>, b: seq<byte>)
    requires a != [] && b != [] && |a| + |b| > MAX_READ && Cut(a) != Cut(b) && |Cut(b)| <= |Cut(a)|
    ensures !AlikeBegun(Parts([a, b]), Parts([b, a]))
  {
    hide Parts, Begun;
    var w: Word := Cut(a);
    PairParts(a, b);
    PairParts(b, a);
    if |a| < MAX_READ {
      BegunInPair(a, b[..Min(|b|, MAX_READ - |a|)], w);
    } else {
      BegunInPair(w, [], w);
    }
    if |b| < MAX_READ {
      BegunInPair(b, a[..Min(|a|, MAX_READ - |b|)], w);
    } else {
      BegunInPair(Cut(b), [], w);
    }
    assert Begun(Parts([a, b]), w) == 1 && Begun(Parts([b, a]), w) == 0;
  }

  lemma PairOrders(a: seq<byte>, b: seq<byte>, order: seq<seq<byte>>)
    requires multiset(order) == multiset([a, b])
    ensures order == [a, b] || order == [b, a]
  {
    SameCount(order, [a, b]);
    assert order[0] in multiset(order) && order[1] in multiset(order);
    assert order[0] in [a, b] && order[1] in [a, b];
    assert order == [order[0], order[1]];
    if order[0] == order[1] {
      assert multiset([a, b])[order[0]] == 2;
    }
  }

  lemma Swapped(a: seq<byte>, b: seq<byte>)
    ensures multiset([b, a]) == multiset([a, b])
  {
  }

  /** Two keyfiles of any sizes can change places exactly when as much of them as is ever read is the same,
      or both count whole together. */
  lemma PairOrderFreeIff(a: seq<byte>, b: seq<byte>)
    ensures OrderFree([a, b])
       <==> Cut(a) == Cut(b) || (a != [] && b != [] && |a| + |b| <= MAX_READ)
  {
    hide SameResults, Parts, Cut, AlikeBegun;
    Swapped(a, b);
    AlikeItself([a, b]);
    SameResultIff([b, a], [a, b]);
    if SameResults([b, a], [a, b]) {
      forall order | multiset(order) == multiset([a, b])
        ensures SameResults(order, [a, b])
      {
        PairOrders(a, b, order);
      }
    }
    SwapIsFree(a, b);
  }

  lemma AlikeBothWays(a: seq<seq<byte>>, b: seq<seq<byte>>)
    ensures AlikeBegun(a, b) <==> AlikeBegun(b, a)
  {
    hide Begun;
  }

  lemma SwapIsFree(a: seq<byte>, b: seq<byte>)
    ensures AlikeBegun(Parts([b, a]), Parts([a, b]))
       <==> Cut(a) == Cut(b) || (a != [] && b != [] && |a| + |b| <= MAX_READ)
  {
    hide Parts, AlikeBegun, Cut;
    AlikeBothWays(Parts([a, b]), Parts([b, a]));
    if Cut(a) == Cut(b) {
      SameCuts(a, b);
    } else if a == [] || b == [] {
      EmptyInPair(a, b);
    } else if |a| + |b| <= MAX_READ {
      BothFit(a, b);
    } else if |Cut(b)| <= |Cut(a)| {
      LongerFirst(a, b);
    } else {
      LongerFirst(b, a);
    }
  }

  lemma SameCuts(a: seq<byte>, b: seq<byte>)
    requires Cut(a) == Cut(b)
    ensures AlikeBegun(Parts([b, a]), Parts([a, b]))
  {
    hide Parts, AlikeBegun;
    if |a| < MAX_READ {
      assert a == b;
      AlikeItself([a, a]);
    } else {
      assert |Cut(a)| == MAX_READ && |b| >= MAX_READ;
      PairParts(a, b);
      PairParts(b, a);
      AlikeItself([a, b]);
    }
  }

  lemma BothFit(a: seq<byte>, b: seq<byte>)
    requires a != [] && b != [] && |a| + |b| <= MAX_READ
    ensures AlikeBegun(Parts([b, a]), Parts([a, b]))
  {
    hide Parts, Begun;
    PairParts(a, b);
    PairParts(b, a);
    assert a[..|a|] == a && b[..|b|] == b;
    forall w: Word
      ensures Begun([b, a], w) == Begun([a, b], w)
    {
      BegunInPair(a, b, w);
      BegunInPair(b, a, w);
    }
  }

  lemma EmptyInPair(a: seq<byte>, b: seq<byte>)
    requires a != b && (a == [] || b == [])
    ensures !AlikeBegun(Parts([b, a]), Parts([a, b]))
  {
    hide Parts, Begun;
    var file := if a == [] then b else a;
    var w: Word := Cut(file);
    EmptyFirst([file]);
    EmptySecond(file, []);
    assert [[]] + [file] == [[], file] && [file, []] + [] == [file, []];
    BegunInPair(w, [], w);
    NoneBegun(w);
    assert Begun(Parts([[], file]), w) == 0 && Begun(Parts([file, []]), w) == 1;
  }

  lemma NoneBegun(w: Word)
    ensures Begun([], w) == 0
  {
  }
}
