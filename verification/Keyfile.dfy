/**
 Keyfiles: every byte of every keyfile advances a checksum whose four bytes are added into a
 128-byte pool, and the pool is added to the password.
 */
module Keyfile {
  import opened Bytes

  const POOL_SIZE := 128
  const MAX_READ := 1_048_576

  /** The checksum library's step from one value, given back as the next start, through one byte. */
  type Advance = (u32, byte) -> u32

  datatype ReadFailure = ReadFailure

  // ------------------------------------------------------------------ what the pool is

  /** The checksum after the first `n` bytes of a file. */
  function Crc(next: Advance, file: seq<byte>, n: nat): u32
    requires n <= |file|
  {
    if n == 0 then 0 else next(Crc(next, file, n - 1), file[n - 1])
  }

  /** Byte `k` of a checksum, most significant first. */
  function CrcByte(crc: u32, k: nat): byte
    requires k < 4
  {
    if k == 0 then crc / 0x100_0000
    else if k == 1 then crc / 0x1_0000 % 256
    else if k == 2 then crc / 256 % 256
    else crc % 256
  }

  /** What byte `t` of a file, its checksum being `crc`, adds to place `j` of the pool. */
  function Added(crc: u32, t: nat, j: nat): nat {
    (if 4 * t % 128 == j then CrcByte(crc, 0) else 0) + (if (4 * t + 1) % 128 == j then CrcByte(crc, 1) else 0)
    + (if (4 * t + 2) % 128 == j then CrcByte(crc, 2) else 0) + (if (4 * t + 3) % 128 == j then CrcByte(crc, 3) else 0)
  }

  /** What the first `n` bytes of a file add. */
  function FileSum(next: Advance, file: seq<byte>, n: nat, j: nat): nat
    requires n <= |file|
  {
    if n == 0 then 0 else FileSum(next, file, n - 1, j) + Added(Crc(next, file, n), n - 1, j)
  }

  /** What a list of files adds. */
  function FilesSum(next: Advance, files: seq<seq<byte>>, j: nat): nat {
    if files == [] then 0
    else FilesSum(next, files[..|files| - 1], j) + FileSum(next, files[|files| - 1], |files[|files| - 1]|, j)
  }

  function Pool(next: Advance, files: seq<seq<byte>>): (pool: seq<byte>)
    ensures |pool| == POOL_SIZE
  {
    seq(POOL_SIZE, j requires 0 <= j < POOL_SIZE => FilesSum(next, files, j) % 256)
  }

  /** The parts of the files that count: at most 1 MiB in all, and nothing from the first file
      that has nothing left to give. A file that cannot be read is an error, if it is reached. */
  function Used(files: seq<Option<seq<byte>>>, total: nat): (r: Result<seq<seq<byte>>, ReadFailure>)
    requires total <= MAX_READ
    ensures r.Err? ==> r.error == ReadFailure
    decreases |files|
  {
    if files == [] then Ok([]) else
      match files[0]
      case None => Err(ReadFailure)
      case Some(data) =>
        var n := Min(|data|, MAX_READ - total);
        if n == 0 then Ok([])
        else
          match Used(files[1..], total + n)
          case Err(e) => Err(e)
          case Ok(rest) => Ok([data[..n]] + rest)
  }

  function Padded(password: seq<byte>): (r: seq<byte>)
    ensures |r| >= POOL_SIZE
  {
    if |password| < POOL_SIZE then password + Zeros(POOL_SIZE - |password|) else password
  }

  /** `wrapping_add` on bytes. */
  function AddBytes(a: byte, b: byte): byte {
    (a as int + b as int) % 256
  }

  /** The pool added to the first 128 bytes. */
  function Mixed(password: seq<byte>, pool: seq<byte>): (r: seq<byte>)
    requires |password| >= POOL_SIZE == |pool|
    ensures |r| == |password|
  {
    seq(|password|, i requires 0 <= i < |password| =>
      if i < POOL_SIZE then AddBytes(password[i], pool[i]) else password[i])
  }

  /** What applying keyfiles yields; without keyfiles the password is not even padded. */
  function Applied(next: Advance, password: seq<byte>, files: seq<Option<seq<byte>>>): Result<seq<byte>, ReadFailure> {
    if files == [] then Ok(password) else
      match Used(files, 0)
      case Err(e) => Err(e)
      case Ok(used) => Ok(Mixed(Padded(password), Pool(next, used)))
  }

  // ------------------------------------------------------------------ the loops

  lemma AddTwice(a: nat, b: nat, c: nat)
    ensures ((a + b) % 256 + c) % 256 == (a + (b + c)) % 256
  {
  }

  /** Adds one byte of a checksum at the moving place. */
  method AddByte(pool: array<byte>, i: nat, b: byte)
    requires pool.Length == POOL_SIZE
    modifies pool
    ensures forall j :: 0 <= j < POOL_SIZE ==>
      pool[j] == if j == i % 128 then AddBytes(old(pool[j]), b) else old(pool[j])
  {
    pool[i % POOL_SIZE] := AddBytes(pool[i % POOL_SIZE], b);
  }

  /** Four places in a row never wrap apart, since 4 divides the size of the pool. */
  lemma FourPlaces(t: nat)
    ensures var m := 4 * (t % 32);
            4 * t % 128 == m && (4 * t + 1) % 128 == m + 1 && (4 * t + 2) % 128 == m + 2 && (4 * t + 3) % 128 == m + 3
  {
    var q, m := t / 32, 4 * (t % 32);
    assert 4 * t == 128 * q + m && m + 3 < 128;
    RemainderOf128(q, m);
    RemainderOf128(q, m + 1);
    RemainderOf128(q, m + 2);
    RemainderOf128(q, m + 3);
  }

  lemma RemainderOf128(q: nat, r: nat)
    requires r < 128
    ensures (128 * q + r) % 128 == r
  {
  }

  /** Adds the four bytes of a checksum at the moving place `i == 4 * t`. */
  method AddCrc(pool: array<byte>, crc: u32, ghost t: nat, i: nat) returns (next: nat)
    requires pool.Length == POOL_SIZE && i == 4 * t
    modifies pool
    ensures forall j :: 0 <= j < POOL_SIZE ==> pool[j] == (old(pool[j]) + Added(crc, t, j)) % 256
    ensures next == i + 4
  {
    hide CrcByte;
    FourPlaces(t);
    next := i;
    AddByte(pool, next, CrcByte(crc, 0));
    next := next + 1;
    AddByte(pool, next, CrcByte(crc, 1));
    next := next + 1;
    AddByte(pool, next, CrcByte(crc, 2));
    next := next + 1;
    AddByte(pool, next, CrcByte(crc, 3));
    next := next + 1;
  }

  /** One file into the pool. */
  method MixFile(next: Advance, pool: array<byte>, file: seq<byte>)
    requires pool.Length == POOL_SIZE
    modifies pool
    ensures forall j :: 0 <= j < POOL_SIZE ==> pool[j] == (old(pool[j]) + FileSum(next, file, |file|, j)) % 256
  {
    hide Added;
    var crc: u32 := 0;
    var i := 0;
    for t := 0 to |file|
      invariant i == 4 * t && crc == Crc(next, file, t)
      invariant forall j :: 0 <= j < POOL_SIZE ==> pool[j] == (old(pool[j]) + FileSum(next, file, t, j)) % 256
    {
      crc := next(crc, file[t]);
      ghost var before := pool[..];
      i := AddCrc(pool, crc, t, i);
      forall j | 0 <= j < POOL_SIZE
        ensures pool[j] == (old(pool[j]) + FileSum(next, file, t + 1, j)) % 256
      {
        AddTwice(old(pool[j]), FileSum(next, file, t, j), Added(crc, t, j));
      }
    }
  }

  /** The pool after the files that count, or the error. */
  method FillPool(next: Advance, files: seq<Option<seq<byte>>>, pool: array<byte>) returns (r: Result<(), ReadFailure>)
    requires pool.Length == POOL_SIZE && pool[..] == Zeros(POOL_SIZE)
    modifies pool
    ensures r.Ok? <==> Used(files, 0).Ok?
    ensures r.Err? ==> r.error == ReadFailure
    ensures r.Ok? ==> pool[..] == Pool(next, Used(files, 0).value)
  {
    hide FileSum;
    var total := 0;
    ghost var used: seq<seq<byte>> := [];
    assert pool[..] == Pool(next, []);
    PrependedNothing(Used(files, 0));
    assert files[0..] == files;
    for k := 0 to |files|
      invariant total <= MAX_READ
      invariant pool[..] == Pool(next, used)
      invariant Used(files, 0) == Prepended(used, Used(files[k..], total))
    {
      if files[k].None? {
        return Err(ReadFailure);
      }
      var data := files[k].value;
      var n := Min(|data|, MAX_READ - total);
      if n == 0 {
        break;
      }
      ghost var before := pool[..];
      MixFile(next, pool, data[..n]);
      PoolGrows(next, used, data[..n], before, pool[..]);
      assert files[k..][1..] == files[k + 1..];
      PrependedTwice(used, data[..n], Used(files[k + 1..], total + n));
      used := used + [data[..n]];
      total := total + n;
    }
    assert Used(files, 0) == Prepended(used, Ok([]));
    assert used + [] == used;
    return Ok(());
  }

  function Prepended(a: seq<seq<byte>>, r: Result<seq<seq<byte>>, ReadFailure>): Result<seq<seq<byte>>, ReadFailure> {
    match r
    case Err(e) => Err(e)
    case Ok(b) => Ok(a + b)
  }

  lemma PrependedNothing(r: Result<seq<seq<byte>>, ReadFailure>)
    ensures Prepended([], r) == r
  {
    if r.Ok? {
      assert [] + r.value == r.value;
    }
  }

  lemma PrependedTwice(a: seq<seq<byte>>, x: seq<byte>, r: Result<seq<seq<byte>>, ReadFailure>)
    ensures Prepended(a, Prepended([x], r)) == Prepended(a + [x], r)
  {
    if r.Ok? {
      assert a + ([x] + r.value) == a + [x] + r.value;
    }
  }

  lemma PoolGrows(next: Advance, used: seq<seq<byte>>, file: seq<byte>, before: seq<byte>, after: seq<byte>)
    requires before == Pool(next, used) && |after| == POOL_SIZE
    requires forall j :: 0 <= j < POOL_SIZE ==> after[j] == (before[j] + FileSum(next, file, |file|, j)) % 256
    ensures after == Pool(next, used + [file])
  {
    hide FilesSum, FileSum, Pool;
    forall j | 0 <= j < POOL_SIZE
      ensures after[j] == Pool(next, used + [file])[j]
    {
      PoolAt(next, used, j);
      PoolAt(next, used + [file], j);
      OneMoreFile(next, used, file, j);
      AddTwice(0, FilesSum(next, used, j), FileSum(next, file, |file|, j));
    }
  }

  lemma PoolAt(next: Advance, files: seq<seq<byte>>, j: nat)
    requires j < POOL_SIZE
    ensures Pool(next, files)[j] == FilesSum(next, files, j) % 256
  {
  }

  lemma OneMoreFile(next: Advance, used: seq<seq<byte>>, file: seq<byte>, j: nat)
    ensures FilesSum(next, used + [file], j) == FilesSum(next, used, j) + FileSum(next, file, |file|, j)
  {
    assert (used + [file])[..|used|] == used;
  }

  /** `apply_keyfiles`; a failed read leaves the password as it was. */
  method ApplyKeyfiles(next: Advance, password: seq<byte>, files: seq<Option<seq<byte>>>)
    returns (r: Result<seq<byte>, ReadFailure>)
    ensures r == Applied(next, password, files)
  {
    hide Pool;
    if files == [] {
      return Ok(password);
    }
    var pool := new byte[POOL_SIZE](_ => 0);
    assert pool[..] == Zeros(POOL_SIZE);
    var filled := FillPool(next, files, pool);
    if filled.Err? {
      return Err(filled.error);
    }
    var mixed := Padded(password);
    ghost var padded, final := mixed, pool[..];
    for i := 0 to POOL_SIZE
      invariant |mixed| == |padded|
      invariant forall k :: 0 <= k < |padded| ==> mixed[k] == if k < i then AddBytes(padded[k], final[k]) else padded[k]
    {
      mixed := mixed[i := AddBytes(mixed[i], pool[i])];
    }
    assert mixed == Mixed(padded, final);
    return Ok(mixed);
  }

  // ------------------------------------------------------------------ what mixing does

  /** Taking the pool off again gives the padded password back, and bytes past the first 128 are
      not touched. */
  lemma MixingUndone(password: seq<byte>, pool: seq<byte>, i: nat)
    requires |pool| == POOL_SIZE && i < |Padded(password)|
    ensures |Mixed(Padded(password), pool)| == Max(|password|, POOL_SIZE)
    ensures i < POOL_SIZE ==>
      (Mixed(Padded(password), pool)[i] as int - pool[i] as int) % 256 == if i < |password| then password[i] else 0
    ensures i >= POOL_SIZE ==> i < |password| && Mixed(Padded(password), pool)[i] == password[i]
  {
  }

  /** Which places of the pool a byte of a file reaches, and with which bits of the checksum: the four from
      `4 * t` on, counted modulo 128, most significant byte first. */
  lemma AddedWhere(crc: u32, t: nat, j: nat)
    requires j < 128
    ensures Added(crc, t, j)
         == if t % 32 != j / 4 then 0
            else if j % 4 == 0 then crc / 0x100_0000
            else if j % 4 == 1 then crc / 0x1_0000 % 0x100
            else if j % 4 == 2 then crc / 0x100 % 0x100
            else crc % 0x100
  {
    FourPlaces(t);
    var m := t % 32;
    assert j == 4 * (j / 4) + j % 4;
  }

  lemma {:induction false} CrcIs(next: Advance, file: seq<byte>, crcs: seq<u32>, n: nat)
    requires n <= |file| && |crcs| == |file| + 1 && crcs[0] == 0
    requires forall t :: 0 <= t < |file| ==> crcs[t + 1] == next(crcs[t], file[t])
    ensures Crc(next, file, n) == crcs[n]
  {
    if n > 0 {
      CrcIs(next, file, crcs, n - 1);
    }
  }

  lemma {:induction false} ShortFileSum(next: Advance, file: seq<byte>, n: nat, j: nat)
    requires n <= |file| <= 32 && j < 128
    ensures FileSum(next, file, n, j) == if j / 4 < n then Added(Crc(next, file, j / 4 + 1), j / 4, j) else 0
  {
    hide Added, Crc;
    if n > 0 {
      ShortFileSum(next, file, n - 1, j);
      AddedWhere(Crc(next, file, n), n - 1, j);
    }
  }

  /** The pool of one file of at most 32 bytes, written out: the checksum after each byte, most significant
      byte first, one after another, and zeros after them. */
  lemma ShortPool(next: Advance, file: seq<byte>, crcs: seq<u32>, t: nat)
    requires |file| <= 32 && |crcs| == |file| + 1 && crcs[0] == 0 && t < 32
    requires forall i :: 0 <= i < |file| ==> crcs[i + 1] == next(crcs[i], file[i])
    ensures Pool(next, [file])[4 * t..4 * t + 4]
         == if t >= |file| then [0, 0, 0, 0]
            else [crcs[t + 1] / 0x100_0000, crcs[t + 1] / 0x1_0000 % 0x100, crcs[t + 1] / 0x100 % 0x100,
                  crcs[t + 1] % 0x100]
  {
    hide FileSum, Added, Crc, Pool;
    PoolOfShort(next, file, t, 0);
    PoolOfShort(next, file, t, 1);
    PoolOfShort(next, file, t, 2);
    PoolOfShort(next, file, t, 3);
    if t < |file| {
      CrcIs(next, file, crcs, t + 1);
    }
  }

  lemma PoolOfShort(next: Advance, file: seq<byte>, t: nat, k: nat)
    requires |file| <= 32 && t < 32 && k < 4
    ensures Pool(next, [file])[4 * t + k]
         == if t >= |file| then 0
            else if k == 0 then Crc(next, file, t + 1) / 0x100_0000
            else if k == 1 then Crc(next, file, t + 1) / 0x1_0000 % 0x100
            else if k == 2 then Crc(next, file, t + 1) / 0x100 % 0x100
            else Crc(next, file, t + 1) % 0x100
  {
    hide FileSum, Added, Crc, Pool;
    var j := 4 * t + k;
    assert j / 4 == t && j % 4 == k;
    PoolAt(next, [file], j);
    OneMoreFile(next, [], file, j);
    assert [] + [file] == [file];
    ShortFileSum(next, file, |file|, j);
    if t < |file| {
      AddedWhere(Crc(next, file, t + 1), t, j);
    }
  }

  /** The readable contents of keyfiles. */
  function Readable(files: seq<seq<byte>>): (r: seq<Option<seq<byte>>>)
    ensures |r| == |files|
  {
    seq(|files|, i requires 0 <= i < |files| => Some(files[i]))
  }

  function TotalLength(files: seq<seq<byte>>): nat {
    if files == [] then 0 else |files[0]| + TotalLength(files[1..])
  }

  lemma FirstMayCount(files: seq<seq<byte>>, total: nat)
    requires files != [] && total <= MAX_READ
    ensures var n := Min(|files[0]|, MAX_READ - total);
            Used(Readable(files), total)
            == if n == 0 then Ok([]) else Prepended([files[0][..n]], Used(Readable(files[1..]), total + n))
  {
    assert Readable(files)[1..] == Readable(files[1..]);
  }

  lemma {:induction false} AllUsed(files: seq<seq<byte>>, total: nat)
    requires total + TotalLength(files) <= MAX_READ && forall f :: f in files ==> f != []
    ensures Used(Readable(files), total) == Ok(files)
    decreases |files|
  {
    if files != [] {
      hide Used, Readable;
      assert files[0] in files && forall f :: f in files[1..] ==> f in files;
      FirstMayCount(files, total);
      assert files[0][..|files[0]|] == files[0];
      AllUsed(files[1..], total + |files[0]|);
      assert files == [files[0]] + files[1..];
    }
  }

  lemma {:induction false} SumOfConcat(next: Advance, a: seq<seq<byte>>, b: seq<seq<byte>>, j: nat)
    ensures FilesSum(next, a + b, j) == FilesSum(next, a, j) + FilesSum(next, b, j)
    decreases |b|
  {
    hide FileSum;
    if b == [] {
      assert a + b == a;
    } else {
      assert (a + b)[..|a + b| - 1] == a + b[..|b| - 1];
      SumOfConcat(next, a, b[..|b| - 1], j);
    }
  }

  /** A list without one occurrence of an element. */
  lemma TakeOut<T>(s: seq<T>, x: T) returns (i: nat, rest: seq<T>)
    requires x in s
    ensures i < |s| && s == s[..i] + [x] + s[i + 1..] && rest == s[..i] + s[i + 1..]
    ensures multiset(rest) == multiset(s) - multiset{x} && multiset(s) == multiset(rest) + multiset{x}
  {
    i :| 0 <= i < |s| && s[i] == x;
    rest := s[..i] + s[i + 1..];
    assert s == s[..i] + [x] + s[i + 1..];
  }

  lemma {:induction false} SumIgnoresOrder(next: Advance, a: seq<seq<byte>>, b: seq<seq<byte>>, j: nat)
    requires multiset(a) == multiset(b)
    ensures FilesSum(next, a, j) == FilesSum(next, b, j)
    decreases |a|
  {
    hide FileSum;
    if a == [] {
      EmptyByCount(b);
    } else {
      var x, rest := a[0], a[1..];
      assert a == [x] + rest;
      assert x in multiset(b);
      var i, others := TakeOut(b, x);
      assert multiset(others) == multiset(rest);
      SumIgnoresOrder(next, rest, others, j);
      SumOfConcat(next, [x], rest, j);
      SumOfConcat(next, b[..i], [x], j);
      SumOfConcat(next, b[..i] + [x], b[i + 1..], j);
      SumOfConcat(next, b[..i], b[i + 1..], j);
    }
  }

  lemma EmptyByCount(b: seq<seq<byte>>)
    requires multiset(b) == multiset{}
    ensures b == []
  {
    assert |b| == |multiset(b)|;
  }

  lemma {:induction false} LengthIgnoresOrder(a: seq<seq<byte>>, b: seq<seq<byte>>)
    requires multiset(a) == multiset(b)
    ensures TotalLength(a) == TotalLength(b)
    decreases |a|
  {
    if a == [] {
      EmptyByCount(b);
    } else {
      var x, rest := a[0], a[1..];
      assert a == [x] + rest;
      assert x in multiset(b);
      var i, others := TakeOut(b, x);
      assert multiset(others) == multiset(rest);
      LengthIgnoresOrder(rest, others);
      LengthOfMiddle(b[..i], x, b[i + 1..]);
    }
  }

  lemma {:induction false} LengthOfMiddle(a: seq<seq<byte>>, x: seq<byte>, b: seq<seq<byte>>)
    ensures TotalLength(a + [x] + b) == |x| + TotalLength(a + b)
    decreases |a|
  {
    if a == [] {
      assert a + [x] + b == [x] + b && a + b == b;
      assert ([x] + b)[1..] == b;
    } else {
      assert (a + [x] + b)[1..] == a[1..] + [x] + b && (a + b)[1..] == a[1..] + b;
      LengthOfMiddle(a[1..], x, b);
    }
  }

  /** What counts of readable keyfiles: a non-empty start of each of the first few, 1 MiB at most in
      all, whole ones until the limit is reached; what follows does not count because the next
      file is empty or the limit is reached. */
  lemma {:induction false} UsedExactly(files: seq<seq<byte>>, total: nat)
    requires total <= MAX_READ
    ensures Used(Readable(files), total).Ok?
    ensures var used := Used(Readable(files), total).value;
            && |used| <= |files|
            && (forall i :: 0 <= i < |used| ==> used[i] != [] && used[i] <= files[i])
            && total + TotalLength(used) <= MAX_READ
            && (total + TotalLength(used) < MAX_READ ==> used == files[..|used|])
            && (|used| < |files| ==> files[|used|] == [] || total + TotalLength(used) == MAX_READ)
    decreases |files|
  {
    if files != [] {
      hide Readable;
      var n := Min(|files[0]|, MAX_READ - total);
      FirstMayCount(files, total);
      if n > 0 {
        UsedExactly(files[1..], total + n);
        var rest := Used(Readable(files[1..]), total + n).value;
        OneMoreCounts(files, files[0][..n], rest);
      }
    }
  }

  lemma OneMoreCounts(files: seq<seq<byte>>, start: seq<byte>, rest: seq<seq<byte>>)
    requires files != [] && |rest| < |files| && start <= files[0]
    ensures TotalLength([start] + rest) == |start| + TotalLength(rest)
    ensures start == files[0] && rest == files[1..][..|rest|] ==> [start] + rest == files[..|rest| + 1]
    ensures |rest| + 1 < |files| ==> files[|rest| + 1] == files[1..][|rest|]
    ensures forall i :: 0 < i < |rest| + 1 ==> ([start] + rest)[i] == rest[i - 1] && files[i] == files[1..][i - 1]
  {
    assert ([start] + rest)[1..] == rest;
  }

  /** Non-empty keyfiles of at most 1 MiB in all can be given in any order. */
  lemma OrderDoesNotMatter(next: Advance, password: seq<byte>, a: seq<seq<byte>>, b: seq<seq<byte>>)
    requires multiset(a) == multiset(b)
    requires TotalLength(a) <= MAX_READ && forall f :: f in a ==> f != []
    ensures Applied(next, password, Readable(a)) == Applied(next, password, Readable(b))
  {
    hide FilesSum;
    LengthIgnoresOrder(a, b);
    forall f | f in b
      ensures f != []
    {
      assert f in multiset(b);
      assert f in multiset(a);
      assert f in a;
    }
    AllUsed(a, 0);
    AllUsed(b, 0);
    SameCount(a, b);
    forall j | 0 <= j < POOL_SIZE
      ensures FilesSum(next, a, j) == FilesSum(next, b, j)
    {
      SumIgnoresOrder(next, a, b, j);
    }
    assert Pool(next, a) == Pool(next, b);
  }

  lemma SameCount(a: seq<seq<byte>>, b: seq<seq<byte>>)
    requires multiset(a) == multiset(b)
    ensures |a| == |b|
  {
    assert |multiset(a)| == |a| && |multiset(b)| == |b|;
  }

  /** Keyfiles are an error exactly when one is unreadable and is reached: every file before it can be read
      and has something to give. */
  lemma {:induction false} ErrorIff(files: seq<Option<seq<byte>>>, total: nat)
    requires total <= MAX_READ
    ensures Used(files, total).Err? <==> exists k :: 0 <= k < |files| && files[k].None? && Counted(files, total, k)
    decreases |files|
  {
    if files != [] {
      if files[0].None? {
        assert Counted(files, total, 0);
      } else {
        var n := Min(|files[0].value|, MAX_READ - total);
        if n > 0 {
          ErrorIff(files[1..], total + n);
          forall k | 0 < k < |files|
            ensures Counted(files, total, k) <==> Counted(files[1..], total + n, k - 1)
            ensures files[k] == files[1..][k - 1]
          {
          }
          if k :| 0 <= k < |files[1..]| && files[1..][k].None? && Counted(files[1..], total + n, k) {
            assert files[k + 1].None? && Counted(files, total, k + 1);
          }
        }
      }
    }
  }

  /** Each of the first `k` files is readable and has something left to give. */
  predicate Counted(files: seq<Option<seq<byte>>>, total: nat, k: nat)
    requires k <= |files| && total <= MAX_READ
    decreases k
  {
    k == 0 || (&& files[0].Some? && Min(|files[0].value|, MAX_READ - total) > 0
               && Counted(files[1..], total + Min(|files[0].value|, MAX_READ - total), k - 1))
  }

  /** Without keyfiles the password is used as it is. */
  lemma NoKeyfiles(next: Advance, password: seq<byte>)
    ensures Applied(next, password, []) == Ok(password)
  {
  }

  // ------------------------------------------------------------------ when files do not count whole

  lemma {:induction false} AllNonEmpty(files: seq<seq<byte>>, total: nat)
    requires total <= MAX_READ && Used(Readable(files), total) == Ok(files)
    ensures total + TotalLength(files) <= MAX_READ && forall f :: f in files ==> f != []
  {
    UsedExactly(files, total);
    forall f | f in files
      ensures f != []
    {
      var i :| 0 <= i < |files| && files[i] == f;
    }
  }

  /** Every file counts, and counts whole, exactly when none is empty and they are at most 1 MiB in all. */
  lemma CountWholeIff(files: seq<seq<byte>>)
    ensures Used(Readable(files), 0) == Ok(files)
       <==> TotalLength(files) <= 1_048_576 && forall f :: f in files ==> f != []
  {
    if Used(Readable(files), 0) == Ok(files) {
      AllNonEmpty(files, 0);
    } else if TotalLength(files) <= MAX_READ && forall f :: f in files ==> f != [] {
      AllUsed(files, 0);
    }
  }

  /** What follows an empty keyfile does not count. */
  lemma EmptyFirst(rest: seq<seq<byte>>)
    ensures Used(Readable([[]] + rest), 0) == Ok([])
  {
    assert Readable([[]] + rest)[0] == Some([]);
  }

  lemma EmptySecond(file: seq<byte>, rest: seq<seq<byte>>)
    requires file != []
    ensures Used(Readable([file, []] + rest), 0) == Ok([file[..Min(|file|, MAX_READ)]])
  {
    var n := Min(|file|, MAX_READ);
    var all := Readable([file, []] + rest);
    assert all[0] == Some(file) && all[1..][0] == Some([]);
    assert Used(all[1..], n) == Ok([]);
    assert [file[..n]] + [] == [file[..n]];
  }

  /** A checksum that is 1 after the first byte and 256 from then on. */
  function FirstByteShows(crc: u32, b: byte): u32 {
    if crc == 0 then 1 else 0x100
  }

  lemma {:induction false} ShownOnce(file: seq<byte>, n: nat)
    requires n <= |file|
    ensures Crc(FirstByteShows, file, n) == if n == 0 then 0 else if n == 1 then 1 else 0x100
    ensures FileSum(FirstByteShows, file, n, 3) == if n == 0 then 0 else 1
  {
    if n > 0 {
      ShownOnce(file, n - 1);
      FourPlaces(n - 1);
      assert CrcByte(0x100, 3) == 0 && CrcByte(1, 3) == 1;
    }
  }

  lemma PoolsDiffer(password: seq<byte>, file: seq<byte>)
    requires file != []
    ensures Mixed(Padded(password), Pool(FirstByteShows, [])) != Mixed(Padded(password), Pool(FirstByteShows, [file]))
  {
    hide FileSum, Padded;
    ShownOnce(file, |file|);
    OneMoreFile(FirstByteShows, [], file, 3);
    assert [] + [file] == [file];
    var padded := Padded(password);
    assert Pool(FirstByteShows, [])[3] == 0 && Pool(FirstByteShows, [file])[3] == 1;
    assert Mixed(padded, Pool(FirstByteShows, []))[3] == AddBytes(padded[3], 0);
    assert Mixed(padded, Pool(FirstByteShows, [file]))[3] == AddBytes(padded[3], 1);
  }

  lemma InFront<T>(x: T, y: T, rest: seq<T>)
    ensures multiset([x, y] + rest) == multiset(rest) + multiset{y} + multiset{x}
  {
    assert [x, y] + rest == [x] + ([y] + rest);
    assert multiset([y] + rest) == multiset(rest) + multiset{y};
  }

  /** Two elements of a list moved to its front, in either order. */
  lemma TwoToFront<T>(s: seq<T>, x: T, y: T) returns (rest: seq<T>)
    requires x in s && y in s && x != y
    ensures multiset([x, y] + rest) == multiset(s) && multiset([y, x] + rest) == multiset(s)
  {
    var i, others := TakeOut(s, x);
    StillThere(s, others, x, y);
    var j;
    j, rest := TakeOut(others, y);
    InFront(x, y, rest);
    InFront(y, x, rest);
    EitherWay(multiset(rest), x, y);
  }

  lemma StillThere<T>(s: seq<T>, others: seq<T>, x: T, y: T)
    requires y in s && x != y && multiset(others) == multiset(s) - multiset{x}
    ensures y in others
  {
    assert y in multiset(s) && y in multiset(others);
  }

  lemma EitherWay<T>(m: multiset<T>, x: T, y: T)
    ensures m + multiset{x} + multiset{y} == m + multiset{y} + multiset{x}
  {
  }

  /** Whatever the checksum is, and whatever the password, two lists of files give the same result. */
  ghost predicate SameResults(a: seq<seq<byte>>, b: seq<seq<byte>>) {
    forall next: Advance, password :: Applied(next, password, Readable(a)) == Applied(next, password, Readable(b))
  }

  /** The files can be given in any order. */
  ghost predicate OrderFree(files: seq<seq<byte>>) {
    forall order :: multiset(order) == multiset(files) ==> SameResults(order, files)
  }

  /** Whenever an empty keyfile and a non-empty one are given together, of whatever lengths and with
      whatever others, two orders differ: one hides the non-empty file and the other does not. */
  lemma EmptyKeyfilePlaceMatters(files: seq<seq<byte>>, password: seq<byte>, file: seq<byte>)
    returns (hiding: seq<seq<byte>>, counting: seq<seq<byte>>)
    requires [] in files && file in files && file != []
    ensures multiset(hiding) == multiset(counting) == multiset(files)
    ensures forall next: Advance ::
      && Applied(next, password, Readable(hiding)) == Ok(Mixed(Padded(password), Pool(next, [])))
      && Applied(next, password, Readable(counting))
         == Ok(Mixed(Padded(password), Pool(next, [file[..Min(|file|, MAX_READ)]])))
    ensures Applied(FirstByteShows, password, Readable(hiding)) != Applied(FirstByteShows, password, Readable(counting))
  {
    hide Pool, Mixed, Padded, Used;
    var rest := TwoToFront(files, [], file);
    hiding, counting := [[], file] + rest, [file, []] + rest;
    assert hiding == [[]] + ([file] + rest);
    EmptyFirst([file] + rest);
    EmptySecond(file, rest);
    PoolsDiffer(password, file[..Min(|file|, MAX_READ)]);
  }

  lemma AllEmpty(files: seq<seq<byte>>, order: seq<seq<byte>>)
    requires multiset(order) == multiset(files) && forall f :: f in files ==> f == []
    ensures order == files
  {
    SameCount(order, files);
    forall i | 0 <= i < |order|
      ensures order[i] == files[i]
    {
      assert order[i] in multiset(order);
      assert order[i] in multiset(files) && order[i] in files && files[i] in files;
    }
  }

  /** Keyfiles of at most 1 MiB in all can be given in any order exactly when none is empty or all are. */
  lemma OrderFreeIff(files: seq<seq<byte>>)
    requires TotalLength(files) <= MAX_READ
    ensures OrderFree(files) <==> [] !in files || forall f :: f in files ==> f == []
  {
    hide Applied;
    if [] !in files {
      forall order | multiset(order) == multiset(files)
        ensures SameResults(order, files)
      {
        forall next: Advance, password
          ensures Applied(next, password, Readable(order)) == Applied(next, password, Readable(files))
        {
          OrderDoesNotMatter(next, password, files, order);
        }
      }
    } else if f :| f in files && f != [] {
      var hiding, counting := EmptyKeyfilePlaceMatters(files, [], f);
      assert !SameResults(hiding, files) || !SameResults(counting, files);
    } else {
      forall order | multiset(order) == multiset(files)
        ensures SameResults(order, files)
      {
        AllEmpty(files, order);
      }
    }
  }
}
