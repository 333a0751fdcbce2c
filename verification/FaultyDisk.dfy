/**
 Whole runs of driver requests of any alignment, any of which the system may fail: what each one
 answers, and what every byte of the disk then is.
 */
module FaultyDisk {
  import opened Bytes
  import opened DataUnits
  import opened SectorIo
  import opened EncryptedIoQueue
  import opened FlatDisk

  /** A request and what the system does while it is served. */
  type Event = (Request, Environment)

  /** What one request does to one byte of the disk: nothing; store it; put the old ciphertext in its
      place; or leave something that is not known. */
  datatype Effect = Kept | Stored(b: byte) | Exposed | Lost

  predicate OnTheDisk(r: Request, diskLength: nat) {
    0 <= r.offset && 0 < Length(r) && r.offset + Length(r) <= diskLength
  }

  /** The status of every request. */
  function ExpectedStatus(diskLength: nat, readOnly: bool, e: Event): IoStatus {
    var (r, env) := e;
    if r.Read? && r.length == 0 then Success
    else if r.Write? && readOnly then MediaWriteProtected
    else if r.offset < 0 then InvalidParameter
    else if Length(r) == 0 then Success
    else if r.offset + Length(r) > diskLength then InvalidParameter
    else if !env.poolAvailable then InsufficientResources
    else if env.readFailure.Some? then HostError(env.readFailure.value)
    else if !env.bufferMapped then InsufficientResources
    else if r.Write? && env.writeFailure.Some? then HostError(env.writeFailure.value.0)
    else Success
  }

  /** A WRITE that gets as far as writing to the host file. */
  predicate ReachesHost(diskLength: nat, readOnly: bool, e: Event) {
    var (r, env) := e;
    && r.Write? && !readOnly && OnTheDisk(r, diskLength)
    && env.poolAvailable && env.readFailure.None? && env.bufferMapped
  }

  /** It stores its own bytes and exposes the rest of the sectors it touches. If the host write fails
      the sectors it had begun to write are lost, and those it had not come to are kept. */
  function EffectAt(diskLength: nat, readOnly: bool, e: Event, i: nat): Effect {
    var (r, env) := e;
    if !ReachesHost(diskLength, readOnly, e) || i < AlignDown(r.offset) || i >= AlignUp(r.offset + |r.data|) then Kept
    else if env.writeFailure.Some? then
      if AlignDown(i) >= AlignDown(r.offset) + |env.writeFailure.value.1| then Kept else Lost
    else if r.offset <= i < r.offset + |r.data| then Stored(r.data[i - r.offset])
    else Exposed
  }

  /** How much of a run it takes to see the last request with an effect on a byte; 0 if there is none. */
  function LastTouch(diskLength: nat, readOnly: bool, es: seq<Event>, i: nat): (n: nat)
    ensures n <= |es|
    ensures n > 0 ==> !EffectAt(diskLength, readOnly, es[n - 1], i).Kept?
    ensures forall k :: n <= k < |es| ==> EffectAt(diskLength, readOnly, es[k], i).Kept?
  {
    if es == [] then 0
    else if EffectAt(diskLength, readOnly, es[|es| - 1], i).Kept? then
      LastTouch(diskLength, readOnly, es[..|es| - 1], i)
    else |es|
  }

  predicate Fitting(g: Geometry, es: seq<Event>) {
    forall e :: e in es ==> Expressible(g, e.0)
  }

  function Serve(c: UnitCipher, g: Geometry, readOnly: bool, host: seq<byte>, e: Event): (seq<byte>, Response)
    requires Expressible(g, e.0)
  {
    match e.0
    case Read(off, length) =>
      var (status, bytes) := ReadOutcome(c, g, host, off, length, e.1);
      (host, Response(status, bytes))
    case Write(off, data) =>
      var (status, after) := WriteOutcome(c, g, readOnly, host, off, data, e.1);
      (after, Response(status, []))
  }

  function ServeAll(c: UnitCipher, g: Geometry, readOnly: bool, host: seq<byte>, es: seq<Event>)
    : (r: (seq<byte>, seq<Response>))
    requires Fitting(g, es)
    ensures |r.1| == |es|
  {
    if es == [] then (host, []) else
      var (before, answers) := ServeAll(c, g, readOnly, host, es[..|es| - 1]);
      var (after, answer) := Serve(c, g, readOnly, before, es[|es| - 1]);
      (after, answers + [answer])
  }

  /** A byte of the disk after an effect, from its plaintext and its ciphertext before. */
  predicate After(effect: Effect, plain: byte, cipher: byte, after: byte) {
    match effect
    case Kept => after == plain
    case Stored(b) => after == b
    case Exposed => after == cipher
    case Lost => true
  }

  /** Nothing outside the data area has changed. */
  predicate OutsideKept(g: Geometry, before: seq<byte>, after: seq<byte>)
    requires Placed(g, before)
  {
    && |after| == |before| && after[..g.dataOffset] == before[..g.dataOffset]
    && after[g.dataOffset + AlignUp(g.diskLength)..] == before[g.dataOffset + AlignUp(g.diskLength)..]
  }

  // ------------------------------------------------------------------ one request

  lemma NotOnDisk(c: UnitCipher, g: Geometry, readOnly: bool, host: seq<byte>, e: Event)
    requires Placed(g, host) && Expressible(g, e.0) && !OnTheDisk(e.0, g.diskLength)
    ensures var (after, answer) := Serve(c, g, readOnly, host, e);
            after == host && answer == Response(ExpectedStatus(g.diskLength, readOnly, e), [])
  {
    hide ReadSpan, WriteSpan, Placed;
    if e.0.offset >= 0 && Length(e.0) > 0 {
      DriverRequests(g.dataOffset, g.firstUnit, e.0.offset, Length(e.0), g.diskLength);
      OutOfBoundsIs(g, e.0.offset, Length(e.0));
    }
  }

  lemma OutOfBoundsIs(g: Geometry, off: u64, length: u64)
    requires Params(g, off, length).Err? && length > 0
    ensures Params(g, off, length) != Err(ZeroLength)
  {
  }

  lemma SpanStatus(c: UnitCipher, g: Geometry, host: seq<byte>, lo: nat, hi: nat, off: nat, data: seq<byte>,
                   env: Environment)
    requires Placed(g, host) && lo % 512 == 0 && hi % 512 == 0
    requires lo <= off && off + |data| <= hi <= AlignUp(g.diskLength) && hi - lo < TWO_32
    requires 0 < |data| && off + |data| <= g.diskLength
    ensures var p := SpanBetween(g, lo, hi, off, |data|);
            && ReadSpan(c, host, p, env).0 == ExpectedStatus(g.diskLength, false, (Read(off, |data|), env))
            && (!ReadSpan(c, host, p, env).0.Success? ==> ReadSpan(c, host, p, env).1 == [])
            && WriteSpan(c, host, p, data, env).0 == ExpectedStatus(g.diskLength, false, (Write(off, data), env))
            && (!ReachesHost(g.diskLength, false, (Write(off, data), env)) ==>
                WriteSpan(c, host, p, data, env).1 == host)
  {
    hide Units, Splice, WriteAt, FilledBuffer, AlignUp;
  }

  lemma ReadServed(c: UnitCipher, g: Geometry, readOnly: bool, host: seq<byte>, off: nat, length: nat, env: Environment)
    requires Placed(g, host) && OnDisk(g, off, length)
    ensures var answer := Serve(c, g, readOnly, host, (Read(off, length), env)).1;
            && answer.status == ExpectedStatus(g.diskLength, readOnly, (Read(off, length), env))
            && answer.bytes == if answer.status.Success? then Plain(c, g, host)[off..off + length] else []
  {
    hide ReadOutcome, WriteOutcome, ReadSpan, WriteSpan, Plain, HostAfterWrite, ExpectedStatus;
    ReadIsSpan(c, g, host, off, length, env);
    SpanInside(g, off, length);
    SpanStatus(c, g, host, AlignDown(off), AlignUp(off + length), off, Zeros(length), env);
    SuccessMeansDone(c, g, host, off, length, Zeros(length), env);
    ReadStatusIgnoresMode(g, readOnly, off, length, env);
  }

  lemma ReadStatusIgnoresMode(g: Geometry, readOnly: bool, off: int, length: nat, env: Environment)
    ensures ExpectedStatus(g.diskLength, readOnly, (Read(off, length), env))
         == ExpectedStatus(g.diskLength, false, (Read(off, length), env))
  {
  }

  lemma WriteServed(c: UnitCipher, g: Geometry, host: seq<byte>, off: nat, data: seq<byte>, env: Environment)
    requires Placed(g, host) && OnDisk(g, off, |data|)
    ensures var (after, answer) := Serve(c, g, false, host, (Write(off, data), env));
            && answer == Response(ExpectedStatus(g.diskLength, false, (Write(off, data), env)), [])
            && (!ReachesHost(g.diskLength, false, (Write(off, data), env)) ==> after == host)
  {
    hide WriteOutcome, WriteSpan, ReadSpan, ExpectedStatus, ReachesHost;
    WriteIsSpan(c, g, host, off, data, env);
    SpanInside(g, off, |data|);
    SpanStatus(c, g, host, AlignDown(off), AlignUp(off + |data|), off, data, env);
  }

  lemma SliceAt(s: seq<byte>, lo: nat, hi: nat, i: nat)
    requires lo <= i < hi <= |s|
    ensures s[lo..hi][i - lo] == s[i]
  {
  }

  /** The plaintext of a file in which only a run of whole sectors has changed. */
  lemma PlainBesideChange(c: UnitCipher, g: Geometry, before: seq<byte>, after: seq<byte>, lo: nat, hi: nat, i: nat)
    requires Placed(g, before) && |after| == |before|
    requires lo % 512 == 0 && hi % 512 == 0 && lo <= hi <= AlignUp(g.diskLength)
    requires after[..g.dataOffset + lo] == before[..g.dataOffset + lo]
    requires after[g.dataOffset + hi..] == before[g.dataOffset + hi..]
    requires i < lo || hi <= i < AlignUp(g.diskLength)
    ensures Placed(g, after) && Plain(c, g, after)[i] == Plain(c, g, before)[i]
  {
    hide Units, Area;
    var end := |Area(g, before)|;
    var from, to := if i < lo then 0 else hi, if i < lo then lo else end;
    SameAreaPart(g, before, after, lo, hi, from, to);
    UnitsSlice(c, g.firstUnit, Area(g, before), from, to, false);
    UnitsSlice(c, g.firstUnit, Area(g, after), from, to, false);
    SliceAt(Plain(c, g, before), from, to, i);
    SliceAt(Plain(c, g, after), from, to, i);
  }

  lemma AreaAt(g: Geometry, host: seq<byte>, from: nat, to: nat, k: nat)
    requires Placed(g, host) && from <= to <= AlignUp(g.diskLength) && k < to - from
    ensures Area(g, host)[from..to][k] == host[g.dataOffset + from + k]
  {
  }

  lemma SameAreaPart(g: Geometry, before: seq<byte>, after: seq<byte>, lo: nat, hi: nat, from: nat, to: nat)
    requires Placed(g, before) && |after| == |before| && from <= to <= AlignUp(g.diskLength)
    requires lo <= hi <= AlignUp(g.diskLength) && (to <= lo || hi <= from)
    requires after[..g.dataOffset + lo] == before[..g.dataOffset + lo]
    requires after[g.dataOffset + hi..] == before[g.dataOffset + hi..]
    ensures Placed(g, after) && Area(g, after)[from..to] == Area(g, before)[from..to]
  {
    hide Fits, Area, AlignUp;
    var x, y := Area(g, after)[from..to], Area(g, before)[from..to];
    forall k | 0 <= k < |x|
      ensures x[k] == y[k]
    {
      var at := g.dataOffset + from + k;
      AreaAt(g, before, from, to, k);
      AreaAt(g, after, from, to, k);
      if to <= lo {
        assert after[..g.dataOffset + lo][at] == before[..g.dataOffset + lo][at];
      } else {
        var j := at - (g.dataOffset + hi);
        assert after[g.dataOffset + hi..][j] == before[g.dataOffset + hi..][j];
      }
    }
  }

  lemma OutsideOfSpan(g: Geometry, before: seq<byte>, after: seq<byte>, lo: nat, hi: nat)
    requires Placed(g, before) && |after| == |before| && lo <= hi <= AlignUp(g.diskLength)
    requires after[..g.dataOffset + lo] == before[..g.dataOffset + lo]
    requires after[g.dataOffset + hi..] == before[g.dataOffset + hi..]
    ensures OutsideKept(g, before, after)
  {
    SliceOfSlice(after, 0, g.dataOffset + lo, 0, g.dataOffset);
    SliceOfSlice(before, 0, g.dataOffset + lo, 0, g.dataOffset);
    var from, n := g.dataOffset + AlignUp(g.diskLength), |before|;
    SliceOfSlice(after, g.dataOffset + hi, n, from - (g.dataOffset + hi), n - (g.dataOffset + hi));
    SliceOfSlice(before, g.dataOffset + hi, n, from - (g.dataOffset + hi), n - (g.dataOffset + hi));
    assert after[g.dataOffset + hi..n] == after[g.dataOffset + hi..];
    assert before[g.dataOffset + hi..n] == before[g.dataOffset + hi..];
  }

  lemma WriteAccounts(c: UnitCipher, g: Geometry, host: seq<byte>, off: nat, data: seq<byte>, env: Environment, i: nat)
    requires Placed(g, host) && OnDisk(g, off, |data|) && i < AlignUp(g.diskLength)
    ensures var (after, answer) := Serve(c, g, false, host, (Write(off, data), env));
            && answer == Response(ExpectedStatus(g.diskLength, false, (Write(off, data), env)), [])
            && OutsideKept(g, host, after) && Placed(g, after)
            && After(EffectAt(g.diskLength, false, (Write(off, data), env), i), Plain(c, g, host)[i],
                     Area(g, host)[i], Plain(c, g, after)[i])
  {
    hide WriteOutcome, ExpectedStatus, Plain, Units, Area, HostAfterWrite, Splice, ReadOutcome;
    var after := Serve(c, g, false, host, (Write(off, data), env)).0;
    var lo, hi := AlignDown(off), AlignUp(off + |data|);
    WriteServed(c, g, host, off, data, env);
    FailedWriteIsConfined(c, g, false, host, off, data, env);
    SpanInside(g, off, |data|);
    OutsideOfSpan(g, host, after, lo, hi);
    if i < lo || hi <= i {
      PlainBesideChange(c, g, host, after, lo, hi, i);
    } else if ReachesHost(g.diskLength, false, (Write(off, data), env)) {
      if env.writeFailure.Some? {
        if AlignDown(i) >= lo + |env.writeFailure.value.1| {
          TornWrite(c, g, host, off, data, env, i);
        }
      } else {
        SuccessMeansDone(c, g, host, off, |data|, data, env);
        StatusOfDone(g, off, data, env);
        ByteOfSpan(c, g, host, off, data, i);
      }
    }
  }

  /** A host write that fails leaves the sectors it had not come to. */
  lemma TornWrite(c: UnitCipher, g: Geometry, host: seq<byte>, off: nat, data: seq<byte>, env: Environment, i: nat)
    requires Placed(g, host) && OnDisk(g, off, |data|) && env.writeFailure.Some?
    requires AlignDown(off) <= i < AlignUp(off + |data|) <= AlignUp(g.diskLength)
    requires AlignDown(i) >= AlignDown(off) + |env.writeFailure.value.1|
    requires ReachesHost(g.diskLength, false, (Write(off, data), env))
    ensures var after := Serve(c, g, false, host, (Write(off, data), env)).0;
            Placed(g, after) && Plain(c, g, after)[i] == Plain(c, g, host)[i]
  {
    hide WriteOutcome, WriteSpan, Plain, Units, Area, AlignUp;
    var lo, torn := AlignDown(off), env.writeFailure.value.1;
    WriteIsSpan(c, g, host, off, data, env);
    SpanInside(g, off, |data|);
    TornSpan(c, g, host, lo, AlignUp(off + |data|), off, data, env);
    var after := WriteAt(host, g.dataOffset + lo, torn);
    LandsInside(host, g.dataOffset + lo, g.dataOffset + AlignDown(i), torn);
    PlainBesideChange(c, g, host, after, lo, AlignDown(i), i);
  }

  lemma TornSpan(c: UnitCipher, g: Geometry, host: seq<byte>, lo: nat, hi: nat, off: nat, data: seq<byte>,
                 env: Environment)
    requires Placed(g, host) && lo % 512 == 0 && hi % 512 == 0
    requires lo <= off && off + |data| <= hi <= AlignUp(g.diskLength) && hi - lo < TWO_32
    requires 0 < |data| && off + |data| <= g.diskLength && env.writeFailure.Some?
    requires env.poolAvailable && env.readFailure.None? && env.bufferMapped && |env.writeFailure.value.1| <= hi - lo
    ensures WriteSpan(c, host, SpanBetween(g, lo, hi, off, |data|), data, env).1
         == WriteAt(host, g.dataOffset + lo, env.writeFailure.value.1)
  {
    hide FilledBuffer, Units, WriteAt, Splice;
    var torn := env.writeFailure.value.1;
    assert torn[..|torn|] == torn;
  }

  lemma StatusOfDone(g: Geometry, off: nat, data: seq<byte>, env: Environment)
    requires ReachesHost(g.diskLength, false, (Write(off, data), env)) && env.writeFailure.None?
    ensures ExpectedStatus(g.diskLength, false, (Write(off, data), env)) == Success
  {
  }

  lemma ByteOfSpan(c: UnitCipher, g: Geometry, host: seq<byte>, off: nat, data: seq<byte>, i: nat)
    requires Placed(g, host) && OnDisk(g, off, |data|) && AlignDown(off) <= i < AlignUp(off + |data|)
    ensures Placed(g, HostAfterWrite(c, g, host, off, data)) && i < AlignUp(g.diskLength)
    ensures Plain(c, g, HostAfterWrite(c, g, host, off, data))[i]
         == if off <= i < off + |data| then data[i - off] else Area(g, host)[i]
  {
    hide Plain, HostAfterWrite, Area;
    PlainAfterWrite(c, g, host, off, data);
  }

  /** A READ's bytes are the disk's plaintext. */
  predicate Delivered(c: UnitCipher, g: Geometry, host: seq<byte>, r: Request, bytes: seq<byte>)
    requires Placed(g, host) && r.Read?
  {
    if r.length == 0 then bytes == []
    else
      && 0 <= r.offset && r.offset + r.length <= g.diskLength
      && bytes == Plain(c, g, host)[r.offset..r.offset + r.length]
  }

  /** One request of any kind, in any environment: its status; what a successful READ delivers; and
      what becomes of each byte of the disk. */
  lemma ServeAccounts(c: UnitCipher, g: Geometry, readOnly: bool, host: seq<byte>, e: Event, i: nat)
    requires Placed(g, host) && Expressible(g, e.0) && i < AlignUp(g.diskLength)
    ensures var (after, answer) := Serve(c, g, readOnly, host, e);
            && answer.status == ExpectedStatus(g.diskLength, readOnly, e)
            && OutsideKept(g, host, after) && Placed(g, after)
            && After(EffectAt(g.diskLength, readOnly, e, i), Plain(c, g, host)[i], Area(g, host)[i],
                     Plain(c, g, after)[i])
            && (e.0.Read? && answer.status.Success? ==> Delivered(c, g, host, e.0, answer.bytes))
  {
    hide ReadOutcome, WriteOutcome, Plain, OutsideKept;
    NothingOutside(g, host);
    if !OnTheDisk(e.0, g.diskLength) {
      NotOnDisk(c, g, readOnly, host, e);
    } else {
      match e.0
      case Read(off, length) => ReadServed(c, g, readOnly, host, off, length, e.1);
      case Write(off, data) =>
        if readOnly {
          ReadOnlyWrite(c, g, host, off, data, e.1);
        } else {
          WriteAccounts(c, g, host, off, data, e.1, i);
        }
    }
  }

  lemma NothingOutside(g: Geometry, host: seq<byte>)
    requires Placed(g, host)
    ensures OutsideKept(g, host, host)
  {
  }

  // ------------------------------------------------------------------ runs

  lemma {:induction false} ServedInPlace(c: UnitCipher, g: Geometry, readOnly: bool, host: seq<byte>, es: seq<Event>)
    requires Placed(g, host) && Fitting(g, es)
    ensures Placed(g, ServeAll(c, g, readOnly, host, es).0)
    ensures OutsideKept(g, host, ServeAll(c, g, readOnly, host, es).0)
    decreases |es|
  {
    hide Serve, Placed, AlignUp;
    if es == [] {
      NothingOutside(g, host);
    } else {
      var init, last := es[..|es| - 1], es[|es| - 1];
      assert last in es;
      ServedInPlace(c, g, readOnly, host, init);
      ServedInPlaceOnce(c, g, readOnly, ServeAll(c, g, readOnly, host, init).0, last);
    }
  }

  lemma ServedInPlaceOnce(c: UnitCipher, g: Geometry, readOnly: bool, host: seq<byte>, e: Event)
    requires Placed(g, host) && Expressible(g, e.0)
    ensures Placed(g, Serve(c, g, readOnly, host, e).0) && OutsideKept(g, host, Serve(c, g, readOnly, host, e).0)
  {
    hide Serve, OutsideKept;
    if g.diskLength > 0 {
      ServeAccounts(c, g, readOnly, host, e, 0);
    } else {
      NotOnDisk(c, g, readOnly, host, e);
      NothingOutside(g, host);
    }
  }

  /** After any run of requests, of any alignment and failing in any way, every byte of the disk is
      what the last request with an effect on it made of it: the byte stored, the ciphertext that
      request found, or something unknown if its host write failed; and the initial byte if there
      was no such request. */
  lemma {:induction false} RunAccounts(c: UnitCipher, g: Geometry, readOnly: bool, host: seq<byte>, es: seq<Event>,
                                       i: nat)
    requires Placed(g, host) && Fitting(g, es) && i < AlignUp(g.diskLength)
    ensures Placed(g, ServeAll(c, g, readOnly, host, es).0)
    ensures OutsideKept(g, host, ServeAll(c, g, readOnly, host, es).0)
    ensures Accounted(c, g, readOnly, host, es, i, Plain(c, g, ServeAll(c, g, readOnly, host, es).0)[i])
    decreases |es|
  {
    hide Serve, Placed, Plain, Area, EffectAt, OutsideKept, AlignUp;
    ServedInPlace(c, g, readOnly, host, es);
    if es != [] {
      var init, last := es[..|es| - 1], es[|es| - 1];
      assert last in es;
      ServedInPlace(c, g, readOnly, host, init);
      RunAccounts(c, g, readOnly, host, init, i);
      ServeAccounts(c, g, readOnly, ServeAll(c, g, readOnly, host, init).0, last, i);
      var n := LastTouch(g.diskLength, readOnly, es, i);
      if n < |es| {
        assert es[..n] == init[..n];
        if n > 0 {
          assert es[..n - 1] == init[..n - 1];
        }
      }
    }
  }

  /** `b` is what a run makes of byte `i` of the disk. */
  predicate Accounted(c: UnitCipher, g: Geometry, readOnly: bool, host: seq<byte>, es: seq<Event>, i: nat, b: byte)
    requires Placed(g, host) && Fitting(g, es) && i < AlignUp(g.diskLength)
  {
    var n := LastTouch(g.diskLength, readOnly, es, i);
    if n == 0 then b == Plain(c, g, host)[i] else
      match EffectAt(g.diskLength, readOnly, es[n - 1], i)
      case Stored(stored) => b == stored
      case Exposed =>
        ServedInPlace(c, g, readOnly, host, es[..n - 1]);
        b == Area(g, ServeAll(c, g, readOnly, host, es[..n - 1]).0)[i]
      case Lost => true
  }

  /** Answer `k` of a run is the answer to request `k` on the file as the requests before left it. */
  lemma {:induction false} AnswerIs(c: UnitCipher, g: Geometry, readOnly: bool, host: seq<byte>, es: seq<Event>, k: nat)
    requires Fitting(g, es) && k < |es|
    ensures Fitting(g, es[..k]) && Expressible(g, es[k].0)
    ensures ServeAll(c, g, readOnly, host, es).1[k]
         == Serve(c, g, readOnly, ServeAll(c, g, readOnly, host, es[..k]).0, es[k]).1
    decreases |es|
  {
    hide Serve, Expressible;
    var init := es[..|es| - 1];
    assert es[k] in es;
    if k < |init| {
      AnswerIs(c, g, readOnly, host, init, k);
      assert init[..k] == es[..k] && init[k] == es[k];
    }
  }

  /** Every answer of a run: its status; and a READ that succeeds delivers bytes each of which is what the
      requests before it made of that byte of the disk. */
  lemma AnswersAccount(c: UnitCipher, g: Geometry, readOnly: bool, host: seq<byte>, es: seq<Event>, k: nat, j: nat)
    requires Placed(g, host) && Fitting(g, es) && k < |es|
    ensures Fitting(g, es[..k])
    ensures var (r, answer) := (es[k].0, ServeAll(c, g, readOnly, host, es).1[k]);
            && answer.status == ExpectedStatus(g.diskLength, readOnly, es[k])
            && (r.Read? && answer.status.Success? ==> |answer.bytes| == r.length)
            && (r.Read? && answer.status.Success? && j < r.length ==>
                && 0 <= r.offset && r.offset + j < AlignUp(g.diskLength)
                && Accounted(c, g, readOnly, host, es[..k], r.offset + j, answer.bytes[j]))
  {
    hide ServeAll, Plain, ReadOutcome, WriteOutcome, LastTouch, OutsideKept, Accounted, EffectAt;
    AnswerIs(c, g, readOnly, host, es, k);
    ServedInPlace(c, g, readOnly, host, es[..k]);
    var r, before := es[k].0, ServeAll(c, g, readOnly, host, es[..k]).0;
    if !OnTheDisk(r, g.diskLength) {
      NotOnDisk(c, g, readOnly, before, es[k]);
    } else {
      ReadWithinDisk(g, r.offset, Length(r));
      ServeAccounts(c, g, readOnly, before, es[k], r.offset);
      if r.Read? && j < r.length {
        RunAccounts(c, g, readOnly, host, es[..k], r.offset + j);
      }
    }
  }
}
