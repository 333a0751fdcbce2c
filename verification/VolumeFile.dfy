/**
 A file as the volume code sees it: bytes, a position, and writes that may fail part-way
 through, leaving arbitrary bytes behind. What a sequence of writes can leave behind when it
 is cut short is a crash state.
 */
module VolumeFile {
  import opened Bytes

  /** A write of bytes at an offset. */
  type Change = (nat, seq<byte>)

  function ApplyAll(data: seq<byte>, plan: seq<Change>): seq<byte> {
    if plan == [] then data
    else WriteAt(ApplyAll(data, plan[..|plan| - 1]), plan[|plan| - 1].0, plan[|plan| - 1].1)
  }

  lemma ApplyNext(data: seq<byte>, plan: seq<Change>, i: nat)
    requires i < |plan|
    ensures ApplyAll(data, plan[..0]) == data
    ensures ApplyAll(data, plan[..i + 1]) == WriteAt(ApplyAll(data, plan[..i]), plan[i].0, plan[i].1)
    ensures plan[..|plan|] == plan
  {
    assert plan[..i + 1][..i] == plan[..i];
  }

  /** The file when write `i` of the plan has put down only `torn`, and none after it has begun. */
  function Torn(data: seq<byte>, plan: seq<Change>, i: nat, torn: seq<byte>): seq<byte>
    requires i < |plan|
  {
    WriteAt(ApplyAll(data, plan[..i]), plan[i].0, torn)
  }

  /** What a crash during the plan can leave: the plan up to some write, and arbitrary bytes, no
      more than it was to write, at the start of that one's range. */
  ghost predicate CrashState(data: seq<byte>, plan: seq<Change>, after: seq<byte>) {
    exists i: nat, torn: seq<byte> ::
      i < |plan| && |torn| <= |plan[i].1| && after == Torn(data, plan, i, torn)
  }

  /** The states before and after every write are among them. */
  lemma WholeWritesAreCrashStates(data: seq<byte>, plan: seq<Change>, i: nat)
    requires i < |plan|
    ensures CrashState(data, plan, ApplyAll(data, plan[..i + 1]))
  {
    ApplyNext(data, plan, i);
    assert ApplyAll(data, plan[..i + 1]) == Torn(data, plan, i, plan[i].1);
  }

  class File {
    var data: seq<byte>
    var position: nat
    var calls: nat
    /** Which calls to write fail, and the bytes a failing one has put down. */
    const faults: nat -> Option<seq<byte>>

    constructor (data: seq<byte>, faults: nat -> Option<seq<byte>>)
      ensures this.data == data && this.faults == faults && position == 0 && calls == 0
    {
      this.data, this.faults, position, calls := data, faults, 0, 0;
    }

    /** The bytes the next write puts down: all, or the start of them replaced by arbitrary ones. */
    function Lands(d: seq<byte>): (r: seq<byte>)
      reads this
      ensures |r| <= |d|
    {
      match faults(calls)
      case None => d
      case Some(torn) => torn[..Min(|torn|, |d|)]
    }

    method SeekEnd() returns (end: nat)
      modifies this`position
      ensures end == position == |data|
    {
      position := |data|;
      end := position;
    }

    /** An offset that does not fit the system call's signed argument is refused. */
    method SeekStart(off: nat) returns (ok: bool)
      modifies this`position
      ensures ok <==> off < TWO_63
      ensures position == if ok then off else old(position)
    {
      ok := off < TWO_63;
      if ok {
        position := off;
      }
    }

    method WriteAll(d: seq<byte>) returns (ok: bool)
      modifies this
      ensures ok <==> faults(old(calls)).None?
      ensures data == WriteAt(old(data), old(position), old(Lands(d)))
      ensures ok ==> data == WriteAt(old(data), old(position), d)
      ensures ok ==> position == old(position) + |d|
      ensures calls == old(calls) + 1
    {
      ok := faults(calls).None?;
      var landed := Lands(d);
      data := WriteAt(data, position, landed);
      position := position + |landed|;
      calls := calls + 1;
    }

    /** Fails when fewer bytes are left. */
    method ReadExact(n: nat) returns (r: Option<seq<byte>>)
      modifies this`position
      ensures n == 0 ==> r == Some([])
      ensures n > 0 ==>
        r == if old(position) + n <= |data| then Some(data[old(position)..old(position) + n]) else None
    {
      if n == 0 {
        return Some([]);
      }
      if position + n > |data| {
        return None;
      }
      r := Some(data[position..position + n]);
      position := position + n;
    }

    /** One write of a plan, at its place. On failure the file is in a crash state of the plan. */
    method WriteStep(ghost start: seq<byte>, ghost plan: seq<Change>, ghost i: nat, off: nat, d: seq<byte>)
      returns (ok: bool)
      requires i < |plan| && plan[i] == (off, d) && data == ApplyAll(start, plan[..i])
      modifies this
      ensures ok <==> off < TWO_63 && faults(old(calls)).None?
      ensures ok ==> data == ApplyAll(start, plan[..i + 1]) && calls == old(calls) + 1
      ensures exists torn: seq<byte> :: |torn| <= |d| && data == Torn(start, plan, i, torn)
      ensures CrashState(start, plan, data)
    {
      ok := SeekStart(off);
      if !ok {
        assert data == Torn(start, plan, i, []);
        return;
      }
      ghost var landed := Lands(d);
      ok := WriteAll(d);
      assert data == Torn(start, plan, i, landed);
      ApplyNext(start, plan, i);
    }
  }
}
