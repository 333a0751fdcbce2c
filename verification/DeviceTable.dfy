/**
 The driver's table of mounted volumes: 26 drive letters, each volume numbered from a counter
 when it is mounted, and unmounting all of them newest first.
 */
module DeviceTable {
  import opened Bytes

  const MAX_DRIVE := 26

  /** A device is known by its volume id. */
  type Slot = Option<int>

  datatype MountResult = Mounted | DriveNotFound | AlreadyMounted | OsError | OutOfMemory | MountFailed

  /** How far the system lets a mount get. */
  datatype MountOutcome = NoDevice | NoMemory | ThreadFailed | ThreadMounted

  predicate Counted(id: int) {
    id >= 0
  }

  /** The number of slots among the first `n` that hold a volume with a counted id. */
  function Count(table: seq<Slot>, n: nat): nat
    requires n <= |table|
  {
    if n == 0 then 0
    else Count(table, n - 1) + (if table[n - 1].Some? && Counted(table[n - 1].value) then 1 else 0)
  }

  lemma {:induction false} CountBound(table: seq<Slot>, n: nat)
    requires n <= |table|
    ensures Count(table, n) <= n
    ensures Count(table, n) == 0 <==> forall i :: 0 <= i < n ==> table[i].None? || !Counted(table[i].value)
  {
    if n > 0 {
      CountBound(table, n - 1);
    }
  }

  lemma {:induction false} CountWithout(table: seq<Slot>, n: nat, k: nat)
    requires k < |table| && n <= |table| && table[k].Some? && Counted(table[k].value)
    ensures Count(table[k := None], n) == Count(table, n) - (if k < n then 1 else 0)
  {
    if n > 0 {
      CountWithout(table, n - 1, k);
    }
  }

  /** Slots in the order they were emptied: newest first, each exactly once. */
  predicate NewestFirst(before: seq<Slot>, order: seq<nat>) {
    && (forall a :: 0 <= a < |order| ==> order[a] < |before| && before[order[a]].Some?)
    && (forall a, b :: 0 <= a < b < |order| ==>
          order[a] != order[b] && before[order[a]].value >= before[order[b]].value)
  }

  /** The same with no ties. */
  predicate StrictlyNewestFirst(before: seq<Slot>, order: seq<nat>) {
    && (forall a :: 0 <= a < |order| ==> order[a] < |before| && before[order[a]].Some?)
    && (forall a, b :: 0 <= a < b < |order| ==> before[order[a]].value > before[order[b]].value)
  }

  lemma StrictWhenDistinct(before: seq<Slot>, order: seq<nat>)
    requires NewestFirst(before, order)
    requires forall i, j :: 0 <= i < j < |before| && before[i].Some? ==> before[i] != before[j]
    ensures StrictlyNewestFirst(before, order)
  {
    forall a, b | 0 <= a < b < |order|
      ensures before[order[a]].value > before[order[b]].value
    {
      assert before[order[a]] != before[order[b]];
    }
  }

  lemma NothingYet(before: seq<Slot>)
    ensures NewestFirst(before, [])
  {
  }

  lemma OrderGrows(before: seq<Slot>, order: seq<nat>, found: nat)
    requires NewestFirst(before, order) && found < |before| && before[found].Some? && found !in order
    requires forall a :: 0 <= a < |order| ==> before[found].value <= before[order[a]].value
    ensures NewestFirst(before, order + [found])
  {
  }

  class DeviceTable {
    const devices: array<Slot>
    var lastVolumeId: int
    /** The slots unmounted so far, in order. */
    ghost var unmounted: seq<nat>

    /** Ids come from the counter, and no two volumes share one. */
    ghost predicate Valid()
      reads this, devices
    {
      && devices.Length == MAX_DRIVE
      && 0 <= lastVolumeId
      && (forall i :: 0 <= i < MAX_DRIVE && devices[i].Some? ==> 0 < devices[i].value <= lastVolumeId)
      && (forall i, j :: 0 <= i < j < MAX_DRIVE && devices[i].Some? ==> devices[i] != devices[j])
    }

    constructor ()
      ensures Valid() && fresh(devices)
      ensures devices.Length == 26 && forall i :: 0 <= i < 26 ==> devices[i].None?
      ensures unmounted == []
    {
      devices := new Slot[MAX_DRIVE](_ => None);
      lastVolumeId := 0;
      unmounted := [];
    }

    /** `handle_mount_volume`, up to the counter's last value, for a drive letter that the system says
        is free or not. A failed mount uses up an id all the same; a refused one does not. */
    method Mount(drive: int, letterAvailable: bool, outcome: MountOutcome) returns (r: MountResult)
      requires Valid() && lastVolumeId < 0x7FFF_FFFF
      modifies this, devices
      ensures Valid() && unmounted == old(unmounted)
      ensures !(0 <= drive < 26) ==> r == DriveNotFound
      ensures 0 <= drive < 26 && old(devices[drive].Some?) ==> r == AlreadyMounted
      ensures 0 <= drive < 26 && old(devices[drive].None?) && !letterAvailable ==> r == DriveNotFound
      ensures 0 <= drive < 26 && old(devices[drive].None?) && letterAvailable ==>
        && (r == Mounted <==> outcome == ThreadMounted) && (r == OsError <==> outcome == NoDevice)
        && (r == OutOfMemory <==> outcome == NoMemory) && (r == MountFailed <==> outcome == ThreadFailed)
        && lastVolumeId == old(lastVolumeId) + (if outcome == NoDevice then 0 else 1)
      ensures r in {DriveNotFound, AlreadyMounted} ==> lastVolumeId == old(lastVolumeId)
      ensures r != Mounted ==> devices[..] == old(devices[..])
      ensures r == Mounted ==> lastVolumeId == old(lastVolumeId) + 1
      ensures r == Mounted ==> devices[..] == old(devices[..])[drive := Some(lastVolumeId)]
    {
      if drive < 0 || drive >= MAX_DRIVE {
        return DriveNotFound;
      }
      if devices[drive].Some? {
        return AlreadyMounted;
      }
      if !letterAvailable {
        return DriveNotFound;
      }
      if outcome == NoDevice {
        return OsError;
      }
      lastVolumeId := lastVolumeId + 1;
      var id := lastVolumeId;
      match outcome
      case NoMemory => return OutOfMemory;
      case ThreadFailed => return MountFailed;
      case ThreadMounted =>
        devices[drive] := Some(id);
        return Mounted;
    }

    /** `unmount_device`. */
    method Unmount(drive: nat)
      requires drive < devices.Length == MAX_DRIVE
      modifies this`unmounted, devices
      ensures devices[..] == old(devices[..])[drive := None]
      ensures unmounted == old(unmounted) + (if old(devices[drive].Some?) then [drive] else [])
    {
      if devices[drive].None? {
        assert devices[..][drive := None] == devices[..];
        return;
      }
      devices[drive] := None;
      unmounted := unmounted + [drive];
    }

    /** The mounted slot with the highest id above -1, the first of them on a tie. */
    method FindNewest(ids: seq<int>) returns (found: nat)
      requires devices.Length == MAX_DRIVE == |ids|
      ensures found <= 26
      ensures found < 26 ==> devices[found].Some? && ids[found] >= 0
      ensures found < 26 ==> forall i :: 0 <= i < 26 && devices[i].Some? ==> ids[i] <= ids[found]
      ensures found == 26 ==> forall i :: 0 <= i < 26 && devices[i].Some? ==> ids[i] < 0
    {
      var maxId := -1;
      found := MAX_DRIVE;
      for i := 0 to MAX_DRIVE
        invariant found == MAX_DRIVE ==> maxId == -1
        invariant found != MAX_DRIVE ==> found < i && devices[found].Some? && maxId == ids[found] >= 0
        invariant forall k :: 0 <= k < i && devices[k].Some? ==> ids[k] <= maxId
      {
        if devices[i].Some? && ids[i] > maxId {
          maxId := ids[i];
          found := i;
        }
      }
    }

    /** `handle_unmount_all_volumes`: newest first, and exactly the volumes with an id of at least
        zero. */
    method UnmountAll()
      requires devices.Length == MAX_DRIVE
      modifies this`unmounted, devices
      ensures forall i :: 0 <= i < MAX_DRIVE ==>
        devices[i] == old(if devices[i].Some? && Counted(devices[i].value) then None else devices[i])
      ensures |unmounted| >= |old(unmounted)| && unmounted[..|old(unmounted)|] == old(unmounted)
      ensures NewestFirst(old(devices[..]), unmounted[|old(unmounted)|..])
      ensures forall i :: 0 <= i < MAX_DRIVE && old(devices[i].Some? && Counted(devices[i].value)) ==>
        i in unmounted[|old(unmounted)|..]
      ensures old(Valid()) ==>
        && Valid() && (forall i :: 0 <= i < MAX_DRIVE ==> devices[i].None?)
        && StrictlyNewestFirst(old(devices[..]), unmounted[|old(unmounted)|..])
    {
      hide Count, NewestFirst;
      ghost var before, past := devices[..], unmounted;
      NothingYet(before);
      var ids := Snapshot();
      ghost var order: seq<nat> := [];
      CountBound(before, MAX_DRIVE);
      for k := 0 to MAX_DRIVE
        invariant unmounted == past + order && NewestFirst(before, order)
        invariant forall a :: 0 <= a < |order| ==>
          order[a] < MAX_DRIVE && before[order[a]].Some? && Counted(before[order[a]].value)
        invariant forall i :: 0 <= i < MAX_DRIVE ==> devices[i] == if i in order then None else before[i]
        invariant forall i, a :: 0 <= i < MAX_DRIVE && devices[i].Some? && 0 <= a < |order| ==> ids[i] <= ids[order[a]]
        invariant Count(devices[..], MAX_DRIVE) <= MAX_DRIVE - k
      {
        var found := FindNewest(ids);
        CountBound(devices[..], MAX_DRIVE);
        if found < MAX_DRIVE {
          CountWithout(devices[..], MAX_DRIVE, found);
          OrderGrows(before, order, found);
          Unmount(found);
          order := order + [found];
        }
      }
      CountBound(devices[..], MAX_DRIVE);
      assert unmounted[|past|..] == order;
      if old(Valid()) {
        StrictWhenDistinct(before, order);
      }
    }

    method Snapshot() returns (ids: seq<int>)
      requires devices.Length == MAX_DRIVE
      ensures |ids| == MAX_DRIVE
      ensures forall i :: 0 <= i < MAX_DRIVE ==> ids[i] == if devices[i].Some? then devices[i].value else 0
    {
      ids := [];
      for i := 0 to MAX_DRIVE
        invariant |ids| == i
        invariant forall k :: 0 <= k < i ==> ids[k] == if devices[k].Some? then devices[k].value else 0
      {
        ids := ids + [if devices[i].Some? then devices[i].value else 0];
      }
    }
  }
}
