/** A map from file descriptors to slots, kept beside the slots themselves. */
module FdIndex {
  import opened Common

  /** The linear scan: the first slot that holds `fd`, or UNASSIGNED. */
  function Scan(slots: seq<int>, fd: int): (index: int)
    ensures index == UNASSIGNED || (0 <= index < |slots| && slots[index] == fd)
    ensures index == UNASSIGNED ==> fd !in slots
    ensures forall j :: 0 <= j < index ==> slots[j] != fd
  {
    if slots == [] then UNASSIGNED
    else if slots[0] == fd then 0
    else var i := Scan(slots[1..], fd); if i == UNASSIGNED then UNASSIGNED else i + 1
  }

  lemma {:induction false} ScanIs(slots: seq<int>, fd: int, i: nat)
    requires i <= |slots| && fd !in slots[..i] && (i < |slots| ==> slots[i] == fd)
    ensures Scan(slots, fd) == if i < |slots| then i else UNASSIGNED
  {
    if i > 0 {
      assert slots[0] == slots[..i][0];
      assert slots[1..][..i - 1] == slots[..i][1..];
      ScanIs(slots[1..], fd, i - 1);
    }
  }

  function Occupied(slots: seq<int>): nat
  {
    if slots == [] then 0 else (if slots[0] == UNASSIGNED then 0 else 1) + Occupied(slots[1..])
  }

  lemma {:induction false} NoneOccupied(slots: seq<int>)
    requires forall i :: 0 <= i < |slots| ==> slots[i] == UNASSIGNED
    ensures Occupied(slots) == 0
  {
    if slots != [] {
      NoneOccupied(slots[1..]);
    }
  }

  /** The map sends a descriptor to a slot exactly when the slot holds it. */
  ghost predicate Indexed(slots: seq<int>, m: map<int, int>)
  {
    && (forall fd <- m :: fd >= 0 && 0 <= m[fd] < |slots| && slots[m[fd]] == fd)
    && (forall i :: 0 <= i < |slots| && slots[i] != UNASSIGNED ==> slots[i] in m && m[slots[i]] == i)
    && |m| == Occupied(slots)
  }

  lemma {:induction false} OccupiedUpdate(slots: seq<int>, i: nat, fd: int)
    requires i < |slots|
    ensures Occupied(slots[i := fd]) ==
            Occupied(slots) - (if slots[i] == UNASSIGNED then 0 else 1) + (if fd == UNASSIGNED then 0 else 1)
  {
    if i > 0 {
      OccupiedUpdate(slots[1..], i - 1, fd);
      assert slots[i := fd][1..] == slots[1..][i - 1 := fd];
    } else {
      assert slots[i := fd][1..] == slots[1..];
    }
  }

  /** A free slot means there is room in an index of the same capacity. */
  lemma {:induction false} FreeSlot(slots: seq<int>)
    ensures Occupied(slots) <= |slots|
    ensures UNASSIGNED in slots <==> Occupied(slots) < |slots|
  {
    if slots != [] {
      FreeSlot(slots[1..]);
      assert slots == [slots[0]] + slots[1..];
    }
  }

  lemma RoomFor(slots: seq<int>, m: map<int, int>)
    requires Indexed(slots, m) && Scan(slots, UNASSIGNED) != UNASSIGNED
    ensures |m| < |slots|
  {
    assert slots[Scan(slots, UNASSIGNED)] == UNASSIGNED;
    FreeSlot(slots);
  }

  /** Looking a descriptor up and scanning for it give the same answer. */
  lemma LookupIsScan(slots: seq<int>, m: map<int, int>, fd: int)
    requires Indexed(slots, m) && fd >= 0
    ensures Scan(slots, fd) == if fd in m then m[fd] else UNASSIGNED
  {
    var i := Scan(slots, fd);
    if fd in m {
      assert slots[m[fd]] == fd;
    }
  }

  lemma Assigned(slots: seq<int>, m: map<int, int>, i: nat, fd: int)
    requires Indexed(slots, m) && i < |slots| && slots[i] == UNASSIGNED && fd >= 0 && fd !in m
    ensures Indexed(slots[i := fd], m[fd := i])
  {
    OccupiedUpdate(slots, i, fd);
  }

  lemma Unassigned(slots: seq<int>, m: map<int, int>, fd: int)
    requires Indexed(slots, m) && fd in m
    ensures Indexed(slots[m[fd] := UNASSIGNED], m - {fd})
  {
    OccupiedUpdate(slots, m[fd], UNASSIGNED);
  }
}
