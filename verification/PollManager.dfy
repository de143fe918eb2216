/** The poll set: an array of descriptors, and the hash table that finds their slots. */
module PollManagers {
  import opened Common
  import opened HashTables
  import opened FdIndex

  class PollManager {
    const pfds: array<int>
    const fdsIdxMap: HashTable<int, int>
    var count: int

    ghost function Repr(): set<object>
      reads fdsIdxMap
    {
      {this, pfds} + fdsIdxMap.Repr
    }

    ghost predicate Valid()
      reads this, pfds, fdsIdxMap, fdsIdxMap.Repr
    {
      && this !in fdsIdxMap.Repr && pfds !in fdsIdxMap.Repr
      && fdsIdxMap.Valid() && fdsIdxMap.items.Length == pfds.Length
      && Indexed(pfds[..], fdsIdxMap.M)
      && count == Occupied(pfds[..])
    }

    constructor (capacity: nat, hash: int -> nat)
      requires capacity > 0
      ensures Valid() && fresh(Repr()) && fdsIdxMap.M == map[] && pfds.Length == capacity
    {
      hide HashTable.Valid;
      pfds := new int[capacity](_ => UNASSIGNED);
      fdsIdxMap := new HashTable(capacity, hash);
      count := 0;
      new;
      NoneOccupied(pfds[..]);
    }

    method FindPollFdIdx(fd: int) returns (index: int)
      ensures index == Scan(pfds[..], fd)
    {
      hide Scan;
      index := UNASSIGNED;
      for i := 0 to pfds.Length
        invariant index == UNASSIGNED && fd !in pfds[..i]
      {
        if pfds[i] == fd {
          index := i;
          break;
        }
        assert pfds[..i + 1] == pfds[..i] + [pfds[i]];
      }
      ScanIs(pfds[..], fd, if index == UNASSIGNED then pfds.Length else index);
    }

    /** find_fd_idx_in_hash_table: the index gives what the scan would give. */
    method FindFdIdx(fd: int) returns (index: int)
      requires Valid() && fd >= 0
      ensures index == Scan(pfds[..], fd)
      ensures index == if fd in fdsIdxMap.M then fdsIdxMap.M[fd] else UNASSIGNED
      ensures index == UNASSIGNED <==> fd !in fdsIdxMap.M
    {
      hide HashTable.Valid, Scan, Occupied;
      index := UNASSIGNED;
      var item := fdsIdxMap.Find(fd);
      if item != null {
        index := item.value;
      }
      LookupIsScan(pfds[..], fdsIdxMap.M, fd);
    }

    /** Takes the first free slot for a descriptor that has none; does nothing when full. */
    method SetPollFd(fd: int)
      requires Valid() && fd >= 0 && fd !in fdsIdxMap.M
      modifies Repr()
      ensures Valid() && fresh(Repr() - old(Repr()))
      ensures var i := Scan(old(pfds[..]), UNASSIGNED);
              if i == UNASSIGNED then pfds[..] == old(pfds[..]) && fdsIdxMap.M == old(fdsIdxMap.M)
              else pfds[..] == old(pfds[..])[i := fd] && fdsIdxMap.M == old(fdsIdxMap.M)[fd := i]
    {
      hide HashTable.Valid, Scan, Occupied, Indexed;
      var fdIdx := FindPollFdIdx(UNASSIGNED);
      if fdIdx != UNASSIGNED {
        RoomFor(pfds[..], fdsIdxMap.M);
        Assigned(pfds[..], fdsIdxMap.M, fdIdx, fd);
        OccupiedUpdate(pfds[..], fdIdx, fd);
        var item := new HashItem(fd, fdIdx);
        var inserted := fdsIdxMap.Insert(item);
        ghost var slots := pfds[..];
        pfds[fdIdx] := fd;
        assert pfds[..] == slots[fdIdx := fd];
        count := count + 1;
      }
    }

    method UnsetPollFd(fd: int)
      requires Valid() && fd >= 0
      modifies Repr()
      ensures Valid() && Repr() == old(Repr())
      ensures if fd !in old(fdsIdxMap.M) then pfds[..] == old(pfds[..]) && fdsIdxMap.M == old(fdsIdxMap.M)
              else pfds[..] == old(pfds[..])[old(fdsIdxMap.M)[fd] := UNASSIGNED] && fdsIdxMap.M == old(fdsIdxMap.M) - {fd}
    {
      hide HashTable.Valid, Scan, Occupied, Indexed;
      var fdIdx := FindFdIdx(fd);
      if fdIdx != UNASSIGNED {
        Unassigned(pfds[..], fdsIdxMap.M, fd);
        OccupiedUpdate(pfds[..], fdIdx, UNASSIGNED);
        var removed := fdsIdxMap.Remove(fd);
        ghost var slots := pfds[..];
        pfds[fdIdx] := UNASSIGNED;
        assert pfds[..] == slots[fdIdx := UNASSIGNED];
        count := count - 1;
      }
    }
  }
}
