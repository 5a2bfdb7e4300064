/** The RPC-mode side of a parcel: the sorted object-position table and the
    descriptors that travel beside the bytes. */
module Rpc {
  import opened Wire

  ghost predicate Sorted(s: seq<nat>) {
    forall i, j :: 0 <= i < j < |s| ==> s[i] <= s[j]
  }

  /** Insert after every element that is not larger. */
  ghost function Inserted(s: seq<nat>, x: nat): (r: seq<nat>)
  {
    if s == [] || x < s[0] then [x] + s else [s[0]] + Inserted(s[1..], x)
  }

  lemma {:induction false} InsertedAt(s: seq<nat>, x: nat, at: nat)
    requires at <= |s| && (forall i :: 0 <= i < at ==> s[i] <= x) && (at < |s| ==> x < s[at])
    ensures Inserted(s, x) == s[..at] + [x] + s[at..]
  {
    if at > 0 {
      InsertedAt(s[1..], x, at - 1);
      assert s[..at] == [s[0]] + s[1..][..at - 1];
    }
  }

  lemma {:induction false} InsertedContents(s: seq<nat>, x: nat)
    ensures multiset(Inserted(s, x)) == multiset(s) + multiset{x}
  {
    if s != [] && s[0] <= x {
      InsertedContents(s[1..], x);
      assert s == [s[0]] + s[1..];
    }
  }

  /** Insertion keeps the table sorted and adds exactly the new position. */
  lemma InsertedMembers(s: seq<nat>, x: nat)
    ensures forall y :: y in Inserted(s, x) <==> y == x || y in s
  {
    InsertedContents(s, x);
    forall y
      ensures y in Inserted(s, x) <==> y == x || y in s
    {
      assert y in multiset(Inserted(s, x)) <==> y in multiset(s) + multiset{x};
    }
  }

  lemma {:induction false} InsertedSorted(s: seq<nat>, x: nat)
    requires Sorted(s)
    ensures Sorted(Inserted(s, x))
    ensures forall y :: y in Inserted(s, x) <==> y == x || y in s
  {
    InsertedMembers(s, x);
    if s != [] && s[0] <= x {
      InsertedSorted(s[1..], x);
      var r := Inserted(s[1..], x);
      assert forall i :: 0 <= i < |r| ==> r[i] in r;
    }
  }

  class RpcFields {
    var positions: seq<nat>
    var fdsOut: seq<nat>
    var fdsIn: seq<Option<nat>>
    var unixFds: bool
    var recordFds: bool

    constructor (unixFds: bool, recordFds: bool)
      ensures positions == [] && fdsOut == [] && fdsIn == []
      ensures this.unixFds == unixFds && this.recordFds == recordFds
    {
      positions, fdsOut, fdsIn := [], [], [];
      this.unixFds, this.recordFds := unixFds, recordFds;
    }

    /** `record_object_position`: `partition_point` by binary search, then insert. */
    method RecordObjectPosition(pos: nat)
      requires Sorted(positions)
      modifies this`positions
      ensures positions == Inserted(old(positions), pos)
    {
      var lo, hi := 0, |positions|;
      while lo < hi
        invariant 0 <= lo <= hi <= |positions|
        invariant forall i :: 0 <= i < lo ==> positions[i] <= pos
        invariant forall i :: hi <= i < |positions| ==> pos < positions[i]
      {
        var mid := (lo + hi) / 2;
        if positions[mid] <= pos {
          lo := mid + 1;
        } else {
          hi := mid;
        }
      }
      InsertedAt(positions, pos, lo);
      positions := positions[..lo] + [pos] + positions[lo..];
    }

    /** `object_position_present`: binary search.  A table that is not sorted can only miss. */
    method ObjectPositionPresent(pos: nat) returns (found: bool)
      ensures found ==> pos in positions
      ensures Sorted(positions) && pos in positions ==> found
    {
      var lo, hi := 0, |positions|;
      while lo < hi
        invariant 0 <= lo <= hi <= |positions|
        invariant Sorted(positions) ==> forall i :: 0 <= i < lo ==> positions[i] < pos
        invariant Sorted(positions) ==> forall i :: hi <= i < |positions| ==> pos < positions[i]
      {
        var mid := (lo + hi) / 2;
        if positions[mid] == pos {
          return true;
        } else if positions[mid] < pos {
          lo := mid + 1;
        } else {
          hi := mid;
        }
      }
      return false;
    }

    /** `push_out_fd`: the index of a descriptor is its place in the table. */
    method PushOutFd(fd: nat) returns (index: nat)
      modifies this`fdsOut
      ensures fdsOut == old(fdsOut) + [fd] && index == |old(fdsOut)|
    {
      index := |fdsOut|;
      fdsOut := fdsOut + [fd];
    }

    /** `take_in_fd`: a received descriptor leaves its slot empty. */
    method TakeInFd(index: nat) returns (fd: Option<nat>)
      modifies this`fdsIn
      ensures fd == if index < |old(fdsIn)| then old(fdsIn)[index] else None
      ensures fdsIn == if index < |old(fdsIn)| then old(fdsIn)[index := None] else old(fdsIn)
    {
      fd := None;
      if index < |fdsIn| {
        fd := fdsIn[index];
        fdsIn := fdsIn[index := None];
      }
    }
  }
}
