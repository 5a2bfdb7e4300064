/** File descriptors over RPC: the body names a slot of the descriptors that travel
    beside the bytes, and the position table vouches for the body. */
module FileDescriptors {
  import opened Wire
  import opened Rpc
  import opened Parcels
  import opened Objects
  import opened Versions

  const TYPE_NATIVE_FILE_DESCRIPTOR: i32 := 2

  /** The body of a present descriptor: with a type word on profiles that record positions. */
  function FdBody(record: bool, index: i32): (s: seq<byte>)
    ensures |s| == if record then 16 else 8
  {
    if record then EncI32(1) + (EncI32(0) + (EncI32(TYPE_NATIVE_FILE_DESCRIPTOR) + EncI32(index)))
    else EncI32(1) + EncI32(index)
  }

  type Slots = seq<Option<nat>>

  /** `take_in_fd`, after the index word has been read. */
  function Take(slots: Slots, index: i32, next: nat): (r: Result<(Option<nat>, nat, Slots)>)
  {
    if index < 0 || index >= |slots| || slots[index].None? then Err(BadValue)
    else Ok((slots[index], next, slots[index := None]))
  }

  /** `deserialize_option` in RPC mode: the descriptor, the cursor and the slots left. */
  function ReadFd(data: seq<byte>, pos: nat, unix: bool, record: bool, positions: seq<nat>, slots: Slots): (r: Result<(Option<nat>, nat, Slots)>)
  {
    var present :- ReadI32(data, pos);
    if present == 0 then Ok((None, pos + 4, slots))
    else if !unix then Err(BadType)
    else if record then
      var hasComm :- ReadI32(data, pos + 4);
      if hasComm != 0 then Err(BadValue)
      else if pos + 8 !in positions then Err(BadType)
      else
        var ty :- ReadI32(data, pos + 8);
        if ty != TYPE_NATIVE_FILE_DESCRIPTOR then Err(BadType)
        else
          var index :- ReadI32(data, pos + 12);
          Take(slots, index, pos + 16)
    else
      var index :- ReadI32(data, pos + 4);
      Take(slots, index, pos + 8)
  }

  /** Where positions are recorded, a descriptor's type word lies at one, and there is no
      second channel. */
  predicate Vouched(data: seq<byte>, pos: nat, record: bool, positions: seq<nat>) {
    record ==> ReadI32(data, pos + 4) == Ok(0) && pos + 8 in positions && ReadI32(data, pos + 8) == Ok(TYPE_NATIVE_FILE_DESCRIPTOR)
  }

  /** Why a present descriptor is refused: descriptors are not allowed, there is a second
      channel, its place is not recorded, its type is another, or its slot is empty. */
  lemma FdRefusals(data: seq<byte>, pos: nat, unix: bool, record: bool, positions: seq<nat>, slots: Slots)
    requires ReadI32(data, pos).Ok? && ReadI32(data, pos).value != 0
    ensures var r := ReadFd(data, pos, unix, record, positions, slots);
            && (!unix ==> r == Err(BadType))
            && (unix && record && ReadI32(data, pos + 4).Ok? ==>
                  if ReadI32(data, pos + 4).value != 0 then r == Err(BadValue)
                  else (pos + 8 !in positions ==> r == Err(BadType)) &&
                       (ReadI32(data, pos + 8).Ok? && ReadI32(data, pos + 8).value != 2 ==> r == Err(BadType)))
            && (unix && Vouched(data, pos, record, positions) ==>
                  match ReadI32(data, pos + if record then 12 else 4)
                  case Err(e) => r == Err(e)
                  case Ok(i) => if 0 <= i < |slots| && slots[i].Some? then r.Ok? && r.value.0 == slots[i] else r == Err(BadValue))
  {
    hide DecI32, ReadI32;
  }

  // ----- the methods -----

  ghost predicate RpcReady(p: Parcel)
    reads p, p.rpc
  {
    p.Valid() && p.rpc != null && Sorted(p.rpc.positions) && |p.rpc.fdsOut| < I32_MAX
  }

  /** `serialize` of a present descriptor whose duplicate is `dup`. */
  method Serialize(p: Parcel, dup: Option<nat>) returns (r: Result<()>)
    requires RpcReady(p)
    modifies p`mem, p`len, p`pos, p.rpc
    ensures p.Valid() && Sorted(p.rpc.positions) && p.rpc.recordFds == old(p.rpc.recordFds) && p.rpc.unixFds == old(p.rpc.unixFds)
    ensures !old(p.rpc.unixFds) ==> r == Err(BadType)
    ensures old(p.rpc.unixFds) && dup.None? ==> r == Err(OsError)
    ensures !old(p.rpc.unixFds) || dup.None? ==>
              p.View() == old(p.View()) && p.rpc.fdsOut == old(p.rpc.fdsOut) && p.rpc.positions == old(p.rpc.positions)
    ensures old(p.rpc.unixFds) && dup.Some? ==>
              if old(p.pos) + |FdBody(old(p.rpc.recordFds), |old(p.rpc.fdsOut)|)| <= I32_MAX then r.Ok? else r == Err(BadValue)
    ensures r.Ok? ==>
              var rpc, index := p.rpc, |old(p.rpc.fdsOut)|;
              && p.Bytes() == Overlay(old(p.Bytes()), old(p.pos), FdBody(rpc.recordFds, index))
              && p.pos == old(p.pos) + |FdBody(rpc.recordFds, index)|
              && rpc.fdsOut == old(rpc.fdsOut) + [dup.value]
              && rpc.positions == (if rpc.recordFds then Inserted(old(rpc.positions), old(p.pos) + 8) else old(rpc.positions))
    ensures r == Err(BadValue) ==>
              var rpc, index := p.rpc, |old(p.rpc.fdsOut)|;
              && Stopped(old(p.Bytes()), old(p.pos), FdBody(rpc.recordFds, index), p.Bytes(), p.pos)
              && rpc.fdsOut == old(rpc.fdsOut) + [dup.value] && rpc.positions == old(rpc.positions)
  {
    hide Contents, Overlay, EncI32, Inserted, Stopped;
    if !p.rpc.unixFds {
      return Err(BadType);
    }
    if dup.None? {
      return Err(OsError);
    }
    var index := p.rpc.PushOutFd(dup.value);
    if !p.rpc.recordFds {
      r := WriteTwo(p, 1, index);
      return;
    }
    var at: nat;
    at, r := WriteRecorded(p, index);
    if r.Err? {
      return;
    }
    InsertedSorted(p.rpc.positions, at);
    p.rpc.RecordObjectPosition(at);
  }

  /** The body with a type word, and where that word is. */
  method WriteRecorded(p: Parcel, index: i32) returns (at: nat, r: Result<()>)
    requires p.Valid()
    modifies p`mem, p`len, p`pos
    ensures p.Valid()
    ensures if old(p.pos) + 16 <= I32_MAX then r.Ok? else r == Err(BadValue)
    ensures r.Ok? ==> p.Bytes() == Overlay(old(p.Bytes()), old(p.pos), FdBody(true, index)) &&
                      p.pos == old(p.pos) + 16 && at == old(p.pos) + 8
    ensures r.Err? ==> Stopped(old(p.Bytes()), old(p.pos), FdBody(true, index), p.Bytes(), p.pos)
  {
    hide Contents, Overlay, EncI32, Stopped;
    ghost var before, start, type2 := p.Bytes(), p.pos, EncI32(TYPE_NATIVE_FILE_DESCRIPTOR);
    assert EncI32(1) + EncI32(0) + (type2 + EncI32(index)) == EncI32(1) + (EncI32(0) + (type2 + EncI32(index)));
    Stops(before, start, EncI32(1) + EncI32(0), type2 + EncI32(index));
    at := 0;
    r := WriteTwo(p, 1, 0);
    if r.Err? {
      return;
    }
    at := p.pos;
    r := WriteTwo(p, TYPE_NATIVE_FILE_DESCRIPTOR, index);
    OverlayAppend(before, start, EncI32(1) + EncI32(0), type2 + EncI32(index));
  }

  /** The whole words that fit from `pos` on. */
  function Room(pos: nat): nat {
    if pos > I32_MAX then 0 else (I32_MAX - pos) / 4 * 4
  }

  /** `body` was written word by word until one no longer fitted. */
  ghost predicate Stopped(before: seq<byte>, start: nat, body: seq<byte>, data: seq<byte>, pos: nat) {
    && Room(start) < |body| && pos == start + Room(start)
    && data == if Room(start) == 0 then before else Overlay(before, start, body[..Room(start)])
  }

  /** Stopped in the first part, or in the second after all of the first. */
  lemma Stops(before: seq<byte>, start: nat, a: seq<byte>, b: seq<byte>)
    requires |a| % 4 == 0 && 0 < |a|
    ensures forall data, pos :: Stopped(before, start, a, data, pos) ==> Stopped(before, start, a + b, data, pos)
    ensures start + |a| <= I32_MAX ==>
              forall data, pos :: Stopped(Overlay(before, start, a), start + |a|, b, data, pos) ==> Stopped(before, start, a + b, data, pos)
  {
    hide Overlay;
    if Room(start) <= |a| {
      assert (a + b)[..Room(start)] == a[..Room(start)];
    }
    if start + |a| <= I32_MAX {
      var n := Room(start + |a|);
      assert Room(start) == |a| + n;
      if n <= |b| {
        assert (a + b)[..|a| + n] == a + b[..n];
        OverlayAppend(before, start, a, b[..n]);
      }
    }
  }

  method WriteTwo(p: Parcel, a: i32, b: i32) returns (r: Result<()>)
    requires p.Valid()
    modifies p`mem, p`len, p`pos
    ensures p.Valid()
    ensures if old(p.pos) + 8 <= I32_MAX then r.Ok? else r == Err(BadValue)
    ensures r.Ok? ==> p.Bytes() == Overlay(old(p.Bytes()), old(p.pos), EncI32(a) + EncI32(b)) && p.pos == old(p.pos) + 8
    ensures r.Err? ==> Stopped(old(p.Bytes()), old(p.pos), EncI32(a) + EncI32(b), p.Bytes(), p.pos)
  {
    hide Contents, Overlay, EncI32;
    assert (EncI32(a) + EncI32(b))[..4] == EncI32(a);
    r := p.WriteI32(a);
    if r.Ok? {
      OverlayAppend(old(p.Bytes()), old(p.pos), EncI32(a), EncI32(b));
      r := p.WriteI32(b);
    }
  }

  /** `deserialize_option`.  With a sorted table this is `ReadFd`; with any table, a
      descriptor is handed out only for a body at a recorded position. */
  method DeserializeOption(p: Parcel) returns (r: Result<Option<nat>>)
    requires p.Valid() && p.rpc != null
    modifies p`pos, p.rpc`fdsIn
    ensures Sorted(p.rpc.positions) ==>
              match ReadFd(p.Bytes(), old(p.pos), p.rpc.unixFds, p.rpc.recordFds, p.rpc.positions, old(p.rpc.fdsIn))
              case Ok((fd, next, slots)) => r == Ok(fd) && p.pos == next && p.rpc.fdsIn == slots
              case Err(s) => r == Err(s) && p.rpc.fdsIn == old(p.rpc.fdsIn)
    ensures r.Err? ==> p.rpc.fdsIn == old(p.rpc.fdsIn)
    ensures r == Ok(None) <==> ReadI32(p.Bytes(), old(p.pos)) == Ok(0)
    ensures r.Ok? && r.value.Some? ==>
              && p.rpc.unixFds && Vouched(p.Bytes(), old(p.pos), p.rpc.recordFds, p.rpc.positions)
              && var index := ReadI32(p.Bytes(), old(p.pos) + if p.rpc.recordFds then 12 else 4);
              && index.Ok? && 0 <= index.value < |old(p.rpc.fdsIn)| && old(p.rpc.fdsIn)[index.value] == r.value
              && p.rpc.fdsIn == old(p.rpc.fdsIn)[index.value := None]
  {
    hide Contents, DecI32, Sorted;
    var present := p.ReadI32();
    if present.Err? {
      return Err(present.status);
    }
    if present.value == 0 {
      return Ok(None);
    }
    if !p.rpc.unixFds {
      return Err(BadType);
    }
    if p.rpc.recordFds {
      var hasComm := p.ReadI32();
      if hasComm.Err? {
        return Err(hasComm.status);
      }
      if hasComm.value != 0 {
        return Err(BadValue);
      }
      var known := p.rpc.ObjectPositionPresent(p.pos);
      if !known {
        return Err(BadType);
      }
      var ty := p.ReadI32();
      if ty.Err? {
        return Err(ty.status);
      }
      if ty.value != TYPE_NATIVE_FILE_DESCRIPTOR {
        return Err(BadType);
      }
    }
    var index := p.ReadI32();
    if index.Err? {
      return Err(index.status);
    }
    if index.value < 0 {
      return Err(BadValue);
    }
    var fd := p.rpc.TakeInFd(index.value);
    r := if fd.Some? then Ok(fd) else Err(BadValue);
  }

  // ----- sequences of descriptors and plain values -----

  datatype Item = Absent | Present(fd: nat) | Plain(bytes: seq<byte>)

  /** What a sender has produced so far. */
  datatype Sent = Sent(data: seq<byte>, positions: seq<nat>, fds: seq<nat>)

  ghost function Send(s: Sent, record: bool, item: Item): Sent
    requires |s.fds| < I32_MAX
  {
    match item
    case Absent => s.(data := s.data + EncI32(0))
    case Plain(b) => s.(data := s.data + Padded(b))
    case Present(fd) =>
      Sent(s.data + FdBody(record, |s.fds|),
           if record then Inserted(s.positions, |s.data| + 8) else s.positions,
           s.fds + [fd])
  }

  ghost function SendAll(s: Sent, record: bool, items: seq<Item>): Sent
    requires |s.fds| + |items| < I32_MAX
    decreases items
  {
    if items == [] then s else SendAll(Send(s, record, items[0]), record, items[1..])
  }

  /** The offsets of the type words of the present descriptors, in the order written. */
  ghost function TypeOffsets(pos: nat, record: bool, items: seq<Item>): seq<nat>
    decreases items
  {
    if items == [] then []
    else Marks(pos, record, items[0]) + TypeOffsets(pos + Extent(record, items[0]), record, items[1..])
  }

  /** The offset of the type word of one item, if it has one. */
  function Marks(pos: nat, record: bool, item: Item): seq<nat> {
    if item.Present? && record then [pos + 8] else []
  }

  function Extent(record: bool, item: Item): nat {
    match item
    case Absent => 4
    case Plain(b) => PadSize(|b|)
    case Present(_) => if record then 16 else 8
  }

  lemma {:induction false} InsertedLast(s: seq<nat>, x: nat)
    requires forall i :: 0 <= i < |s| ==> s[i] <= x
    ensures Inserted(s, x) == s + [x]
  {
    if s != [] {
      InsertedLast(s[1..], x);
    }
  }

  /** The position table is exactly the type offsets, in ascending order. */
  lemma SendPosition(s: Sent, record: bool, item: Item)
    requires |s.fds| < I32_MAX && forall i :: 0 <= i < |s.positions| ==> s.positions[i] < |s.data|
    ensures var t := Send(s, record, item);
            && |t.fds| <= |s.fds| + 1
            && |t.data| == |s.data| + Extent(record, item)
            && t.positions == s.positions + Marks(|s.data|, record, item)
            && forall i :: 0 <= i < |t.positions| ==> t.positions[i] < |t.data|
  {
    hide EncI32, Padded;
    if item.Present? && record {
      InsertedLast(s.positions, |s.data| + 8);
    }
  }

  lemma {:induction false} PositionsAreTypeOffsets(s: Sent, record: bool, items: seq<Item>)
    requires |s.fds| + |items| < I32_MAX
    requires forall i :: 0 <= i < |s.positions| ==> s.positions[i] < |s.data|
    ensures SendAll(s, record, items).positions == s.positions + TypeOffsets(|s.data|, record, items)
    decreases items
  {
    hide Send, Marks, Extent;
    if items != [] {
      var t := Send(s, record, items[0]);
      SendPosition(s, record, items[0]);
      PositionsAreTypeOffsets(t, record, items[1..]);
      Regroup(s.positions, Marks(|s.data|, record, items[0]), TypeOffsets(|t.data|, record, items[1..]));
    }
  }

  lemma {:induction false} TypeOffsetsAscend(pos: nat, record: bool, items: seq<Item>)
    ensures Sorted(TypeOffsets(pos, record, items))
    ensures forall i :: 0 <= i < |TypeOffsets(pos, record, items)| ==> pos <= TypeOffsets(pos, record, items)[i]
    decreases items
  {
    if items != [] {
      TypeOffsetsAscend(pos + Extent(record, items[0]), record, items[1..]);
    }
  }

  // ----- the receiver -----

  /** The slots that are left once the first `k` descriptors have been taken. */
  function SlotsFrom(fds: seq<nat>, k: nat): (r: Slots)
    ensures |r| == |fds| && forall i :: 0 <= i < |r| ==> r[i] == if i < k then None else Some(fds[i])
  {
    seq(|fds|, i requires 0 <= i < |fds| => if i < k then None else Some(fds[i]))
  }

  /** Read items of the same shapes as `items`. */
  function Receive(data: seq<byte>, pos: nat, record: bool, positions: seq<nat>, slots: Slots, items: seq<Item>): (r: Result<(seq<Item>, nat, Slots)>)
    decreases items
  {
    if items == [] then Ok(([], pos, slots))
    else if items[0].Plain? then
      var b :- ReadAligned(data, pos, |items[0].bytes|);
      var (rest, next, left) :- Receive(data, pos + PadSize(|items[0].bytes|), record, positions, slots, items[1..]);
      Ok(([Plain(b)] + rest, next, left))
    else
      var (fd, p, s) :- ReadFd(data, pos, true, record, positions, slots);
      var (rest, next, left) :- Receive(data, p, record, positions, s, items[1..]);
      Ok(([if fd.Some? then Present(fd.value) else Absent] + rest, next, left))
  }

  lemma {:induction false} SendAllExtends(s: Sent, record: bool, items: seq<Item>)
    requires |s.fds| + |items| < I32_MAX
    ensures var t := SendAll(s, record, items);
            s.data <= t.data && s.fds <= t.fds && |t.fds| <= |s.fds| + |items|
    decreases items
  {
    hide EncI32, Padded, FdBody, Inserted;
    if items != [] {
      SendAllExtends(Send(s, record, items[0]), record, items[1..]);
    }
  }

  lemma ReadFdBack(data: seq<byte>, pos: nat, record: bool, positions: seq<nat>, slots: Slots, index: i32)
    requires Holds(data, pos, FdBody(record, index))
    requires record ==> pos + 8 in positions
    requires 0 <= index < |slots| && slots[index].Some?
    ensures ReadFd(data, pos, true, record, positions, slots) ==
            Ok((slots[index], pos + |FdBody(record, index)|, slots[index := None]))
  {
    hide EncI32, DecI32, ReadI32;
    if record {
      var t := EncI32(TYPE_NATIVE_FILE_DESCRIPTOR);
      HoldsSplit(data, pos, EncI32(1), EncI32(0) + (t + EncI32(index)));
      HoldsSplit(data, pos + 4, EncI32(0), t + EncI32(index));
      HoldsSplit(data, pos + 8, t, EncI32(index));
      ReadWord(data, pos + 4, 0);
      ReadWord(data, pos + 8, TYPE_NATIVE_FILE_DESCRIPTOR);
      ReadWord(data, pos + 12, index);
    } else {
      HoldsSplit(data, pos, EncI32(1), EncI32(index));
      ReadWord(data, pos + 4, index);
    }
    ReadWord(data, pos, 1);
  }

  /** One item: what was sent from `s` is read back from the final bytes. */
  lemma ItemBack(s: Sent, record: bool, item: Item, t: Sent)
    requires |s.fds| < I32_MAX && Send(s, record, item).data <= t.data && |t.data| < I32_MAX
    requires Send(s, record, item).fds <= t.fds
    requires item.Present? && record ==> |s.data| + 8 in t.positions
    ensures match item
            case Plain(b) => ReadAligned(t.data, |s.data|, |b|) == Ok(b)
            case Absent =>
              ReadFd(t.data, |s.data|, true, record, t.positions, SlotsFrom(t.fds, |s.fds|)) ==
              Ok((None, |s.data| + 4, SlotsFrom(t.fds, |s.fds|)))
            case Present(fd) =>
              ReadFd(t.data, |s.data|, true, record, t.positions, SlotsFrom(t.fds, |s.fds|)) ==
              Ok((Some(fd), |s.data| + |FdBody(record, |s.fds|)|, SlotsFrom(t.fds, |s.fds| + 1)))
  {
    hide EncI32, DecI32, FdBody, ReadFd, Inserted;
    match item
    case Plain(b) =>
      assert t.data[|s.data|..|s.data| + |b|] == Padded(b)[..|b|];
    case Absent =>
      assert Holds(t.data, |s.data|, EncI32(0));
      ReadWord(t.data, |s.data|, 0);
      ReadAbsent(t.data, |s.data|, record, t.positions, SlotsFrom(t.fds, |s.fds|));
    case Present(fd) =>
      var slots := SlotsFrom(t.fds, |s.fds|);
      assert Holds(t.data, |s.data|, FdBody(record, |s.fds|));
      ReadFdBack(t.data, |s.data|, record, t.positions, slots, |s.fds|);
      assert slots[|s.fds| := None] == SlotsFrom(t.fds, |s.fds| + 1);
  }

  lemma ReadAbsent(data: seq<byte>, pos: nat, record: bool, positions: seq<nat>, slots: Slots)
    requires ReadI32(data, pos) == Ok(0)
    ensures ReadFd(data, pos, true, record, positions, slots) == Ok((None, pos + 4, slots))
  {
  }

  /** Any sequence of null and present descriptors between plain values: the receiver
      pairs each present entry with the descriptor sent there and every slot ends empty. */
  lemma {:induction false} DescriptorsRoundTrip(s: Sent, record: bool, items: seq<Item>)
    requires |s.fds| + |items| < I32_MAX
    requires forall i :: 0 <= i < |s.positions| ==> s.positions[i] < |s.data|
    requires |SendAll(s, record, items).data| < I32_MAX
    ensures var t := SendAll(s, record, items);
            Receive(t.data, |s.data|, record, t.positions, SlotsFrom(t.fds, |s.fds|), items) ==
            Ok((items, |t.data|, SlotsFrom(t.fds, |t.fds|)))
    decreases items
  {
    hide EncI32, FdBody, ReadFd, ReadAligned, Padded, SlotsFrom, Inserted;
    var t := SendAll(s, record, items);
    if items != [] {
      var m := Send(s, record, items[0]);
      SendAllExtends(m, record, items[1..]);
      if items[0].Present? && record {
        PositionsAreTypeOffsets(s, record, items);
        assert |s.data| + 8 in TypeOffsets(|s.data|, record, items);
        InsertedLast(s.positions, |s.data| + 8);
      }
      ItemBack(s, record, items[0], t);
      DescriptorsRoundTrip(m, record, items[1..]);
      assert [items[0]] + items[1..] == items;
    }
  }

  // ----- arbitrary input -----

  function Remaining(slots: Slots): multiset<nat>
  {
    if slots == [] then multiset{}
    else (if slots[0].Some? then multiset{slots[0].value} else multiset{}) + Remaining(slots[1..])
  }

  lemma {:induction false} RemainingTake(slots: Slots, i: nat)
    requires i < |slots| && slots[i].Some?
    ensures Remaining(slots) == Remaining(slots[i := None]) + multiset{slots[i].value}
  {
    if i > 0 {
      RemainingTake(slots[1..], i - 1);
      assert slots[i := None][1..] == slots[1..][i - 1 := None];
    } else {
      assert slots[0 := None][1..] == slots[1..];
    }
  }

  /** Read at each of `at`, ignoring failures: the descriptors handed out and the slots left. */
  function ReadMany(data: seq<byte>, at: seq<nat>, unix: bool, record: bool, positions: seq<nat>, slots: Slots): (r: (seq<nat>, Slots))
    decreases at
  {
    if at == [] then ([], slots)
    else
      match ReadFd(data, at[0], unix, record, positions, slots)
      case Err(_) => ReadMany(data, at[1..], unix, record, positions, slots)
      case Ok((fd, _, left)) =>
        var (rest, end) := ReadMany(data, at[1..], unix, record, positions, left);
        (if fd.Some? then [fd.value] + rest else rest, end)
  }

  /** On any bytes, any table and any reads, what was received is what was handed out
      plus what is left: no descriptor is handed out twice. */
  lemma {:induction false} NoDescriptorTwice(data: seq<byte>, at: seq<nat>, unix: bool, record: bool, positions: seq<nat>, slots: Slots)
    ensures var (handed, left) := ReadMany(data, at, unix, record, positions, slots);
            Remaining(slots) == multiset(handed) + Remaining(left)
    decreases at
  {
    hide ReadI32, Remaining;
    if at != [] {
      match ReadFd(data, at[0], unix, record, positions, slots)
      case Err(_) => NoDescriptorTwice(data, at[1..], unix, record, positions, slots);
      case Ok((fd, _, left)) =>
        NoDescriptorTwice(data, at[1..], unix, record, positions, left);
        TakenOnce(data, at[0], unix, record, positions, slots);
    }
  }

  lemma TakenOnce(data: seq<byte>, pos: nat, unix: bool, record: bool, positions: seq<nat>, slots: Slots)
    requires ReadFd(data, pos, unix, record, positions, slots).Ok?
    ensures var (fd, _, left) := ReadFd(data, pos, unix, record, positions, slots).value;
            Remaining(slots) == Remaining(left) + if fd.Some? then multiset{fd.value} else multiset{}
  {
    hide ReadI32, Remaining;
    var r := ReadFd(data, pos, unix, record, positions, slots).value;
    if r.0.Some? {
      var i: nat :| i < |slots| && slots[i] == r.0 && r.2 == slots[i := None];
      RemainingTake(slots, i);
    }
  }
}
