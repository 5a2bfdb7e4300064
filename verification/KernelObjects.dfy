/** Objects written to a kernel parcel and read back: which entries there are, when a write
    succeeds, and what every read finds. */
module KernelObjects {
  import opened Wire
  import opened Rpc
  import opened Objects
  import opened Ownership
  import opened Parcels
  import opened Versions

  /** An object the process can count a reference for: its own binder, a descriptor, or a
      handle with a live proxy. */
  predicate Countable(f: Flat, a: Answer) {
    f.kind == BINDER_TYPE_BINDER || f.kind == BINDER_TYPE_FD || (f.kind == BINDER_TYPE_HANDLE && a.proxy)
  }

  /** A null binder gets no entry. */
  predicate Listed(f: Flat, nullMeta: bool) {
    nullMeta || f.binder != 0
  }

  /** A written object is found at its place with the fields it was given; its entry is there
      exactly when the write succeeded and the object is not a null binder. */
  lemma WrittenObject(p: State, f: Flat, nullMeta: bool, a: Answer, l: Ledger)
    requires p.Good() && p.TableEnd() <= p.pos && f.Fits()
    ensures var o := WriteObject(p, f, nullMeta, a, l);
            if p.pos + FLAT_SIZE > I32_MAX then o == Effect(p, l, Err(BadValue))
            else
              && o.state.Good() && o.state.pos == p.pos + FLAT_SIZE <= |o.state.data|
              && |o.state.data| == (if p.pos + FLAT_SIZE > |p.data| then p.pos + FLAT_SIZE else |p.data|)
              && o.state.data == Overlay(p.data, p.pos, EncFlat(f)) && At(o.state.data, p.pos) == f
              && o.status == (if !Listed(f, nullMeta) || Countable(f, a) then Ok(())
                              else Err(if f.kind == BINDER_TYPE_HANDLE then OsError else InvalidOperation))
              && o.state.objects == p.objects + if Listed(f, nullMeta) && Countable(f, a) then [p.pos] else []
  {
    hide Overlay, EncFlat, DecFlat, HeldAt, State.Good, State.Held;
    var w := Write(p, EncFlat(f));
    if w.Ok? {
      WriteNeutral(p, EncFlat(f));
      FlatRoundTrip(f);
      assert At(w.value.data, p.pos) == f;
      CommitEntry(w.value, p.pos);
      assert EncFlat(f) + Zeros(0) == EncFlat(f);
    }
  }

  lemma GoodIsSorted(p: State)
    requires p.Good()
    ensures Sorted(p.objects)
  {
  }

  lemma NotYetListed(p: State)
    requires p.Good() && p.TableEnd() <= p.pos
    ensures p.pos !in p.objects
  {
  }

  /** Write, then read at the same place, from whatever hint the parcel has: the object comes
      back, except one without an entry that is not all null. */
  method WriteThenRead(p: Parcel, f: Flat, nullMeta: bool, a: Answer, process: Process) returns (w: Result<()>, r: Result<Flat>)
    requires p.Valid() && p.rpc == null && p.View().Good() && p.View().TableEnd() <= p.pos && f.Fits() && p.len < I32_MAX
    modifies p`mem, p`len, p`pos, p`objects, p`hint, process
    ensures p.Valid()
    ensures w == (if old(p.pos) + FLAT_SIZE > I32_MAX then Err(BadValue)
                  else if !Listed(f, nullMeta) || Countable(f, a) then Ok(())
                  else Err(if f.kind == BINDER_TYPE_HANDLE then OsError else InvalidOperation))
    ensures w.Ok? ==> r == (if Listed(f, nullMeta) || f.cookie == 0 then Ok(f) else Err(BadType)) && p.pos == old(p.pos) + FLAT_SIZE
  {
    hide Contents, EncFlat, DecFlat, State.Good, Objects.WriteObject, Overlay, Sorted, State.TableEnd, Countable;
    WrittenObject(p.View(), f, nullMeta, a, process.ledger);
    NotYetListed(p.View());
    var at := p.pos;
    w := p.WriteObject(f, nullMeta, a, process);
    r := Err(BadType);
    if w.Ok? {
      GoodIsSorted(p.View());
      p.SetDataPosition(at);
      assert Listed(f, nullMeta) ==> p.objects[|p.objects| - 1] == at;
      r := p.ReadObject(nullMeta);
    }
  }

  // ----- descriptors -----

  /** `serialize` of a present descriptor into a kernel parcel. */
  method WriteDescriptor(p: Parcel, a: Answer, process: Process) returns (r: Result<()>)
    requires p.Valid() && p.rpc == null
    modifies p`mem, p`len, p`pos, p`objects, process
    ensures p.Valid()
    ensures Effect(p.View(), process.ledger, r) == WriteFd(old(p.View()), a, old(process.ledger))
  {
    hide Contents, Overlay, EncI32, Objects.WriteObject;
    WordWritten(p.View(), 1);
    hide Write, Ledger.Add, Ledger.Remove;
    r := p.WriteI32(1);
    if r.Err? {
      return;
    }
    if a.dup.None? {
      return Err(OsError);
    }
    var mine := multiset{Fd(a.dup.value)};
    process.ledger := process.ledger.Add(mine);
    r := WriteDuplicate(p, a, process);
    if r.Err? {
      process.ledger := process.ledger.Remove(mine);
    }
  }

  /** The second marker and the object. */
  method WriteDuplicate(p: Parcel, a: Answer, process: Process) returns (r: Result<()>)
    requires p.Valid() && p.rpc == null && a.dup.Some?
    modifies p`mem, p`len, p`pos, p`objects, process
    ensures p.Valid()
    ensures Effect(p.View(), process.ledger, r) ==
            match Write(old(p.View()), EncI32(0))
            case Err(s) => Effect(old(p.View()), old(process.ledger), Err(s))
            case Ok(q) => Objects.WriteObject(q, Flat(BINDER_TYPE_FD, 0, a.dup.value, 1), true, a, old(process.ledger))
  {
    hide Contents, Overlay, EncI32, Objects.WriteObject;
    WordWritten(p.View(), 0);
    hide Write;
    r := p.WriteI32(0);
    if r.Ok? {
      r := p.WriteObject(Flat(BINDER_TYPE_FD, 0, a.dup.value, 1), true, a, process);
    }
  }

  /** `deserialize_option` from a kernel parcel: the descriptor the object names, of which the
      caller is handed a duplicate when `dup` succeeds. */
  method ReadDescriptor(p: Parcel, dups: bool) returns (r: Result<Option<nat>>)
    requires p.Valid() && p.rpc == null
    modifies p`pos, p`hint
    ensures match ReadI32(p.Bytes(), old(p.pos))
            case Err(e) => r == Err(e)
            case Ok(0) => r == Ok(None) && p.pos == old(p.pos) + 4
            case Ok(_) =>
              match ReadI32(p.Bytes(), old(p.pos) + 4)
              case Err(e) => r == Err(e)
              case Ok(comm) =>
                match ReadAligned(p.Bytes(), old(p.pos) + 8, FLAT_SIZE)
                case Err(e) => r == Err(e)
                case Ok(b) =>
                  && (old(p.pos) + 8 !in p.objects || DecFlat(b).kind != BINDER_TYPE_FD ==> r == Err(BadType))
                  && (old(p.pos) + 8 in p.objects && Sorted(p.objects) && DecFlat(b).kind == BINDER_TYPE_FD && comm == 0 ==>
                        && r == (if dups then Ok(Some(DecFlat(b).Handle())) else Err(OsError))
                        && p.pos == old(p.pos) + 8 + FLAT_SIZE)
                  && (r.Ok? ==> dups && r.value == Some(DecFlat(b).Handle()))
                  && (r.Ok? && comm != 0 ==>
                        var second := ReadAligned(p.Bytes(), old(p.pos) + 8 + FLAT_SIZE, FLAT_SIZE);
                        && second.Ok? && DecFlat(second.value).kind == BINDER_TYPE_FD
                        && old(p.pos) + 8 + FLAT_SIZE in p.objects && p.pos == old(p.pos) + 8 + 2 * FLAT_SIZE)
  {
    hide Contents, DecI32, DecFlat, Sorted;
    var present := p.ReadI32();
    if present.Err? {
      return Err(present.status);
    }
    if present.value == 0 {
      return Ok(None);
    }
    var hasComm := p.ReadI32();
    if hasComm.Err? {
      return Err(hasComm.status);
    }
    var obj := p.ReadObject(true);
    if obj.Err? {
      return Err(obj.status);
    }
    if obj.value.kind != BINDER_TYPE_FD {
      return Err(BadType);
    }
    if !dups {
      return Err(OsError);
    }
    if hasComm.value != 0 {
      var comm := p.ReadObject(true);
      if comm.Err? {
        return Err(comm.status);
      }
      if comm.value.kind != BINDER_TYPE_FD {
        return Err(BadType);
      }
    }
    r := Ok(Some(obj.value.Handle()));
  }

  /** What a descriptor looks like: present, no second channel, and the object that owns it. */
  function FdBytes(n: nat): (s: seq<byte>)
    ensures |s| == 8 + FLAT_SIZE
  {
    EncI32(1) + EncI32(0) + EncFlat(Flat(BINDER_TYPE_FD, 0, n, 1))
  }

  /** The markers and the object of a descriptor, when there is room and a duplicate. */
  lemma WrittenFd(p: State, a: Answer, l: Ledger)
    requires p.Good() && p.TableEnd() <= p.pos && (a.dup.Some? ==> a.dup.value < 0x8000_0000)
    ensures var o := WriteFd(p, a, l);
            && o.status == (if p.pos + 4 > I32_MAX then Err(BadValue) else if a.dup.None? then Err(OsError)
                            else if p.pos + 8 + FLAT_SIZE > I32_MAX then Err(BadValue) else Ok(()))
            && (o.status.Ok? ==>
                  && o.state.Good() && o.state.objects == p.objects + [p.pos + 8]
                  && o.state.pos == p.pos + 8 + FLAT_SIZE <= |o.state.data|
                  && |o.state.data| == (if p.pos + 8 + FLAT_SIZE > |p.data| then p.pos + 8 + FLAT_SIZE else |p.data|)
                  && o.state.data == Overlay(p.data, p.pos, FdBytes(a.dup.value)))
  {
    hide Overlay, EncI32, EncFlat, DecFlat, Objects.WriteObject, State.Good, State.Held, HeldAt;
    WordAfter(p, 1);
    if p.pos + 4 <= I32_MAX && a.dup.Some? {
      MarkersAfter(p);
      hide Write, State.TableEnd;
      if p.pos + 8 <= I32_MAX {
        var p2 := Write(Write(p, EncI32(1)).value, EncI32(0)).value;
        var f := Flat(BINDER_TYPE_FD, 0, a.dup.value, 1);
        WrittenObject(p2, f, true, a, l.Add(multiset{Fd(a.dup.value)}));
        OverlayAppend(p.data, p.pos, EncI32(1) + EncI32(0), EncFlat(f));
      }
    }
  }

  lemma MarkersAfter(p: State)
    requires p.Good() && p.TableEnd() <= p.pos && Write(p, EncI32(1)).Ok?
    ensures var w := Write(Write(p, EncI32(1)).value, EncI32(0));
            if p.pos + 8 > I32_MAX then w == Err(BadValue)
            else
              && w.Ok? && w.value == p.(data := Overlay(p.data, p.pos, EncI32(1) + EncI32(0)), pos := p.pos + 8)
              && w.value.Good() && w.value.TableEnd() <= w.value.pos
  {
    hide Overlay, EncI32, State.Good;
    WordAfter(p, 1);
    WordAfter(Write(p, EncI32(1)).value, 0);
    hide Write, State.TableEnd;
    OverlayAppend(p.data, p.pos, EncI32(1), EncI32(0));
  }

  /** A word written after the table leaves the table as it was. */
  lemma WordAfter(p: State, v: i32)
    requires p.Good() && p.TableEnd() <= p.pos
    ensures if p.pos + 4 > I32_MAX then Write(p, EncI32(v)) == Err(BadValue)
            else
              && Write(p, EncI32(v)) == Ok(p.(data := Overlay(p.data, p.pos, EncI32(v)), pos := p.pos + 4))
              && var q := Write(p, EncI32(v)).value; q.Good() && q.TableEnd() <= q.pos
  {
    hide Overlay, EncI32, State.Good, State.Held, HeldAt;
    WordWritten(p, v);
    if p.pos + 4 <= I32_MAX {
      WriteNeutral(p, EncI32(v));
    }
  }

  lemma FdBytesBack(data: seq<byte>, pos: nat, n: nat)
    requires Holds(data, pos, FdBytes(n)) && n < 0x8000_0000
    ensures ReadI32(data, pos) == Ok(1) && ReadI32(data, pos + 4) == Ok(0)
    ensures ReadAligned(data, pos + 8, FLAT_SIZE) == Ok(EncFlat(Flat(BINDER_TYPE_FD, 0, n, 1)))
    ensures DecFlat(EncFlat(Flat(BINDER_TYPE_FD, 0, n, 1))) == Flat(BINDER_TYPE_FD, 0, n, 1)
  {
    hide EncI32, EncFlat, DecFlat, ReadI32;
    var f := Flat(BINDER_TYPE_FD, 0, n, 1);
    HoldsSplit(data, pos, EncI32(1) + EncI32(0), EncFlat(f));
    HoldsSplit(data, pos, EncI32(1), EncI32(0));
    ReadWord(data, pos, 1);
    ReadWord(data, pos + 4, 0);
    FlatRoundTrip(f);
  }

  lemma OverlayHolds(data: seq<byte>, pos: nat, e: seq<byte>)
    requires |data| < I32_MAX && |e| < I32_MAX
    ensures Holds(Overlay(data, pos, e), pos, e)
  {
  }

  /** A descriptor written and read back: the same descriptor, from whatever hint, with the
      cursor after it; the write succeeds exactly when there is room and a duplicate. */
  method DescriptorBack(p: Parcel, a: Answer, process: Process) returns (w: Result<()>, r: Result<Option<nat>>)
    requires p.Valid() && p.rpc == null && p.View().Good() && p.View().TableEnd() <= p.pos && p.len < I32_MAX
    requires a.dup.Some? ==> a.dup.value < 0x8000_0000
    modifies p`mem, p`len, p`pos, p`objects, p`hint, process
    ensures p.Valid() && (w.Ok? <==> a.dup.Some? && old(p.pos) + 8 + FLAT_SIZE <= I32_MAX)
    ensures w.Ok? ==> r == Ok(a.dup) && p.pos == old(p.pos) + 8 + FLAT_SIZE
  {
    hide Contents, Overlay, EncI32, EncFlat, DecFlat, State.Good, WriteFd, Holds, FdBytes;
    WrittenFd(p.View(), a, process.ledger);
    ghost var before := p.Bytes();
    var at := p.pos;
    w := WriteDescriptor(p, a, process);
    r := Err(BadType);
    if w.Ok? {
      GoodIsSorted(p.View());
      OverlayHolds(before, at, FdBytes(a.dup.value));
      FdBytesBack(p.Bytes(), at, a.dup.value);
      p.SetDataPosition(at);
      assert p.objects[|p.objects| - 1] == at + 8;
      r := ReadDescriptor(p, true);
    }
  }
}
