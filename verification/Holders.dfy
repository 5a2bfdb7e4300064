/** `ParcelableHolder`: empty, holding a live value, or holding the bytes of a value
    that nobody has asked for yet. */
module Holders {
  import opened Wire
  import opened Objects
  import opened Parcels
  import opened Stable
  import opened Versions
  import opened Generated
  import Ownership
  import HolderRuns

  /** A parcelable type as a caller names it: its descriptor and its entry in the schema. */
  datatype TypeId = TypeId(descriptor: seq<nat>, name: string)

  datatype Holding =
    | Empty
    | Live(ty: TypeId, fields: seq<Value>)
    | Lazy(bytes: seq<byte>)

  /** How far a parcelable may travel. */
  datatype Stability = Local | Vendor | System | Vintf {
    function Level(): bv8 {
      match this
      case Local => 0
      case Vendor => 3
      case System => 12
      case Vintf => 63
    }

    /** `includes`: the required level's bits are all provided. */
    predicate Includes(required: Stability)
      ensures Includes(required) <==> this == required || this.Vintf? || required.Local?
    {
      Level() & required.Level() == required.Level()
    }

    /** What a holder writes for its own stability. */
    function Repr(): i32 {
      if this.Vintf? then 1 else 0
    }
  }

  // ----- as bytes -----

  ghost predicate WellTyped(s: Schema, c: Holding) {
    c.Live? ==>
      && c.ty.name in s.types && TypedAll(s, TypesOf(s.types[c.ty.name]), c.fields)
      && ValidUtf16(c.ty.descriptor) && |c.ty.descriptor| < I32_MAX
  }

  /** The descriptor and the block of a live value; a lazy holder already has them. */
  ghost function Payload(s: Schema, c: Holding): seq<byte>
    requires WellTyped(s, c)
  {
    match c
    case Empty => []
    case Live(ty, fs) => EncText(ty.descriptor) + EncBlock(s, TypesOf(s.types[ty.name]), fs)
    case Lazy(b) => b
  }

  ghost function EncHolder(s: Schema, stability: i32, c: Holding): seq<byte>
    requires WellTyped(s, c)
  {
    var p := Payload(s, c);
    EncI32(stability) + (Word(|p|) + p)
  }

  /** `read_from_parcel` over a buffer without objects. */
  function ReadHolder(data: seq<byte>, pos: nat, stability: i32): (r: Result<(Holding, nat)>)
  {
    var size :- ReadHead(data, pos, stability);
    if size == 0 then Ok((Empty, pos + 8))
    else if pos + 8 + size > |data| then Err(BadValue)
    else Ok((Lazy(data[pos + 8..pos + 8 + size]), pos + 8 + size))
  }

  /** The stability, which must be the holder's own, and the size of the payload. */
  function ReadHead(data: seq<byte>, pos: nat, stability: i32): (r: Result<nat>)
  {
    var wire :- ReadI32(data, pos);
    if wire != stability then Err(BadValue)
    else
      var size :- ReadI32(data, pos + 4);
      if size < 0 then Err(BadValue) else Ok(size)
  }

  /** What the system answers for the objects of a range, in order. */
  function Asked(objects: seq<nat>, offset: nat, size: nat, os: nat -> Answer): (a: seq<Answer>)
    ensures |a| == |Selected(objects, offset, size)|
  {
    seq(|Selected(objects, offset, size)|, os)
  }

  /** `get_parcelable`: the answer, and the contents afterwards. */
  function Get(s: Schema, c: Holding, ty: TypeId): (r: (Result<Option<Value>>, Holding))
  {
    match c
    case Empty => (Ok(None), c)
    case Live(t, fs) => (if t == ty then Ok(Some(Record(fs))) else Err(BadValue), c)
    case Lazy(b) =>
      match ReadText(s.usizeMax, b, 0)
      case Err(e) => (Err(e), c)
      case Ok((None, _)) => (Err(UnexpectedNull), c)
      case Ok((Some(name), next)) =>
        if name != ty.descriptor then (Ok(None), c)
        else match ReadBlock(s, ty.name, b, next, 0)
             case Err(e) => (Err(e), c)
             case Ok((v, _)) => (Ok(Some(v)), Live(ty, v.fields))
  }

  /** What a written holder becomes when it is read: the payload, untouched. */
  ghost function Received(s: Schema, c: Holding): Holding
    requires WellTyped(s, c)
  {
    if Payload(s, c) == [] then Empty else Lazy(Payload(s, c))
  }

  /** What a header is accepted for: the holder's own stability and a size that is not negative. */
  lemma HeadExact(data: seq<byte>, pos: nat, stability: i32, wire: i32, size: i32)
    requires ReadI32(data, pos) == Ok(wire) && ReadI32(data, pos + 4) == Ok(size)
    ensures ReadHead(data, pos, stability) == if wire == stability && size >= 0 then Ok(size) else Err(BadValue)
  {
  }

  /** A written holder is read into its lazy form, the cursor stops after it, and the
      lazy form forwards byte for byte. */
  lemma HolderForwards(s: Schema, stability: i32, c: Holding, data: seq<byte>, pos: nat)
    requires WellTyped(s, c) && Holds(data, pos, EncHolder(s, stability, c))
    ensures ReadHolder(data, pos, stability) == Ok((Received(s, c), pos + |EncHolder(s, stability, c)|))
    ensures EncHolder(s, stability, Received(s, c)) == EncHolder(s, stability, c)
  {
    hide EncI32, DecI32, EncText, EncBlock, ReadI32;
    var p := Payload(s, c);
    HoldsSplit(data, pos, EncI32(stability), Word(|p|) + p);
    HoldsSplit(data, pos + 4, Word(|p|), p);
    ReadWord(data, pos, stability);
    ReadWord(data, pos + 4, |p|);
  }

  /** The matching type gets the value back (converted to its own version), and a lookup
      for any other descriptor answers "none" and changes nothing. */
  lemma LookupOnReceived(w: Schema, r: Schema, c: Holding, ty: TypeId)
    requires Compatible(w, r) && c.Live? && WellTyped(w, c) && c.ty.name in r.types
    requires |Payload(w, c)| < I32_MAX
    requires ty.descriptor == c.ty.descriptor ==> ty == c.ty
    ensures var (answer, after) := Get(r, Received(w, c), ty);
            if ty != c.ty then answer == Ok(None) && after == Received(w, c)
            else if 1 + NeedFields(w, r, r.types[ty.name], c.fields) <= MAX_NESTED_READ_DEPTH then
              && answer == Ok(Some(Record(ProjectFields(w, r, r.types[ty.name], c.fields))))
              && after == Live(ty, ProjectFields(w, r, r.types[ty.name], c.fields))
            else answer == Err(BadValue) && after == Received(w, c)
  {
    hide EncText, EncBlock, ReadText, ReadBlock, TypedAll, ProjectFields, NeedFields, ValidUtf16;
    var b := Payload(w, c);
    var block := EncBlock(w, TypesOf(w.types[c.ty.name]), c.fields);
    assert b[0..|b|] == b;
    HoldsSplit(b, 0, EncText(c.ty.descriptor), block);
    ReadTextBack(r.usizeMax, b, 0, c.ty.descriptor);
    BlockBack(w, r, c.ty.name, c.fields, b, |EncText(c.ty.descriptor)|, 0);
  }

  /** A run of lookups, left to right. */
  function GetAll(s: Schema, c: Holding, tys: seq<TypeId>): Holding
    decreases tys
  {
    if tys == [] then c else GetAll(s, Get(s, c, tys[0]).1, tys[1..])
  }

  /** Any number of lookups for other types leaves the lazy form as it was, so a later
      matching lookup and forwarding are unaffected. */
  lemma {:induction false} WrongLookupsHarmless(w: Schema, r: Schema, c: Holding, tys: seq<TypeId>)
    requires Compatible(w, r) && c.Live? && WellTyped(w, c) && c.ty.name in r.types
    requires |Payload(w, c)| < I32_MAX
    requires forall t <- tys :: t.descriptor != c.ty.descriptor
    ensures GetAll(r, Received(w, c), tys) == Received(w, c)
    decreases tys
  {
    hide Get, Received, Compatible, WellTyped, Payload, ProjectFields, NeedFields;
    if tys != [] {
      assert tys[0] in tys;
      LookupOnReceived(w, r, c, tys[0]);
      WrongLookupsHarmless(w, r, c, tys[1..]);
    }
  }

  // ----- the object -----

  function TwoWords(p: State, a: i32, b: i32): (r: Result<State>)
  {
    var q :- Write(p, EncI32(a));
    Write(q, EncI32(b))
  }

  class ParcelableHolder {
    const level: Stability
    const stability: i32 := level.Repr()
    var live: Holding
    var inner: Parcel?

    ghost predicate Valid()
      reads this, inner
    {
      && !live.Lazy?
      && (inner != null ==> live.Empty? && Kept(inner))
    }

    /** What holds of the parcel of a lazy holder. */
    static ghost predicate Kept(p: Parcel)
      reads p
    {
      p.Valid() && p.View().Good() && p.pos <= p.len && 0 < p.len <= I32_MAX && p.rpc == null && p.depth == 0
    }

    ghost function View(): Holding
      requires Valid()
      reads this, inner
    {
      if inner != null then Lazy(inner.Bytes()) else live
    }

    /** The parcel of a lazy holder, and an empty one otherwise: what goes when the contents go. */
    ghost function Slot(): State
      reads this, inner
      requires Valid()
    {
      if inner != null then inner.View() else State([], 0, [])
    }

    constructor (level: Stability)
      ensures Valid() && View() == Empty && this.level == level && inner == null
    {
      this.level, live, inner := level, Empty, null;
    }

    /** New contents in place of the old: a lazy holder's parcel is dropped, which gives back
        the references it owns. */
    method Replace(live': Holding, inner': Parcel?, process: Process)
      requires Valid() && !live'.Lazy? && (inner' != null ==> live'.Empty? && Kept(inner'))
      modifies this, process
      ensures live == live' && inner == inner' && Valid()
      ensures process.ledger == Objects.Release(old(Slot()).data, old(Slot()).objects, old(process.ledger))
    {
      hide Parcels.Contents;
      if inner != null {
        inner.ReleaseObjects(process);
      }
      live, inner := live', inner';
    }

    method Reset(process: Process)
      requires Valid()
      modifies this, process
      ensures Valid() && View() == Empty
      ensures process.ledger == Objects.Release(old(Slot()).data, old(Slot()).objects, old(process.ledger))
    {
      Replace(Empty, null, process);
    }

    /** A value may be held exactly if its own stability includes the holder's. */
    method SetParcelable(own: Stability, ty: TypeId, fields: seq<Value>, process: Process) returns (r: Result<()>)
      requires Valid()
      modifies this, process
      ensures Valid()
      ensures r.Ok? <==> own.Includes(level)
      ensures r.Ok? ==> View() == Live(ty, fields) &&
                        process.ledger == Objects.Release(old(Slot()).data, old(Slot()).objects, old(process.ledger))
      ensures r.Err? ==> r == Err(BadValue) && View() == old(View()) && Slot() == old(Slot()) &&
                         process.ledger == old(process.ledger)
    {
      if !own.Includes(level) {
        return Err(BadValue);
      }
      Replace(Live(ty, fields), null, process);
      r := Ok(());
    }

    /** A lookup that finds its type in a lazy holder drops the parcel it was read from. */
    method GetParcelable(s: Schema, ty: TypeId, process: Process) returns (r: Result<Option<Value>>)
      requires Valid()
      modifies this, inner, process
      ensures Valid() && (inner == old(inner) || inner == null)
      ensures (r, View()) == Get(s, old(View()), ty)
      ensures old(View()).Lazy? ==>
                match ReadText(s.usizeMax, old(View()).bytes, 0)
                case Err(e) => r == Err(e) && View() == old(View())
                case Ok((None, _)) => r == Err(UnexpectedNull) && View() == old(View())
                case Ok((Some(name), _)) => name != ty.descriptor ==> r == Ok(None) && View() == old(View())
      ensures process.ledger == if old(View()).Lazy? && View().Live?
                                then Objects.Release(old(Slot()).data, old(Slot()).objects, old(process.ledger))
                                else old(process.ledger)
      ensures View() == old(View()) ==> Slot() == old(Slot()).(pos := Slot().pos)
    {
      hide Parcels.Contents, ReadBlock, ReadText;
      if inner == null {
        match live
        case Empty => return Ok(None);
        case Live(t, fs) => return if t == ty then Ok(Some(Record(fs))) else Err(BadValue);
      }
      inner.SetDataPosition(0);
      var name := ReadTextValue(inner, s.usizeMax);
      if name.Err? {
        return Err(name.status);
      }
      if name.value.None? {
        return Err(UnexpectedNull);
      }
      if name.value.value != ty.descriptor {
        return Ok(None);
      }
      var v := ReadBlockValue(inner, s, ty.name);
      if v.Err? {
        return Err(v.status);
      }
      Replace(Live(ty, v.value.fields), null, process);
      r := Ok(Some(v.value));
    }

    /** `write_to_parcel`.  Without objects, or into an RPC parcel, the bytes are exactly
        `EncHolder`; in a kernel parcel a lazy payload with objects is appended as
        `append_from` does, with `os` answering for each of them. */
    method WriteToParcel(parcel: Parcel, s: Schema, os: nat -> Answer, process: Process) returns (r: Result<()>)
      requires Valid() && WellTyped(s, View()) && parcel.Valid() && parcel != inner
      modifies parcel`mem, parcel`len, parcel`pos, parcel`objects, process
      ensures Valid() && View() == old(View()) && parcel.Valid()
      ensures inner == null || inner.objects == [] || parcel.rpc != null ==>
                var e := EncHolder(s, stability, View());
                && (r.Ok? <==> old(parcel.pos) + |e| <= I32_MAX)
                && (r.Ok? ==> parcel.Bytes() == Overlay(old(parcel.Bytes()), old(parcel.pos), e) &&
                              parcel.pos == old(parcel.pos) + |e| && parcel.objects == old(parcel.objects) &&
                              process.ledger == old(process.ledger))
      ensures inner != null && parcel.rpc == null ==>
                match TwoWords(old(parcel.View()), stability, inner.len)
                case Err(e) => r == Err(e) && process.ledger == old(process.ledger)
                case Ok(head) =>
                  Effect(parcel.View(), process.ledger, r) ==
                  Objects.Append(head, inner.View(), 0, inner.len, Asked(inner.objects, 0, inner.len, os), old(process.ledger))
    {
      hide Parcels.Contents, Overlay, EncI32, EncText, EncBlock, Objects.Append, Selected, WellTyped, Asked, Padded;
      ghost var before, start := parcel.Bytes(), parcel.pos;
      WordWritten(parcel.View(), stability);
      hide Write;
      r := parcel.WriteI32(stability);
      if r.Err? {
        return;
      }
      ghost var p := Payload(s, View());
      OverlayAppend(before, start, EncI32(stability), Word(|p|) + p);
      hide Payload;
      r := WriteContents(parcel, s, os, process);
    }

    /** What follows the stability: the length and the payload. */
    method WriteContents(parcel: Parcel, s: Schema, os: nat -> Answer, process: Process) returns (r: Result<()>)
      requires Valid() && WellTyped(s, View()) && parcel.Valid() && parcel != inner
      modifies parcel`mem, parcel`len, parcel`pos, parcel`objects, process
      ensures Valid() && View() == old(View()) && parcel.Valid()
      ensures inner == null || inner.objects == [] || parcel.rpc != null ==>
                var p := Payload(s, View());
                && (r.Ok? <==> old(parcel.pos) + 4 + |p| <= I32_MAX)
                && (r.Ok? ==> parcel.Bytes() == Overlay(old(parcel.Bytes()), old(parcel.pos), Word(|p|) + p) &&
                              parcel.pos == old(parcel.pos) + 4 + |p| && parcel.objects == old(parcel.objects) &&
                              process.ledger == old(process.ledger))
      ensures inner != null && parcel.rpc == null ==>
                match Write(old(parcel.View()), EncI32(inner.len))
                case Err(e) => r == Err(e) && process.ledger == old(process.ledger)
                case Ok(head) =>
                  Effect(parcel.View(), process.ledger, r) ==
                  Objects.Append(head, inner.View(), 0, inner.len, Asked(inner.objects, 0, inner.len, os), old(process.ledger))
    {
      hide Parcels.Contents, Overlay, EncI32, EncText, EncBlock, Objects.Append, Selected, Write;
      if inner != null {
        r := ForwardLazy(parcel, os, process);
      } else if live.Empty? {
        assert Word(0) + [] == EncI32(0);
        r := parcel.WriteI32(0);
      } else {
        r := WriteLive(parcel, s, live.ty, live.fields);
      }
    }

    /** A live value: a placeholder length, the descriptor and the block, then the length. */
    static method WriteLive(parcel: Parcel, s: Schema, ty: TypeId, fields: seq<Value>) returns (r: Result<()>)
      requires parcel.Valid() && WellTyped(s, Live(ty, fields))
      modifies parcel`mem, parcel`len, parcel`pos
      ensures parcel.Valid()
      ensures var p := Payload(s, Live(ty, fields));
              && (r.Ok? <==> old(parcel.pos) + 4 + |p| <= I32_MAX)
              && (r.Ok? ==> parcel.Bytes() == Overlay(old(parcel.Bytes()), old(parcel.pos), Word(|p|) + p) &&
                            parcel.pos == old(parcel.pos) + 4 + |p|)
    {
      hide Parcels.Contents, Overlay, EncI32, EncText, EncBlock, Payload;
      ghost var before, p := parcel.Bytes(), Payload(s, Live(ty, fields));
      var lengthStart := parcel.pos;
      r := parcel.WriteI32(0);
      if r.Err? {
        return;
      }
      var dataStart := parcel.pos;
      r := WritePayload(parcel, s, ty, fields);
      if r.Err? {
        return;
      }
      OverlayAppend(before, lengthStart, EncI32(0), p);
      r := FillIn(parcel, lengthStart, parcel.pos - dataStart, before, p);
    }

    static method WritePayload(parcel: Parcel, s: Schema, ty: TypeId, fields: seq<Value>) returns (r: Result<()>)
      requires parcel.Valid() && WellTyped(s, Live(ty, fields))
      modifies parcel`mem, parcel`len, parcel`pos
      ensures parcel.Valid()
      ensures var p := Payload(s, Live(ty, fields));
              && (r.Ok? <==> old(parcel.pos) + |p| <= I32_MAX)
              && (r.Ok? ==> parcel.Bytes() == Overlay(old(parcel.Bytes()), old(parcel.pos), p) &&
                            parcel.pos == old(parcel.pos) + |p|)
    {
      hide Parcels.Contents, Overlay, EncText, EncBlock;
      r := WriteText(parcel, ty.descriptor);
      if r.Err? {
        return;
      }
      OverlayAppend(old(parcel.Bytes()), old(parcel.pos), EncText(ty.descriptor), EncBlock(s, TypesOf(s.types[ty.name]), fields));
      r := WriteBlock(parcel, s, TypesOf(s.types[ty.name]), fields);
    }

    /** A lazy value: its size, then `append_all_from`. */
    method ForwardLazy(parcel: Parcel, os: nat -> Answer, process: Process) returns (r: Result<()>)
      requires Valid() && inner != null && parcel.Valid() && parcel != inner
      modifies parcel`mem, parcel`len, parcel`pos, parcel`objects, process
      ensures Valid() && parcel.Valid()
      ensures inner.objects == [] || parcel.rpc != null ==>
                var p := inner.Bytes();
                && (r.Ok? <==> old(parcel.pos) + 4 + |p| <= I32_MAX)
                && (r.Ok? ==> parcel.Bytes() == Overlay(old(parcel.Bytes()), old(parcel.pos), Word(|p|) + p) &&
                              parcel.pos == old(parcel.pos) + 4 + |p| && parcel.objects == old(parcel.objects) &&
                              process.ledger == old(process.ledger))
      ensures parcel.rpc == null ==>
                match Write(old(parcel.View()), EncI32(inner.len))
                case Err(e) => r == Err(e) && process.ledger == old(process.ledger)
                case Ok(head) =>
                  Effect(parcel.View(), process.ledger, r) ==
                  Objects.Append(head, inner.View(), 0, inner.len, Asked(inner.objects, 0, inner.len, os), old(process.ledger))
    {
      hide Parcels.Contents, Overlay, EncI32, Objects.Append, Selected;
      var size := inner.DataSize();
      WordWritten(parcel.View(), size);
      hide Write;
      r := parcel.WriteI32(size);
      if r.Err? {
        return;
      }
      OverlayAppend(old(parcel.Bytes()), old(parcel.pos), EncI32(size), inner.Bytes());
      r := AppendAll(parcel, os, process);
    }

    /** `append_all_from` the parcel of a lazy holder. */
    method AppendAll(parcel: Parcel, os: nat -> Answer, process: Process) returns (r: Result<()>)
      requires Valid() && inner != null && parcel.Valid() && parcel != inner
      modifies parcel`mem, parcel`len, parcel`pos, parcel`objects, process
      ensures Valid() && parcel.Valid()
      ensures inner.objects == [] || parcel.rpc != null ==>
                && (r.Ok? <==> old(parcel.pos) + inner.len <= I32_MAX)
                && (r.Ok? ==> parcel.Bytes() == Overlay(old(parcel.Bytes()), old(parcel.pos), inner.Bytes()) &&
                              parcel.pos == old(parcel.pos) + inner.len && parcel.objects == old(parcel.objects) &&
                              process.ledger == old(process.ledger))
      ensures parcel.rpc == null ==>
                Effect(parcel.View(), process.ledger, r) ==
                Objects.Append(old(parcel.View()), inner.View(), 0, inner.len, Asked(inner.objects, 0, inner.len, os), old(process.ledger))
    {
      hide Parcels.Contents, Overlay, Objects.Append, Selected;
      var size := inner.DataSize();
      var answers := Asked(inner.objects, 0, size, os);
      assert inner.Bytes()[0..size] == inner.Bytes();
      if inner.objects == [] {
        NoneSelected(0, size);
        AppendPlain(parcel.View(), inner.View(), 0, size, answers, process.ledger);
      }
      r := parcel.AppendFrom(inner, 0, size, answers, process);
    }

    /** `read_from_parcel`: keep the payload as a parcel of its own.  The contents it replaces
        are dropped, and so is a copy that failed. */
    method ReadFromParcel(parcel: Parcel, os: nat -> Answer, process: Process) returns (r: Result<()>)
      requires Valid() && parcel.Valid() && parcel.View().Good() && parcel != inner
      modifies this, parcel`pos, process
      ensures Valid() && parcel.Valid() && (inner == old(inner) || inner == null || fresh(inner))
      ensures match ReadHead(parcel.Bytes(), old(parcel.pos), stability)
              case Err(e) =>
                r == Err(e) && View() == old(View()) && Slot() == old(Slot()) && process.ledger == old(process.ledger)
              case Ok(size) =>
                var start := old(parcel.pos) + 8;
                var slot := old(Slot());
                if size == 0 then
                  && r.Ok? && View() == Empty && parcel.pos == start
                  && process.ledger == Objects.Release(slot.data, slot.objects, old(process.ledger))
                else
                  var o := Objects.Append(State([], 0, []), old(parcel.View()), start, size, Asked(parcel.objects, start, size, os), old(process.ledger));
                  if o.status.Ok? then
                    && r.Ok? && Slot() == o.state && View() == Lazy(o.state.data) && parcel.pos == start + size
                    && process.ledger == Objects.Release(slot.data, slot.objects, o.ledger)
                  else
                    && r == Err(o.status.status) && View() == old(View()) && Slot() == slot
                    && process.ledger == Objects.Release(o.state.data, o.state.objects, o.ledger)
                    && (Ownership.FreshAppend(State([], 0, []), old(parcel.View()), start, size, Asked(parcel.objects, start, size, os), old(process.ledger)) ==>
                          process.ledger == old(process.ledger))
    {
      hide Parcels.Contents, Overlay, DecI32, Objects.Append, Selected, Ownership.FreshAppend;
      var wire := parcel.ReadI32();
      if wire.Err? {
        return Err(wire.status);
      }
      if wire.value != stability {
        return Err(BadValue);
      }
      var size := parcel.ReadI32();
      if size.Err? {
        return Err(size.status);
      }
      if size.value < 0 {
        return Err(BadValue);
      }
      if size.value == 0 {
        Replace(Empty, null, process);
        return Ok(());
      }
      var start := parcel.pos;
      SourceCursor(State([], 0, []), old(parcel.View()), start, start, size.value, Asked(parcel.objects, start, size.value, os), process.ledger);
      assert parcel.View() == old(parcel.View()).(pos := start);
      var copy: Parcel;
      copy, r := CopyOut(parcel, start, size.value, os, process);
      if r.Err? {
        copy.ReleaseObjects(process);
        LeavesNoTrace(old(parcel.View()), start, size.value, Asked(parcel.objects, start, size.value, os), old(process.ledger));
        return;
      }
      Replace(Empty, copy, process);
      parcel.SetDataPosition(start + size.value);
    }

    /** The parcel a lazy holder keeps: the payload, with objects of its own. */
    static method CopyOut(parcel: Parcel, start: nat, size: nat, os: nat -> Answer, process: Process) returns (copy: Parcel, r: Result<()>)
      requires parcel.Valid() && parcel.View().Good() && size > 0
      modifies process
      ensures fresh(copy) && copy.Valid() && copy.rpc == null && (r.Ok? ==> Kept(copy))
      ensures Effect(copy.View(), process.ledger, r) ==
              Objects.Append(State([], 0, []), parcel.View(), start, size, Asked(parcel.objects, start, size, os), old(process.ledger))
    {
      hide Parcels.Contents, Overlay, Objects.Append, Selected;
      copy := new Parcel();
      ghost var empty := copy.View();
      var answers := Asked(parcel.objects, start, size, os);
      AppendStaysGood(empty, parcel.View(), start, size, answers, process.ledger);
      r := copy.AppendFrom(parcel, start, size, answers, process);
    }
  }

  /** Received from bytes whose payload range holds no object, whatever lies around it: the
      append is a plain copy, so the holder becomes the lazy form of those bytes. */
  lemma ReceivedIsLazy(src: State, pos: nat, stability: i32, os: nat -> Answer, l: Ledger)
    requires ReadHead(src.data, pos, stability).Ok? && |src.data| <= I32_MAX
    requires var size := ReadHead(src.data, pos, stability).value;
             size > 0 && Selected(src.objects, pos + 8, size) == []
    ensures var size := ReadHead(src.data, pos, stability).value;
            var o := Objects.Append(State([], 0, []), src, pos + 8, size, Asked(src.objects, pos + 8, size, os), l);
            && o.ledger == l
            && match ReadHolder(src.data, pos, stability)
               case Ok((c, next)) => o.status.Ok? && c == Lazy(o.state.data) && o.state.objects == [] && next == pos + 8 + size
               case Err(e) => o.status == Err(e)
  {
    hide Selected, Objects.Append, DecI32, Overlay;
    var size := ReadHead(src.data, pos, stability).value;
    AppendPlain(State([], 0, []), src, pos + 8, size, Asked(src.objects, pos + 8, size, os), l);
    if pos + 8 + size <= |src.data| {
      var d := src.data[pos + 8..pos + 8 + size];
      assert Overlay([], 0, d)[0..0 + |d|] == d;
    }
  }

  /** A payload that could not be copied leaves the ledger as it was, once the copy is dropped. */
  lemma LeavesNoTrace(src: State, start: nat, size: nat, answers: seq<Answer>, l: Ledger)
    requires src.Good() && |answers| == |Selected(src.objects, start, size)|
    ensures Ownership.FreshAppend(State([], 0, []), src, start, size, answers, l) ==>
              var o := Objects.Append(State([], 0, []), src, start, size, answers, l);
              Objects.Release(o.state.data, o.state.objects, o.ledger) == l
  {
    hide Objects.Append, Selected, State.Good;
    if Ownership.FreshAppend(State([], 0, []), src, start, size, answers, l) {
      HolderRuns.CopyUndone(src, start, size, answers, l);
    }
  }

  lemma NoneSelected(offset: nat, size: nat)
    ensures Selected([], offset, size) == []
  {
  }

  /** An append does not look at the cursor of its source. */
  lemma SourceCursor(p: State, src: State, pos: nat, offset: nat, size: nat, answers: seq<Answer>, l: Ledger)
    requires |answers| == |Selected(src.objects, offset, size)|
    ensures Objects.Append(p, src.(pos := pos), offset, size, answers, l) == Objects.Append(p, src, offset, size, answers, l)
  {
  }

  /** An append of a range without objects only copies bytes. */
  lemma AppendPlain(p: State, src: State, offset: nat, size: nat, answers: seq<Answer>, l: Ledger)
    requires Selected(src.objects, offset, size) == [] && |answers| == 0
    ensures Objects.Append(p, src, offset, size, answers, l) ==
            if size == 0 then Effect(p, l, Ok(()))
            else if size > I32_MAX || offset + size > |src.data| || p.pos + size > I32_MAX then Effect(p, l, Err(BadValue))
            else Effect(Copied(p, src.data[offset..offset + size]), l, Ok(()))
  {
  }

  lemma {:induction false} AdoptStaysGood(p: State, offs: seq<nat>, answers: seq<Answer>, l: Ledger)
    requires p.Good() && Ownership.Pending(p, offs) && |answers| == |offs|
    ensures var q := Adopt(p, offs, answers, l).state;
            q.Good() && |q.data| == |p.data| && q.pos == p.pos
    decreases offs
  {
    hide EncFlat, DecFlat, Overlay;
    if offs != [] {
      var o := AdoptOne(p, offs[0], answers[0], l);
      if o.status.Ok? {
        AdoptStaysGood(o.state, offs[1..], answers[1..], o.ledger);
      }
    }
  }

  /** Whatever the system answers, an append leaves a table in order behind. */
  lemma AppendStaysGood(p: State, src: State, offset: nat, size: nat, answers: seq<Answer>, l: Ledger)
    requires p.Good() && src.Good() && p.TableEnd() <= p.pos && |answers| == |Selected(src.objects, offset, size)|
    ensures var o := Objects.Append(p, src, offset, size, answers, l);
            && o.state.Good()
            && (o.status.Ok? && size > 0 ==> o.state.pos == p.pos + size <= |o.state.data| &&
                                             o.state.pos <= I32_MAX &&
                                             |o.state.data| == if p.pos + size > |p.data| then p.pos + size else |p.data|)
  {
    hide Adopt, Selected, Relocated, Ownership.Pending, Overlay;
    if size > 0 && offset + size <= |src.data| {
      Ownership.AppendPending(p, src, offset, size);
      AdoptStaysGood(Copied(p, src.data[offset..offset + size]), Relocated(Selected(src.objects, offset, size), offset, p.pos), answers, l);
    }
  }
}
