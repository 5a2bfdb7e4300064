/** What a holder's user sees: values put in come out, however often they are asked for, and
    values sent in a holder arrive. */
module HolderTrips {
  import opened Wire
  import opened Objects
  import opened Parcels
  import opened Stable
  import opened Versions
  import opened Generated
  import opened Holders
  import Ownership
  import RoundTrips

  /** An accepted value is found by its type and by no other, any number of times. */
  method SetThenLookUp(h: ParcelableHolder, own: Stability, s: Schema, ty: TypeId, fields: seq<Value>, tys: seq<TypeId>,
                       process: Process) returns (r: Result<()>, answers: seq<Result<Option<Value>>>)
    requires h.Valid()
    modifies h, process
    ensures h.Valid() && (r.Ok? <==> own.Includes(h.level))
    ensures r.Ok? ==>
              && h.View() == Live(ty, fields)
              && |answers| == |tys|
              && forall i :: 0 <= i < |tys| ==>
                   answers[i] == if tys[i] == ty then Ok(Some(Record(fields))) else Err(BadValue)
  {
    answers := [];
    r := h.SetParcelable(own, ty, fields, process);
    if r.Err? {
      return;
    }
    for i := 0 to |tys|
      invariant h.Valid() && h.inner == null && h.View() == Live(ty, fields) && |answers| == i
      invariant forall j :: 0 <= j < i ==> answers[j] == if tys[j] == ty then Ok(Some(Record(fields))) else Err(BadValue)
    {
      var a := h.GetParcelable(s, tys[i], process);
      answers := answers + [a];
    }
  }

  /** An emptied holder answers none to every type. */
  method ResetThenLookUp(h: ParcelableHolder, s: Schema, ty: TypeId, process: Process) returns (r: Result<Option<Value>>)
    requires h.Valid()
    modifies h, process
    ensures h.Valid() && r == Ok(None) && h.View() == Empty
  {
    h.Reset(process);
    r := h.GetParcelable(s, ty, process);
  }

  /** Looking again finds the same. */
  lemma GetAgain(s: Schema, c: Holding, ty: TypeId)
    ensures var (answer, after) := Get(s, c, ty); Get(s, after, ty) == (answer, after)
  {
    hide ReadText, ReadBlock;
    if c.Lazy? {
      BlockIsRecord(s, ty.name, c.bytes);
    }
  }

  lemma BlockIsRecord(s: Schema, name: string, data: seq<byte>)
    ensures forall pos: nat :: ReadBlock(s, name, data, pos, 0).Ok? ==> ReadBlock(s, name, data, pos, 0).value.0.Record?
  {
  }

  /** Any number of lookups for one type, whatever the holder has, all answer alike: the value
      read from a lazy holder is the one the holder keeps. */
  method LookUpRepeatedly(h: ParcelableHolder, s: Schema, ty: TypeId, n: nat, process: Process) returns (answers: seq<Result<Option<Value>>>)
    requires h.Valid()
    modifies h, h.inner, process
    ensures h.Valid() && |answers| == n && forall i, j :: 0 <= i < j < n ==> answers[i] == answers[j]
    ensures forall i :: 0 <= i < n && answers[i].Ok? && answers[i].value.Some? ==>
              h.View().Live? && h.View().ty == ty && answers[i].value.value == Record(h.View().fields)
  {
    hide Get, Parcels.Contents;
    answers := [];
    ghost var c := h.View();
    for i := 0 to n
      invariant h.Valid() && |answers| == i && (h.inner == old(h.inner) || h.inner == null)
      invariant i == 0 ==> h.View() == c
      invariant i > 0 ==> h.View() == Get(s, c, ty).1
      invariant forall j :: 0 <= j < i ==> answers[j] == Get(s, c, ty).0
    {
      GetAgain(s, c, ty);
      var a := h.GetParcelable(s, ty, process);
      answers := answers + [a];
    }
    GetFinds(s, c, ty);
  }

  lemma GetFinds(s: Schema, c: Holding, ty: TypeId)
    ensures var (answer, after) := Get(s, c, ty);
            answer.Ok? && answer.value.Some? ==> after.Live? && after.ty == ty && answer.value.value == Record(after.fields)
  {
    hide ReadText, ReadBlock;
    if c.Lazy? {
      BlockIsRecord(s, ty.name, c.bytes);
    }
  }

  // ----- from one holder to another -----

  lemma {:induction false} HolderWhole(s: Schema, stability: i32, c: Holding)
    requires c.Live? && WellTyped(s, c)
    ensures |EncHolder(s, stability, c)| % 4 == 0 && |Payload(s, c)| > 0 && |EncHolder(s, stability, c)| == 8 + |Payload(s, c)|
  {
    hide EncText, EncSeq, EncI32, TypedAll;
    RoundTrips.SeqWhole(s, TypesOf(s.types[c.ty.name]), c.fields);
  }

  /** What is written for a live holder is received as the bytes of its payload. */
  lemma PayloadArrives(s: Schema, stability: i32, c: Holding, src: State, os: nat -> Answer, l: Ledger)
    requires c.Live? && WellTyped(s, c) && src.data == EncHolder(s, stability, c) && src.objects == [] && |src.data| < I32_MAX
    ensures ReadHead(src.data, 0, stability) == Ok(|Payload(s, c)|) && |Payload(s, c)| > 0
    ensures var size := |Payload(s, c)|;
            var o := Objects.Append(State([], 0, []), src, 8, size, Asked(src.objects, 8, size, os), l);
            o.status.Ok? && o.state.data == Payload(s, c) && Received(s, c) == Lazy(Payload(s, c))
  {
    hide EncText, EncBlock, EncI32, DecI32, Payload, Objects.Append, Selected, Asked;
    HolderWhole(s, stability, c);
    assert src.data[0..|src.data|] == src.data;
    HolderForwards(s, stability, c, src.data, 0);
    HeadBack(s, stability, c, src.data, stability);
    NoneSelected(8, |Payload(s, c)|);
    ReceivedIsLazy(src, 0, stability, os, l);
  }

  lemma HeadBack(s: Schema, stability: i32, c: Holding, data: seq<byte>, own: i32)
    requires WellTyped(s, c) && Holds(data, 0, EncHolder(s, stability, c))
    ensures ReadHead(data, 0, own) == if own == stability then Ok(|Payload(s, c)|) else Err(BadValue)
  {
    hide EncI32, DecI32, EncText, EncBlock, ReadI32;
    var p := Payload(s, c);
    HoldsSplit(data, 0, EncI32(stability), Word(|p|) + p);
    HoldsSplit(data, 4, Word(|p|), p);
    ReadWord(data, 0, stability);
    ReadWord(data, 4, |p|);
  }

  /** A live holder in a parcel of its own. */
  method Post(from: ParcelableHolder, w: Schema, os: nat -> Answer, process: Process) returns (p: Parcel, sent: Result<()>)
    requires from.Valid() && from.View().Live? && WellTyped(w, from.View())
    modifies process
    ensures fresh(p) && p.Valid() && p.depth == 0 && p.rpc == null && p.pos == 0
    ensures sent.Ok? <==> 8 + |Payload(w, from.View())| <= I32_MAX
    ensures sent.Ok? ==> p.View() == State(EncHolder(w, from.stability, from.View()), 0, [])
  {
    hide Parcels.Contents, Overlay, EncHolder, Payload, WellTyped, Objects.Append, Selected;
    HolderWhole(w, from.stability, from.View());
    p := new Parcel();
    sent := from.WriteToParcel(p, w, os, process);
    if sent.Ok? {
      RoundTrips.AloneHolds(EncHolder(w, from.stability, from.View()));
    }
    p.SetDataPosition(0);
  }

  /** A holder takes in what a holder of its own stability wrote, and refuses any other. */
  method Accept(to: ParcelableHolder, p: Parcel, w: Schema, stability: i32, ghost c: Holding, os: nat -> Answer, process: Process) returns (r: Result<()>)
    requires to.Valid() && p.Valid() && p != to.inner && c.Live? && WellTyped(w, c)
    requires p.View() == State(EncHolder(w, stability, c), 0, []) && p.len < I32_MAX
    modifies to, p`pos, process
    ensures to.Valid() && (to.inner == old(to.inner) || to.inner == null || fresh(to.inner))
    ensures if stability == to.stability then r.Ok? && to.View() == Received(w, c)
            else r == Err(BadValue) && to.View() == old(to.View()) && process.ledger == old(process.ledger)
  {
    hide Parcels.Contents, EncHolder, Payload, Received, WellTyped;
    if stability == to.stability {
      r := TakeIn(to, p, w, c, os, process);
    } else {
      r := Refuse(to, p, w, stability, c, os, process);
    }
  }

  method TakeIn(to: ParcelableHolder, p: Parcel, w: Schema, ghost c: Holding, os: nat -> Answer, process: Process) returns (r: Result<()>)
    requires to.Valid() && p.Valid() && p != to.inner && c.Live? && WellTyped(w, c)
    requires p.View() == State(EncHolder(w, to.stability, c), 0, []) && p.len < I32_MAX
    modifies to, p`pos, process
    ensures to.Valid() && (to.inner == old(to.inner) || to.inner == null || fresh(to.inner))
    ensures r.Ok? && to.View() == Received(w, c)
  {
    hide Parcels.Contents, EncHolder, Payload, Received, WellTyped, Objects.Append, Objects.Release, Selected, ReadHead, Ownership.FreshAppend;
    PayloadArrives(w, to.stability, c, p.View(), os, process.ledger);
    r := to.ReadFromParcel(p, os, process);
  }

  method Refuse(to: ParcelableHolder, p: Parcel, w: Schema, stability: i32, ghost c: Holding, os: nat -> Answer, process: Process) returns (r: Result<()>)
    requires to.Valid() && p.Valid() && p != to.inner && WellTyped(w, c) && stability != to.stability
    requires p.View() == State(EncHolder(w, stability, c), 0, []) && p.len < I32_MAX
    modifies to, p`pos, process
    ensures to.Valid() && (to.inner == old(to.inner) || to.inner == null || fresh(to.inner))
    ensures r == Err(BadValue) && to.View() == old(to.View()) && process.ledger == old(process.ledger)
  {
    hide Parcels.Contents, EncHolder, WellTyped, Objects.Append, Objects.Release, Selected, ReadHead, Ownership.FreshAppend, Holds;
    WholeHolds(p.Bytes());
    HeadBack(w, stability, c, p.Bytes(), to.stability);
    r := to.ReadFromParcel(p, os, process);
  }

  lemma WholeHolds(e: seq<byte>)
    requires |e| < I32_MAX
    ensures Holds(e, 0, e)
  {
  }

  /** A live holder written and read into another one: refused unless both or neither are for
      vendor interfaces; otherwise what a lookup then finds, twice. */
  method Deliver(from: ParcelableHolder, to: ParcelableHolder, w: Schema, r: Schema, ty: TypeId, os: nat -> Answer, process: Process)
      returns (sent: Result<()>, got: Result<()>, answers: seq<Result<Option<Value>>>)
    requires from.Valid() && to.Valid() && from != to && from.View().Live? && WellTyped(w, from.View())
    requires Compatible(w, r) && from.View().ty.name in r.types
    requires ty.descriptor == from.View().ty.descriptor ==> ty == from.View().ty
    modifies to, to.inner, process
    ensures sent.Ok? <==> 8 + |Payload(w, old(from.View()))| <= I32_MAX
    ensures sent.Ok? ==> (got.Ok? <==> (from.level.Vintf? <==> to.level.Vintf?))
    ensures sent.Ok? && got.Err? ==> got == Err(BadValue) && to.Valid() && to.View() == old(to.View())
    ensures sent.Ok? && got.Ok? ==>
              var c := old(from.View());
              && |answers| == 2 && answers[0] == answers[1]
              && answers[0] == if ty != c.ty then Ok(None)
                               else if 1 + NeedFields(w, r, r.types[ty.name], c.fields) <= MAX_NESTED_READ_DEPTH
                               then Ok(Some(Record(ProjectFields(w, r, r.types[ty.name], c.fields))))
                               else Err(BadValue)
  {
    hide Parcels.Contents, EncHolder, Payload, Get, Compatible, WellTyped, NeedFields, ProjectFields, Received;
    ghost var c := from.View();
    answers, got := [], Ok(());
    var p: Parcel;
    p, sent := Post(from, w, os, process);
    if sent.Err? {
      return;
    }
    HolderWhole(w, from.stability, c);
    got := Accept(to, p, w, from.stability, c, os, process);
    if got.Err? {
      return;
    }
    LookupOnReceived(w, r, c, ty);
    var first := to.GetParcelable(r, ty, process);
    GetAgain(r, Received(w, c), ty);
    var again := to.GetParcelable(r, ty, process);
    answers := [first, again];
  }
}
