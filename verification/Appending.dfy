/** What `append_from` means: the destination gains exactly the objects wholly
    inside the copied range, and the same bytes except for re-duplicated descriptors. */
module Appending {
  import opened Wire
  import opened Objects
  import opened Ownership

  /** An object after relocation: a descriptor object owns the new duplicate. */
  function Adopted(f: Flat, a: Answer): Flat {
    if f.kind == BINDER_TYPE_FD && a.dup.Some? then f.WithFd(a.dup.value) else f
  }

  /** Only a descriptor changes hands: its number is the duplicate's and it is owned, whatever
      it was before; its type, flags and upper half stay. */
  lemma AdoptedExact(f: Flat, a: Answer)
    requires SmallDup(a)
    ensures var g := Adopted(f, a);
            && g.kind == f.kind && g.flags == f.flags && g.binder / U32 == f.binder / U32
            && if f.kind == BINDER_TYPE_FD && a.dup.Some? then g.binder % U32 == a.dup.value && g.cookie == 1 else g == f
  {
    if f.kind == BINDER_TYPE_FD && a.dup.Some? {
      var q := f.binder / U32;
      assert (q * U32 + a.dup.value) / U32 == q && (q * U32 + a.dup.value) % U32 == a.dup.value;
    }
  }

  ghost predicate SameOutside(data: seq<byte>, data': seq<byte>, off: nat) {
    && |data| == |data'|
    && forall k :: 0 <= k < |data| && (k < off || off + FLAT_SIZE <= k) ==> data'[k] == data[k]
  }

  predicate SmallDup(a: Answer) {
    a.dup.Some? ==> a.dup.value < 0x8000_0000
  }

  lemma AdoptOneShape(p: State, off: nat, a: Answer, l: Ledger)
    requires off + FLAT_SIZE <= |p.data| && SmallDup(a) && AdoptOne(p, off, a, l).status.Ok?
    ensures var q := AdoptOne(p, off, a, l).state;
            && q.objects == p.objects + [off]
            && SameOutside(p.data, q.data, off)
            && At(q.data, off) == Adopted(At(p.data, off), a)
            && (At(p.data, off).kind != BINDER_TYPE_FD ==> q.data == p.data)
  {
    hide EncFlat, DecFlat;
    var f := At(p.data, off);
    if f.kind == BINDER_TYPE_FD && a.dup.Some? {
      DecFlatFits(p.data[off..off + FLAT_SIZE]);
      WithFdFits(f, a.dup.value);
      FlatRoundTrip(f.WithFd(a.dup.value));
    }
  }

  /** Byte `k` belongs to a descriptor object listed in `offs`. */
  ghost predicate InFd(data: seq<byte>, offs: seq<nat>, k: nat)
    requires forall i :: 0 <= i < |offs| ==> offs[i] + FLAT_SIZE <= |data|
  {
    exists i :: 0 <= i < |offs| && offs[i] <= k < offs[i] + FLAT_SIZE && At(data, offs[i]).kind == BINDER_TYPE_FD
  }

  /** The result of adopting `offs`: the entries, each object, and every other byte. */
  ghost predicate AdoptedAll(p: State, q: State, offs: seq<nat>, answers: seq<Answer>)
    requires |answers| == |offs| && forall i :: 0 <= i < |offs| ==> offs[i] + FLAT_SIZE <= |p.data|
  {
    && q.objects == p.objects + offs
    && |q.data| == |p.data|
    && (forall i :: 0 <= i < |offs| ==> At(q.data, offs[i]) == Adopted(At(p.data, offs[i]), answers[i]))
    && (forall k :: 0 <= k < |p.data| ==> q.data[k] == p.data[k] || InFd(p.data, offs, k))
  }

  lemma AdoptedCons(p: State, m: State, q: State, offs: seq<nat>, answers: seq<Answer>)
    requires |answers| == |offs| > 0 && Spaced(offs)
    requires forall i :: 0 <= i < |offs| ==> offs[i] + FLAT_SIZE <= |p.data|
    requires m.objects == p.objects + [offs[0]] && SameOutside(p.data, m.data, offs[0])
    requires At(m.data, offs[0]) == Adopted(At(p.data, offs[0]), answers[0])
    requires At(p.data, offs[0]).kind != BINDER_TYPE_FD ==> m.data == p.data
    requires AdoptedAll(m, q, offs[1..], answers[1..])
    ensures AdoptedAll(p, q, offs, answers)
  {
    hide At, InFd, SameOutside;
    assert [offs[0]] + offs[1..] == offs;
    assert q.objects == p.objects + offs;
    SameLength(p.data, m.data, offs[0]);
    forall i | 0 <= i < |offs|
      ensures At(q.data, offs[i]) == Adopted(At(p.data, offs[i]), answers[i])
    {
      if i == 0 {
        SliceUntouched(m.data, q.data, offs[1..], offs[0]);
        SameAt(m.data, q.data, offs[0]);
      } else {
        assert offs[1..][i - 1] == offs[i] && answers[1..][i - 1] == answers[i];
        AtLater(p.data, m.data, offs[0], offs[i]);
      }
    }
    forall k | 0 <= k < |p.data| && q.data[k] != p.data[k]
      ensures InFd(p.data, offs, k)
    {
      if q.data[k] != m.data[k] {
        InFdLater(p.data, m.data, offs, k);
      } else {
        InFdFirst(p.data, m.data, offs, k);
      }
    }
  }

  lemma SameLength(data: seq<byte>, data': seq<byte>, off: nat)
    requires off + FLAT_SIZE <= |data| && SameOutside(data, data', off)
    ensures |data'| == |data|
  {
  }

  lemma SameAt(data: seq<byte>, data': seq<byte>, off: nat)
    requires off + FLAT_SIZE <= |data| == |data'| && data'[off..off + FLAT_SIZE] == data[off..off + FLAT_SIZE]
    ensures At(data', off) == At(data, off)
  {
  }

  /** An object after the changed one is as it was. */
  lemma AtLater(data: seq<byte>, data': seq<byte>, off: nat, later: nat)
    requires off + FLAT_SIZE <= later && later + FLAT_SIZE <= |data| && SameOutside(data, data', off)
    ensures |data'| == |data| && At(data', later) == At(data, later)
  {
    hide At;
    assert data'[later..later + FLAT_SIZE] == data[later..later + FLAT_SIZE];
    SameAt(data, data', later);
  }

  lemma InFdLater(data: seq<byte>, data': seq<byte>, offs: seq<nat>, k: nat)
    requires |offs| > 0 && Spaced(offs) && (forall i :: 0 <= i < |offs| ==> offs[i] + FLAT_SIZE <= |data|)
    requires SameOutside(data, data', offs[0]) && |data'| == |data| && InFd(data', offs[1..], k)
    ensures InFd(data, offs, k)
  {
    hide At, SameOutside;
    var i :| 0 <= i < |offs| - 1 && offs[1..][i] <= k < offs[1..][i] + FLAT_SIZE && At(data', offs[1..][i]).kind == BINDER_TYPE_FD;
    assert offs[i + 1] == offs[1..][i];
    AtLater(data, data', offs[0], offs[i + 1]);
  }

  lemma InFdFirst(data: seq<byte>, data': seq<byte>, offs: seq<nat>, k: nat)
    requires |offs| > 0 && (forall i :: 0 <= i < |offs| ==> offs[i] + FLAT_SIZE <= |data|)
    requires SameOutside(data, data', offs[0]) && k < |data| && data'[k] != data[k]
    requires At(data, offs[0]).kind != BINDER_TYPE_FD ==> data' == data
    ensures InFd(data, offs, k)
  {
    hide At;
    assert offs[0] <= k < offs[0] + FLAT_SIZE;
  }

  lemma SliceUntouched(data: seq<byte>, data': seq<byte>, offs: seq<nat>, off: nat)
    requires off + FLAT_SIZE <= |data| == |data'|
    requires forall i :: 0 <= i < |offs| ==> off + FLAT_SIZE <= offs[i] && offs[i] + FLAT_SIZE <= |data|
    requires forall k :: 0 <= k < |data| ==> data'[k] == data[k] || InFd(data, offs, k)
    ensures data'[off..off + FLAT_SIZE] == data[off..off + FLAT_SIZE]
  {
    hide DecFlat;
    forall k | off <= k < off + FLAT_SIZE
      ensures data'[k] == data[k]
    {
    }
  }

  lemma {:induction false} AdoptShape(p: State, offs: seq<nat>, answers: seq<Answer>, l: Ledger)
    requires |answers| == |offs| && Spaced(offs) && forall a <- answers :: SmallDup(a)
    requires forall i :: 0 <= i < |offs| ==> offs[i] + FLAT_SIZE <= |p.data|
    requires Adopt(p, offs, answers, l).status.Ok?
    ensures AdoptedAll(p, Adopt(p, offs, answers, l).state, offs, answers)
    decreases offs
  {
    hide AdoptOne, AdoptedAll, At;
    if offs == [] {
      AdoptedNone(p, answers);
    } else {
      var o := AdoptOne(p, offs[0], answers[0], l);
      AdoptOneShape(p, offs[0], answers[0], l);
      AdoptShape(o.state, offs[1..], answers[1..], o.ledger);
      AdoptedCons(p, o.state, Adopt(p, offs, answers, l).state, offs, answers);
    }
  }

  lemma AdoptedNone(p: State, answers: seq<Answer>)
    requires answers == []
    ensures AdoptedAll(p, p, [], answers)
  {
  }

  lemma CopiedSlice(p: State, src: State, offset: nat, size: nat, x: nat, n: nat)
    requires offset <= x && x + n <= offset + size <= |src.data|
    ensures var c := Copied(p, src.data[offset..offset + size]);
            var y := x - offset + p.pos;
            y + n <= |c.data| && c.data[y..y + n] == src.data[x..x + n]
  {
    var d := src.data[offset..offset + size];
    var c := Copied(p, d);
    var y := x - offset + p.pos;
    hide Overlay;
    assert c.data[p.pos..p.pos + size] == d;
    assert d[x - offset..x - offset + n] == src.data[x..x + n];
    assert c.data[y..y + n] == c.data[p.pos..p.pos + size][x - offset..x - offset + n];
  }

  lemma CopiedObject(p: State, src: State, offset: nat, size: nat, x: nat)
    requires Inside(x, offset, size) && offset + size <= |src.data|
    ensures var c := Copied(p, src.data[offset..offset + size]);
            var y := x - offset + p.pos;
            y + FLAT_SIZE <= |c.data| && At(c.data, y) == At(src.data, x)
  {
    hide DecFlat, Overlay;
    CopiedSlice(p, src, offset, size, x, FLAT_SIZE);
  }

  /** The byte of the destination at `k` comes from the copied range, from the old
      buffer, or belongs to a descriptor object that was rewritten. */
  ghost predicate ByteMeaning(p: State, q: State, src: State, offset: nat, size: nat, k: nat)
    requires src.Good() && offset + size <= |src.data| && k < |q.data|
  {
    if p.pos <= k < p.pos + size then
      || q.data[k] == src.data[offset + (k - p.pos)]
      || InFd(src.data, Selected(src.objects, offset, size), offset + (k - p.pos))
    else
      q.data[k] == if k < |p.data| then p.data[k] else 0
  }

  ghost predicate ObjectMeaning(p: State, q: State, src: State, offset: nat, size: nat, answers: seq<Answer>)
    requires src.Good() && |answers| == |Selected(src.objects, offset, size)|
  {
    var sel := Selected(src.objects, offset, size);
    && q.objects == p.objects + Relocated(sel, offset, p.pos)
    && Spaced(q.objects)
    && forall i :: 0 <= i < |sel| ==>
         var off := sel[i] - offset + p.pos;
         off + FLAT_SIZE <= |q.data| && At(q.data, off) == Adopted(At(src.data, sel[i]), answers[i])
  }

  /** A successful append: the table grows by exactly the objects wholly inside the
      range, shifted and still in order; each is the source object with its descriptor
      re-duplicated; every other copied byte equals the source and nothing else changes. */
  lemma AppendMeaning(p: State, src: State, offset: nat, size: nat, answers: seq<Answer>, l: Ledger)
    requires p.Good() && src.Good() && p.TableEnd() <= p.pos && AppendRuns(p, src, offset, size)
    requires |answers| == |Selected(src.objects, offset, size)| && forall a <- answers :: SmallDup(a)
    requires Append(p, src, offset, size, answers, l).status.Ok?
    ensures var q := Append(p, src, offset, size, answers, l).state;
            && ObjectMeaning(p, q, src, offset, size, answers)
            && |q.data| == (if p.pos + size > |p.data| then p.pos + size else |p.data|)
            && forall k :: 0 <= k < |q.data| ==> ByteMeaning(p, q, src, offset, size, k)
  {
    hide Adopt, At, State.Held, HeldAt, AdoptedAll, ObjectMeaning, ByteMeaning, Overlay, Pending;
    var c, sel := Copied(p, src.data[offset..offset + size]), Selected(src.objects, offset, size);
    AppendPending(p, src, offset, size);
    PendingFits(c, Relocated(sel, offset, p.pos));
    AdoptShape(c, Relocated(sel, offset, p.pos), answers, l);
    var q := Append(p, src, offset, size, answers, l).state;
    ObjectsCarryOver(p, src, offset, size, answers, q);
    forall k | 0 <= k < |q.data|
      ensures ByteMeaning(p, q, src, offset, size, k)
    {
      BytesCarryOver(p, src, offset, size, answers, q, k);
    }
  }

  lemma PendingFits(p: State, offs: seq<nat>)
    requires Pending(p, offs)
    ensures Spaced(offs) && forall i :: 0 <= i < |offs| ==> offs[i] + FLAT_SIZE <= |p.data|
  {
  }

  lemma ObjectsCarryOver(p: State, src: State, offset: nat, size: nat, answers: seq<Answer>, q: State)
    requires p.Good() && src.Good() && offset + size <= |src.data|
    requires |answers| == |Selected(src.objects, offset, size)|
    requires var offs, c := Relocated(Selected(src.objects, offset, size), offset, p.pos),
                            Copied(p, src.data[offset..offset + size]);
             Pending(c, offs) && AdoptedAll(c, q, offs, answers)
    ensures ObjectMeaning(p, q, src, offset, size, answers)
    ensures |q.data| == (if p.pos + size > |p.data| then p.pos + size else |p.data|)
  {
    hide At, InFd, Overlay, Selected, Relocated, Adopted;
    var c, sel := Copied(p, src.data[offset..offset + size]), Selected(src.objects, offset, size);
    var offs := Relocated(sel, offset, p.pos);
    forall i | 0 <= i < |sel|
      ensures At(c.data, offs[i]) == At(src.data, sel[i])
    {
      CopiedObject(p, src, offset, size, sel[i]);
    }
  }

  lemma BytesCarryOver(p: State, src: State, offset: nat, size: nat, answers: seq<Answer>, q: State, k: nat)
    requires p.Good() && src.Good() && offset + size <= |src.data|
    requires |answers| == |Selected(src.objects, offset, size)|
    requires var offs, c := Relocated(Selected(src.objects, offset, size), offset, p.pos),
                            Copied(p, src.data[offset..offset + size]);
             Pending(c, offs) && AdoptedAll(c, q, offs, answers)
    requires k < |q.data|
    ensures ByteMeaning(p, q, src, offset, size, k)
  {
    hide At, Overlay, Selected, Relocated;
    var c, sel := Copied(p, src.data[offset..offset + size]), Selected(src.objects, offset, size);
    var offs := Relocated(sel, offset, p.pos);
    if p.pos <= k < p.pos + size {
      CopiedSlice(p, src, offset, size, offset + (k - p.pos), 1);
      assert c.data[k] == c.data[k..k + 1][0] == src.data[offset + (k - p.pos)];
    }
    if q.data[k] != c.data[k] {
      FdCarriesOver(p, src, offset, size, k);
    }
  }

  lemma FdCarriesOver(p: State, src: State, offset: nat, size: nat, k: nat)
    requires src.Good() && offset + size <= |src.data|
    requires var offs, c := Relocated(Selected(src.objects, offset, size), offset, p.pos),
                            Copied(p, src.data[offset..offset + size]);
             Pending(c, offs) && InFd(c.data, offs, k)
    ensures p.pos <= k < p.pos + size
    ensures InFd(src.data, Selected(src.objects, offset, size), offset + (k - p.pos))
  {
    hide At, Overlay, Selected, Relocated, Copied, Pending;
    var c, sel := Copied(p, src.data[offset..offset + size]), Selected(src.objects, offset, size);
    var offs := Relocated(sel, offset, p.pos);
    PendingFits(c, offs);
    var i :| 0 <= i < |offs| && offs[i] <= k < offs[i] + FLAT_SIZE && At(c.data, offs[i]).kind == BINDER_TYPE_FD;
    CopiedObject(p, src, offset, size, sel[i]);
  }

  // ----- when an append succeeds -----

  /** An object the process can take over: its own binder, a handle with a live proxy, or a
      descriptor that could be duplicated. */
  predicate Adoptable(f: Flat, a: Answer) {
    || f.kind == BINDER_TYPE_BINDER
    || (f.kind == BINDER_TYPE_HANDLE && a.proxy)
    || (f.kind == BINDER_TYPE_FD && a.dup.Some?)
  }

  /** What is answered for an object that cannot be taken over. */
  function Refusal(f: Flat): StatusCode {
    if f.kind == BINDER_TYPE_HANDLE || f.kind == BINDER_TYPE_FD then OsError else InvalidOperation
  }

  /** `i` is the first object that cannot be taken over, or the end. */
  ghost predicate StopsAt(data: seq<byte>, offs: seq<nat>, answers: seq<Answer>, i: nat)
    requires |answers| == |offs| && forall j :: 0 <= j < |offs| ==> offs[j] + FLAT_SIZE <= |data|
  {
    && i <= |offs|
    && (forall j :: 0 <= j < i ==> Adoptable(At(data, offs[j]), answers[j]))
    && (i < |offs| ==> !Adoptable(At(data, offs[i]), answers[i]))
  }

  lemma AdoptOneStatus(p: State, off: nat, a: Answer, l: Ledger)
    requires off + FLAT_SIZE <= |p.data|
    ensures var o := AdoptOne(p, off, a, l);
            && |o.state.data| == |p.data|
            && SameOutside(p.data, o.state.data, off)
            && if Adoptable(At(p.data, off), a) then o.status.Ok? && o.state.objects == p.objects + [off]
               else o.status == Err(Refusal(At(p.data, off))) && o.state == p
  {
    hide EncFlat, DecFlat;
  }

  /** The relocation loop lists the objects before the first it cannot take over, and reports
      that one. */
  lemma {:induction false} AdoptStatus(p: State, offs: seq<nat>, answers: seq<Answer>, l: Ledger, i: nat)
    requires |answers| == |offs| && Spaced(offs) && forall j :: 0 <= j < |offs| ==> offs[j] + FLAT_SIZE <= |p.data|
    requires StopsAt(p.data, offs, answers, i)
    ensures var o := Adopt(p, offs, answers, l);
            && o.state.objects == p.objects + offs[..i]
            && o.status == if i == |offs| then Ok(()) else Err(Refusal(At(p.data, offs[i])))
    decreases offs
  {
    hide AdoptOne, At, Adoptable, Refusal, SameOutside;
    if offs != [] {
      var o := AdoptOne(p, offs[0], answers[0], l);
      AdoptOneStatus(p, offs[0], answers[0], l);
      if i > 0 {
        forall j | 0 < j < |offs|
          ensures At(o.state.data, offs[j]) == At(p.data, offs[j])
        {
          AtLater(p.data, o.state.data, offs[0], offs[j]);
        }
        AdoptStatus(o.state, offs[1..], answers[1..], o.ledger, i - 1);
        assert [offs[0]] + offs[1..][..i - 1] == offs[..i];
      }
    }
  }

  /** An append of a range inside the source succeeds exactly when every object wholly inside
      the range can be taken over; otherwise the first that cannot is reported, and exactly
      those before it are listed. */
  lemma AppendStatus(p: State, src: State, offset: nat, size: nat, answers: seq<Answer>, l: Ledger, i: nat)
    requires src.Good() && |answers| == |Selected(src.objects, offset, size)| && AppendRuns(p, src, offset, size)
    requires StopsAt(src.data, Selected(src.objects, offset, size), answers, i)
    ensures var o, sel := Append(p, src, offset, size, answers, l), Selected(src.objects, offset, size);
            && o.state.objects == p.objects + Relocated(sel[..i], offset, p.pos)
            && (o.status.Ok? <==> i == |sel|)
            && (i < |sel| ==> o.status == Err(Refusal(At(src.data, sel[i]))))
  {
    hide Adopt, At, Adoptable, Refusal, Overlay, Selected, Spaced, State.Good;
    var c, sel := Copied(p, src.data[offset..offset + size]), Selected(src.objects, offset, size);
    var offs := Relocated(sel, offset, p.pos);
    RelocatedReady(p, src, offset, size);
    AdoptStatus(c, offs, answers, l, i);
    assert Relocated(sel[..i], offset, p.pos) == offs[..i];
  }

  /** The copied objects, where the relocation loop looks for them. */
  lemma RelocatedReady(p: State, src: State, offset: nat, size: nat)
    requires src.Good() && offset + size <= |src.data|
    ensures var c, sel := Copied(p, src.data[offset..offset + size]), Selected(src.objects, offset, size);
            var offs := Relocated(sel, offset, p.pos);
            && Spaced(offs)
            && forall j :: 0 <= j < |sel| ==>
                 && offs[j] + FLAT_SIZE <= |c.data| && sel[j] + FLAT_SIZE <= |src.data|
                 && At(c.data, offs[j]) == At(src.data, sel[j])
  {
    hide At, Overlay, Selected, Copied;
    var sel := Selected(src.objects, offset, size);
    SelectedSpaced(src.objects, offset, size);
    forall j | 0 <= j < |sel|
      ensures var c, off := Copied(p, src.data[offset..offset + size]), sel[j] - offset + p.pos;
              && off + FLAT_SIZE <= |c.data| && sel[j] + FLAT_SIZE <= |src.data|
              && At(c.data, off) == At(src.data, sel[j])
    {
      CopiedObject(p, src, offset, size, sel[j]);
    }
  }

  /** There is always such a place to stop. */
  lemma {:induction false} StopExists(data: seq<byte>, offs: seq<nat>, answers: seq<Answer>) returns (i: nat)
    requires |answers| == |offs| && forall j :: 0 <= j < |offs| ==> offs[j] + FLAT_SIZE <= |data|
    ensures StopsAt(data, offs, answers, i)
    decreases offs
  {
    hide At, Adoptable;
    i := 0;
    if offs != [] && Adoptable(At(data, offs[0]), answers[0]) {
      var rest := StopExists(data, offs[1..], answers[1..]);
      i := rest + 1;
      forall j | 0 <= j < i
        ensures Adoptable(At(data, offs[j]), answers[j])
      {
        assert j > 0 ==> offs[1..][j - 1] == offs[j] && answers[1..][j - 1] == answers[j];
      }
    }
  }

  lemma AppendSucceedsIff(p: State, src: State, offset: nat, size: nat, answers: seq<Answer>, l: Ledger)
    requires src.Good() && |answers| == |Selected(src.objects, offset, size)|
    ensures var o, sel := Append(p, src, offset, size, answers, l), Selected(src.objects, offset, size);
            if AppendRuns(p, src, offset, size)
            then o.status.Ok? <==> forall i :: 0 <= i < |sel| ==> Adoptable(At(src.data, sel[i]), answers[i])
            else o == Effect(p, l, if size == 0 then Ok(()) else Err(BadValue))
  {
    hide Adopt, At, Adoptable, Overlay;
    if AppendRuns(p, src, offset, size) {
      var sel := Selected(src.objects, offset, size);
      SelectedSpaced(src.objects, offset, size);
      var i := StopExists(src.data, sel, answers);
      AppendStatus(p, src, offset, size, answers, l, i);
    }
  }
}
