/** Flattened binder objects, the references they stand for, and what the parcel
    operations do to a buffer, its object table and the process-wide ledger. */
module Objects {
  import opened Wire

  const BINDER_TYPE_BINDER: nat := 0x7362_2a85
  const BINDER_TYPE_HANDLE: nat := 0x7368_2a85
  const BINDER_TYPE_FD: nat := 0x6664_2a85
  const FLAT_SIZE: nat := 24
  const U32: nat := 0x1_0000_0000
  const U64: nat := 0x1_0000_0000_0000_0000

  /** `flat_binder_object`; the low half of `binder` doubles as the handle or descriptor. */
  datatype Flat = Flat(kind: nat, flags: nat, binder: nat, cookie: nat) {
    predicate Fits() {
      kind < U32 && flags < U32 && binder < U64 && cookie < U64
    }

    function Handle(): nat {
      binder % U32
    }

    function WithFd(fd: nat): Flat {
      this.(binder := binder / U32 * U32 + fd, cookie := 1)
    }

    /** The one reference a table entry with this content owes a release for. */
    function Held(): multiset<Token> {
      if kind == BINDER_TYPE_BINDER && binder != 0 then multiset{Publish(binder)}
      else if kind == BINDER_TYPE_FD && cookie != 0 then multiset{Fd(Handle())}
      else multiset{}
    }
  }

  function EncFlat(f: Flat): (s: seq<byte>)
    ensures |s| == FLAT_SIZE
  {
    ToLE(f.kind, 4) + ToLE(f.flags, 4) + ToLE(f.binder, 8) + ToLE(f.cookie, 8)
  }

  function DecFlat(s: seq<byte>): (f: Flat)
    requires |s| == FLAT_SIZE
  {
    Flat(FromLE(s[..4]), FromLE(s[4..8]), FromLE(s[8..16]), FromLE(s[16..]))
  }

  lemma PowSizes()
    ensures Pow256(4) == U32 && Pow256(8) == U64
  {
    assert Pow256(4) == U32;
    assert Pow256(8) == 256 * 256 * 256 * 256 * Pow256(4);
  }

  lemma FlatRoundTrip(f: Flat)
    requires f.Fits()
    ensures DecFlat(EncFlat(f)) == f
  {
    PowSizes();
    var s := EncFlat(f);
    assert s[..4] == ToLE(f.kind, 4) && s[4..8] == ToLE(f.flags, 4);
    assert s[8..16] == ToLE(f.binder, 8) && s[16..] == ToLE(f.cookie, 8);
    FromToLE(f.kind, 4);
    FromToLE(f.flags, 4);
    FromToLE(f.binder, 8);
    FromToLE(f.cookie, 8);
  }

  lemma DecFlatFits(s: seq<byte>)
    requires |s| == FLAT_SIZE
    ensures DecFlat(s).Fits()
  {
    PowSizes();
    ToFromLE(s[..4]);
    ToFromLE(s[4..8]);
    ToFromLE(s[8..16]);
    ToFromLE(s[16..]);
  }

  // ----- the process-wide ledger -----

  /** One publish count of a native binder id, or one open descriptor. */
  datatype Token = Publish(id: nat) | Fd(fd: nat)

  /** Everything held, and how often something was released that was not held. */
  datatype Ledger = Ledger(tokens: multiset<Token>, strays: nat) {
    function Add(t: multiset<Token>): Ledger {
      this.(tokens := tokens + t)
    }

    /** `release`: a count saturates at zero and a closed descriptor cannot be closed again. */
    function Remove(t: multiset<Token>): Ledger {
      Ledger(tokens - t, if t <= tokens then strays else strays + 1)
    }
  }

  /** What the operating system and the proxy table answer for one object:
      whether a proxy could be acquired, and the number a `dup` returned. */
  datatype Answer = Answer(proxy: bool, dup: Option<nat>)

  /** `flat_binder_object::acquire`: a descriptor is not counted here. */
  function Acquire(f: Flat, a: Answer, l: Ledger): (r: Result<Ledger>)
  {
    if f.kind == BINDER_TYPE_BINDER then Ok(l.Add(f.Held()))
    else if f.kind == BINDER_TYPE_HANDLE then if a.proxy then Ok(l) else Err(OsError)
    else if f.kind == BINDER_TYPE_FD then Ok(l)
    else Err(InvalidOperation)
  }

  // ----- parcels as values -----

  /** Ascending offsets, each object ending before the next one starts. */
  ghost predicate Spaced(offs: seq<nat>) {
    forall i, j :: 0 <= i < j < |offs| ==> offs[i] + FLAT_SIZE <= offs[j]
  }

  datatype State = State(data: seq<byte>, pos: nat, objects: seq<nat>) {

    /** Table entries lie inside the buffer, in order, and do not overlap. */
    ghost predicate Good() {
      && (forall i :: 0 <= i < |objects| ==> objects[i] + FLAT_SIZE <= |data|)
      && Spaced(objects)
    }

    function TableEnd(): nat {
      if objects == [] then 0 else objects[|objects| - 1] + FLAT_SIZE
    }

    /** The `n` bytes at `at` overlap no entry. */
    predicate Clear(at: nat, n: nat) {
      forall i :: 0 <= i < |objects| ==> objects[i] + FLAT_SIZE <= at || at + n <= objects[i]
    }

    ghost function Held(): multiset<Token>
      requires Good()
    {
      HeldAt(data, objects)
    }
  }

  function At(data: seq<byte>, off: nat): Flat
    requires off + FLAT_SIZE <= |data|
  {
    DecFlat(data[off..off + FLAT_SIZE])
  }

  ghost function HeldAt(data: seq<byte>, objects: seq<nat>): multiset<Token>
    requires forall i :: 0 <= i < |objects| ==> objects[i] + FLAT_SIZE <= |data|
  {
    if objects == [] then multiset{}
    else At(data, objects[0]).Held() + HeldAt(data, objects[1..])
  }

  lemma {:induction false} HeldAtUnchanged(data: seq<byte>, data': seq<byte>, objects: seq<nat>)
    requires forall i :: 0 <= i < |objects| ==> objects[i] + FLAT_SIZE <= |data| && objects[i] + FLAT_SIZE <= |data'|
    requires forall i :: 0 <= i < |objects| ==>
      data[objects[i]..objects[i] + FLAT_SIZE] == data'[objects[i]..objects[i] + FLAT_SIZE]
    ensures HeldAt(data, objects) == HeldAt(data', objects)
  {
    if objects != [] {
      HeldAtUnchanged(data, data', objects[1..]);
    }
  }

  /** A write at or after the end of the last entry overlaps none. */
  lemma AfterTable(p: State, pos: nat, n: nat)
    requires p.Good() && p.TableEnd() <= pos
    ensures p.Clear(pos, n)
  {
  }

  /** A write that overlaps no entry changes none. */
  lemma WriteKeepsHeld(p: State, pos: nat, d: seq<byte>)
    requires p.Good() && p.Clear(pos, |d|)
    ensures p.(data := Overlay(p.data, pos, d)).Good()
    ensures HeldAt(Overlay(p.data, pos, d), p.objects) == p.Held()
  {
    var data' := Overlay(p.data, pos, d);
    forall i | 0 <= i < |p.objects|
      ensures p.data[p.objects[i]..p.objects[i] + FLAT_SIZE] == data'[p.objects[i]..p.objects[i] + FLAT_SIZE]
    {
      assert p.objects[i] + FLAT_SIZE <= pos || pos + |d| <= p.objects[i];
    }
    HeldAtUnchanged(p.data, data', p.objects);
  }

  /** Adding an entry adds exactly what that entry holds. */
  lemma {:induction false} PushHeld(data: seq<byte>, objects: seq<nat>, off: nat)
    requires forall i :: 0 <= i < |objects| ==> objects[i] + FLAT_SIZE <= |data|
    requires off + FLAT_SIZE <= |data|
    ensures HeldAt(data, objects + [off]) == HeldAt(data, objects) + At(data, off).Held()
  {
    hide DecFlat, Flat.Held;
    if objects == [] {
      assert [off][1..] == [];
    } else {
      PushHeld(data, objects[1..], off);
      assert (objects + [off])[1..] == objects[1..] + [off];
    }
  }

  /** `write_aligned_data` on a value: refused without effect past `i32::MAX`. */
  function Write(p: State, d: seq<byte>): (r: Result<State>)
  {
    if p.pos + PadSize(|d|) > I32_MAX then Err(BadValue)
    else Ok(p.(data := Overlay(p.data, p.pos, Padded(d)), pos := p.pos + PadSize(|d|)))
  }

  /** A word needs no pad. */
  lemma WordWritten(p: State, v: i32)
    ensures Write(p, EncI32(v)) ==
            if p.pos + 4 <= I32_MAX then Ok(p.(data := Overlay(p.data, p.pos, EncI32(v)), pos := p.pos + 4)) else Err(BadValue)
  {
    hide EncI32, Overlay;
    assert Padded(EncI32(v)) == EncI32(v);
  }

  /** What an operation leaves behind, whether it succeeded or not. */
  datatype Effect = Effect(state: State, ledger: Ledger, status: Result<()>)

  /** `write_object` on a kernel parcel. */
  function WriteObject(p: State, f: Flat, nullMeta: bool, a: Answer, l: Ledger): (o: Effect)
  {
    match Write(p, EncFlat(f))
    case Err(s) => Effect(p, l, Err(s))
    case Ok(p') =>
      if !nullMeta && f.binder == 0 then Effect(p', l, Ok(()))
      else match Acquire(f, a, l)
           case Err(s) => Effect(p', l, Err(s))
           case Ok(l') => Effect(p'.(objects := p'.objects + [p.pos]), l', Ok(()))
  }

  /** `ParcelFileDescriptor::serialize` on a kernel parcel: marker, `dup`, marker,
      object.  The duplicate is closed again when a later step fails. */
  function WriteFd(p: State, a: Answer, l: Ledger): (o: Effect)
  {
    match Write(p, EncI32(1))
    case Err(s) => Effect(p, l, Err(s))
    case Ok(p1) =>
      match a.dup
      case None => Effect(p1, l, Err(OsError))
      case Some(n) =>
        var mine := multiset{Fd(n)};
        var withDup := l.Add(mine);
        match Write(p1, EncI32(0))
        case Err(s) => Effect(p1, withDup.Remove(mine), Err(s))
        case Ok(p2) =>
          var o := WriteObject(p2, Flat(BINDER_TYPE_FD, 0, n, 1), true, a, withDup);
          if o.status.Ok? then o else o.(ledger := o.ledger.Remove(mine))
  }

  // ----- append_from -----

  predicate Inside(off: nat, offset: nat, size: nat) {
    offset <= off && off + FLAT_SIZE <= offset + size
  }

  /** The entries wholly inside the copied range, in table order. */
  function Selected(objects: seq<nat>, offset: nat, size: nat): (r: seq<nat>)
    ensures forall x :: x in r <==> x in objects && Inside(x, offset, size)
    ensures forall x <- objects :: offset <= x && x + FLAT_SIZE <= offset + size <==> x in r
    ensures forall i :: 0 <= i < |r| ==> Inside(r[i], offset, size)
  {
    if objects == [] then []
    else
      var init, last := objects[..|objects| - 1], objects[|objects| - 1];
      assert objects == init + [last];
      Selected(init, offset, size) + if Inside(last, offset, size) then [last] else []
  }

  /** One pass of the relocation loop: acquire, duplicate and rewrite, then commit. */
  function AdoptOne(p: State, off: nat, a: Answer, l: Ledger): (o: Effect)
  {
    if off + FLAT_SIZE > |p.data| then Effect(p, l, Err(NotEnoughData))
    else
      var f := At(p.data, off);
      match Acquire(f, a, l)
      case Err(s) => Effect(p, l, Err(s))
      case Ok(l') =>
        if f.kind != BINDER_TYPE_FD then Effect(p.(objects := p.objects + [off]), l', Ok(()))
        else match a.dup
             case None => Effect(p, l', Err(OsError))
             case Some(n) =>
               Effect(p.(data := Overlay(p.data, off, EncFlat(f.WithFd(n))), objects := p.objects + [off]),
                       l'.Add(multiset{Fd(n)}), Ok(()))
  }

  /** The relocation loop over the selected entries, stopping at the first failure. */
  function Adopt(p: State, offs: seq<nat>, answers: seq<Answer>, l: Ledger): (o: Effect)
    requires |answers| == |offs|
    decreases offs
  {
    if offs == [] then Effect(p, l, Ok(()))
    else
      var o := AdoptOne(p, offs[0], answers[0], l);
      if o.status.Err? then o else Adopt(o.state, offs[1..], answers[1..], o.ledger)
  }

  function Relocated(objects: seq<nat>, offset: nat, start: nat): (r: seq<nat>)
    requires forall i :: 0 <= i < |objects| ==> offset <= objects[i]
    ensures |r| == |objects| && forall i :: 0 <= i < |r| ==> r[i] == objects[i] - offset + start
  {
    seq(|objects|, i requires 0 <= i < |objects| => objects[i] - offset + start)
  }

  /** `append_from` between kernel parcels; `answers` has one entry per selected object. */
  function Append(p: State, src: State, offset: nat, size: nat, answers: seq<Answer>, l: Ledger): (o: Effect)
    requires |answers| == |Selected(src.objects, offset, size)|
  {
    if size == 0 then Effect(p, l, Ok(()))
    else if size > I32_MAX || offset + size > |src.data| || p.pos + size > I32_MAX then Effect(p, l, Err(BadValue))
    else
      Adopt(Copied(p, src.data[offset..offset + size]),
            Relocated(Selected(src.objects, offset, size), offset, p.pos), answers, l)
  }

  /** The byte copy of `append_from`: unpadded, at the cursor. */
  function Copied(p: State, d: seq<byte>): (q: State)
  {
    p.(data := Overlay(p.data, p.pos, d), pos := p.pos + |d|)
  }

  // ----- release_objects -----

  function Release(data: seq<byte>, objects: seq<nat>, l: Ledger): (r: Ledger)
    decreases objects
  {
    if objects == [] then l
    else
      var off := objects[0];
      Release(data, objects[1..],
              if off + FLAT_SIZE <= |data| then l.Remove(At(data, off).Held()) else l)
  }
}
