/** Ownership is conserved: over every run of writes, descriptor writes, appends
    and drops, failures included, the ledger is the starting ledger plus exactly
    what the live parcels hold. */
module Ownership {
  import opened Wire
  import opened Objects

  // ----- one operation -----

  /** `o` moved `p` to a good parcel and the ledger by exactly the difference in what is held. */
  ghost predicate Balanced(p: State, l: Ledger, o: Effect)
    requires p.Good()
  {
    && o.state.Good()
    && exists gain: multiset<Token> :: Moved(p, l, o, gain)
  }

  ghost predicate Moved(p: State, l: Ledger, o: Effect, gain: multiset<Token>)
    requires p.Good() && o.state.Good()
  {
    && o.ledger == l.Add(gain)
    && o.state.Held() == p.Held() + gain
    && (forall t <- gain :: t.Fd? ==> gain[t] == 1 && t !in l.tokens)
  }

  lemma BalancedTransitive(p: State, l: Ledger, o: Effect, o': Effect)
    requires p.Good() && Balanced(p, l, o) && Balanced(o.state, o.ledger, o')
    ensures Balanced(p, l, o')
  {
    var g :| Moved(p, l, o, g);
    var g' :| Moved(o.state, o.ledger, o', g');
    assert p.Held() + g + g' == p.Held() + (g + g');
    assert l.tokens + g + g' == l.tokens + (g + g');
    assert Moved(p, l, o', g + g');
  }

  /** A number `dup` may return: a valid descriptor that is not open yet. */
  predicate FreshDup(a: Answer, l: Ledger) {
    a.dup.Some? ==> a.dup.value < 0x8000_0000 && Fd(a.dup.value) !in l.tokens
  }

  /** A write at or after the last entry changes nothing that is held. */
  lemma WriteNeutral(p: State, d: seq<byte>)
    requires p.Good() && p.TableEnd() <= p.pos && Write(p, d).Ok?
    ensures var q := Write(p, d).value;
            && q.Good() && q.objects == p.objects && q.Held() == p.Held()
            && p.TableEnd() <= p.pos <= q.pos == p.pos + PadSize(|d|) <= |q.data|
            && q.data[p.pos..p.pos + |d|] == d
  {
    AfterTable(p, p.pos, PadSize(|d|));
    WriteBeside(p, d);
    hide Overlay, HeldAt, Padded;
    WrittenSlice(p.data, p.pos, d);
  }

  /** So does a write that overlaps no entry, wherever the cursor is. */
  lemma WriteBeside(p: State, d: seq<byte>)
    requires p.Good() && p.Clear(p.pos, PadSize(|d|)) && Write(p, d).Ok?
    ensures var q := Write(p, d).value;
            && q.Good() && q.objects == p.objects && q.Held() == p.Held()
            && q.pos == p.pos + PadSize(|d|)
  {
    hide Overlay, HeldAt, Padded;
    WriteKeepsHeld(p, p.pos, Padded(d));
  }

  lemma WrittenSlice(s: seq<byte>, pos: nat, d: seq<byte>)
    ensures var r := Overlay(s, pos, Padded(d));
            pos + |d| <= |r| && r[pos..pos + |d|] == d
  {
    hide Overlay;
    var r := Overlay(s, pos, Padded(d));
    assert r[pos..pos + |d|] == r[pos..pos + |Padded(d)|][..|d|];
  }

  /** Committing an entry after the last one adds exactly what that entry holds. */
  lemma CommitEntry(p: State, off: nat)
    requires p.Good() && p.TableEnd() <= off && off + FLAT_SIZE <= |p.data|
    ensures var q := p.(objects := p.objects + [off]);
            q.Good() && q.Held() == p.Held() + At(p.data, off).Held()
  {
    PushHeld(p.data, p.objects, off);
  }

  lemma WriteObjectBalanced(p: State, f: Flat, nullMeta: bool, a: Answer, l: Ledger)
    requires p.Good() && p.TableEnd() <= p.pos && f.Fits()
    requires f.kind != BINDER_TYPE_FD
    ensures Balanced(p, l, WriteObject(p, f, nullMeta, a, l))
  {
    hide Overlay, EncFlat, DecFlat, Padded, HeldAt, State.Good, State.Held;
    var w := Write(p, EncFlat(f));
    if w.Ok? {
      WriteNeutral(p, EncFlat(f));
      FlatRoundTrip(f);
      assert At(w.value.data, p.pos) == f;
      CommitEntry(w.value, p.pos);
    }
    var o := WriteObject(p, f, nullMeta, a, l);
    var committed := w.Ok? && (nullMeta || f.binder != 0) && Acquire(f, a, l).Ok?;
    assert Moved(p, l, o, if committed then f.Held() else multiset{});
  }

  /** A descriptor object takes over a duplicate that is already in the ledger. */
  lemma WriteFdObject(p: State, n: nat, a: Answer, l: Ledger)
    requires p.Good() && p.TableEnd() <= p.pos && n < 0x8000_0000
    ensures var o := WriteObject(p, Flat(BINDER_TYPE_FD, 0, n, 1), true, a, l);
            && o.state.Good() && o.ledger == l
            && o.state.Held() == if o.status.Ok? then p.Held() + multiset{Fd(n)} else p.Held()
  {
    hide Overlay, EncFlat, DecFlat, Padded, HeldAt, State.Good, State.Held;
    var f := Flat(BINDER_TYPE_FD, 0, n, 1);
    var w := Write(p, EncFlat(f));
    if w.Ok? {
      WriteNeutral(p, EncFlat(f));
      FlatRoundTrip(f);
      assert At(w.value.data, p.pos) == f;
      CommitEntry(w.value, p.pos);
    }
  }

  lemma AddRemove(l: Ledger, t: multiset<Token>)
    ensures l.Add(t).Remove(t) == l
  {
    assert l.tokens + t - t == l.tokens;
  }

  lemma WriteFdBalanced(p: State, a: Answer, l: Ledger)
    requires p.Good() && p.TableEnd() <= p.pos && FreshDup(a, l)
    ensures Balanced(p, l, WriteFd(p, a, l))
  {
    hide Overlay, Padded, EncI32, WriteObject, HeldAt, State.Good, State.Held, Write;
    var o := WriteFd(p, a, l);
    var gain := if o.status.Ok? then multiset{Fd(a.dup.value)} else multiset{};
    match Write(p, EncI32(1))
    case Err(_) =>
      NothingMoved(p, l, o);
    case Ok(p1) =>
      WriteNeutral(p, EncI32(1));
      if a.dup.Some? {
        WriteFdTail(p1, a, l);
      }
      assert o.state.Good() && o.state.Held() == p.Held() + gain && o.ledger == l.Add(gain);
      assert Moved(p, l, o, gain);
  }

  lemma NothingMoved(p: State, l: Ledger, o: Effect)
    requires p.Good() && o.state == p && o.ledger == l
    ensures Balanced(p, l, o)
  {
    assert Moved(p, l, o, multiset{});
  }

  /** After the flag and the `dup`: the descriptor is either held by the parcel or closed. */
  lemma WriteFdTail(p: State, a: Answer, l: Ledger)
    requires p.Good() && p.TableEnd() <= p.pos && a.dup.Some? && FreshDup(a, l)
    ensures var mine := multiset{Fd(a.dup.value)};
            var withDup := l.Add(mine);
            && withDup.Remove(mine) == l
            && (Write(p, EncI32(0)).Ok? ==>
                  var o := WriteObject(Write(p, EncI32(0)).value, Flat(BINDER_TYPE_FD, 0, a.dup.value, 1), true, a, withDup);
                  && o.state.Good() && o.ledger == withDup
                  && o.state.Held() == if o.status.Ok? then p.Held() + mine else p.Held())
  {
    hide Overlay, Padded, EncI32, WriteObject, HeldAt, State.Good, State.Held, Write;
    AddRemove(l, multiset{Fd(a.dup.value)});
    if Write(p, EncI32(0)).Ok? {
      WriteNeutral(p, EncI32(0));
      WriteFdObject(Write(p, EncI32(0)).value, a.dup.value, a, l.Add(multiset{Fd(a.dup.value)}));
    }
  }

  // ----- append_from -----

  /** Entries still to be adopted: in order, without overlap, inside the buffer and after the table. */
  ghost predicate Pending(p: State, offs: seq<nat>) {
    && (forall i :: 0 <= i < |offs| ==> p.TableEnd() <= offs[i] && offs[i] + FLAT_SIZE <= |p.data|)
    && Spaced(offs)
  }

  lemma WithFdFits(f: Flat, n: nat)
    requires f.Fits() && n < 0x8000_0000
    ensures f.WithFd(n).Fits() && f.WithFd(n).Handle() == n
  {
    assert f.WithFd(n).binder == (f.binder / U32) * U32 + n;
  }

  /** Rewriting the descriptor of a pending entry keeps the table and everything it holds. */
  lemma RewriteFd(p: State, off: nat, n: nat)
    requires p.Good() && p.TableEnd() <= off && off + FLAT_SIZE <= |p.data| && n < 0x8000_0000
    requires At(p.data, off).kind == BINDER_TYPE_FD
    ensures var q := p.(data := Overlay(p.data, off, EncFlat(At(p.data, off).WithFd(n))));
            q.Good() && q.Held() == p.Held() && At(q.data, off).Held() == multiset{Fd(n)}
  {
    var f := At(p.data, off);
    DecFlatFits(p.data[off..off + FLAT_SIZE]);
    WithFdFits(f, n);
    FlatRoundTrip(f.WithFd(n));
    WriteKeepsHeld(p, off, EncFlat(f.WithFd(n)));
  }

  lemma AdoptFdBalanced(p: State, off: nat, a: Answer, l: Ledger)
    requires p.Good() && p.TableEnd() <= off && off + FLAT_SIZE <= |p.data| && FreshDup(a, l)
    requires At(p.data, off).kind == BINDER_TYPE_FD && a.dup.Some?
    ensures Balanced(p, l, AdoptOne(p, off, a, l))
  {
    hide Overlay, EncFlat, DecFlat, HeldAt, State.Good, State.Held;
    var n := a.dup.value;
    var f := At(p.data, off);
    var q := p.(data := Overlay(p.data, off, EncFlat(f.WithFd(n))));
    RewriteFd(p, off, n);
    CommitEntry(q, off);
    assert Moved(p, l, AdoptOne(p, off, a, l), multiset{Fd(n)});
  }

  lemma AdoptOneBalanced(p: State, off: nat, a: Answer, l: Ledger)
    requires p.Good() && p.TableEnd() <= off && off + FLAT_SIZE <= |p.data| && FreshDup(a, l)
    ensures Balanced(p, l, AdoptOne(p, off, a, l))
    ensures var o := AdoptOne(p, off, a, l);
            |o.state.data| == |p.data| && (o.status.Ok? ==> o.state.TableEnd() == off + FLAT_SIZE)
  {
    hide Overlay, EncFlat, DecFlat, HeldAt, State.Good, State.Held;
    var f := At(p.data, off);
    if f.kind == BINDER_TYPE_FD && a.dup.Some? {
      AdoptFdBalanced(p, off, a, l);
    } else {
      CommitEntry(p, off);
      var o := AdoptOne(p, off, a, l);
      assert Moved(p, l, o, if o.status.Ok? then f.Held() else multiset{});
    }
  }

  /** The duplicates handed out during one append are fresh when they are handed out. */
  predicate FreshDups(p: State, offs: seq<nat>, answers: seq<Answer>, l: Ledger)
    requires |answers| == |offs|
    decreases offs
  {
    offs == [] ||
    (&& FreshDup(answers[0], l)
     && var o := AdoptOne(p, offs[0], answers[0], l);
        o.status.Ok? ==> FreshDups(o.state, offs[1..], answers[1..], o.ledger))
  }

  lemma {:induction false} AdoptBalanced(p: State, offs: seq<nat>, answers: seq<Answer>, l: Ledger)
    requires |answers| == |offs|
    requires p.Good() && Pending(p, offs) && FreshDups(p, offs, answers, l)
    ensures Balanced(p, l, Adopt(p, offs, answers, l))
    decreases offs
  {
    hide AdoptOne, Overlay, HeldAt, State.Good, State.Held, State.TableEnd;
    if offs != [] {
      AdoptOneBalanced(p, offs[0], answers[0], l);
      var o := AdoptOne(p, offs[0], answers[0], l);
      if o.status.Ok? {
        AdoptBalanced(o.state, offs[1..], answers[1..], o.ledger);
        BalancedTransitive(p, l, o, Adopt(o.state, offs[1..], answers[1..], o.ledger));
      }
    } else {
      assert Moved(p, l, Adopt(p, offs, answers, l), multiset{});
    }
  }

  /** In a good table the selected entries keep their order and their distance. */
  lemma {:induction false} SelectedSpaced(objects: seq<nat>, offset: nat, size: nat)
    requires Spaced(objects)
    ensures Spaced(Selected(objects, offset, size))
  {
    if objects != [] {
      var init, last := objects[..|objects| - 1], objects[|objects| - 1];
      SelectedSpaced(init, offset, size);
      var s := Selected(init, offset, size);
      forall k | 0 <= k < |s|
        ensures s[k] + FLAT_SIZE <= last
      {
        assert s[k] in s;
        var i :| 0 <= i < |init| && init[i] == s[k];
        assert objects[i] == s[k];
      }
    }
  }

  lemma AppendPending(p: State, src: State, offset: nat, size: nat)
    requires p.Good() && src.Good() && p.TableEnd() <= p.pos && offset + size <= |src.data|
    ensures var q := Copied(p, src.data[offset..offset + size]);
            && q.Good() && q.Held() == p.Held()
            && Pending(q, Relocated(Selected(src.objects, offset, size), offset, p.pos))
  {
    AfterTable(p, p.pos, size);
    WriteKeepsHeld(p, p.pos, src.data[offset..offset + size]);
    SelectedSpaced(src.objects, offset, size);
  }

  predicate AppendRuns(p: State, src: State, offset: nat, size: nat) {
    size != 0 && size <= I32_MAX && offset + size <= |src.data| && p.pos + size <= I32_MAX
  }

  predicate FreshAppend(p: State, src: State, offset: nat, size: nat, answers: seq<Answer>, l: Ledger) {
    && |answers| == |Selected(src.objects, offset, size)|
    && (AppendRuns(p, src, offset, size) ==>
          FreshDups(Copied(p, src.data[offset..offset + size]),
                    Relocated(Selected(src.objects, offset, size), offset, p.pos), answers, l))
  }

  lemma AppendBalanced(p: State, src: State, offset: nat, size: nat, answers: seq<Answer>, l: Ledger)
    requires p.Good() && src.Good() && p.TableEnd() <= p.pos
    requires FreshAppend(p, src, offset, size, answers, l)
    ensures Balanced(p, l, Append(p, src, offset, size, answers, l))
  {
    hide AdoptOne, Overlay, HeldAt, State.Good, State.Held, State.TableEnd, Selected, Relocated, FreshDups, Pending;
    if AppendRuns(p, src, offset, size) {
      AppendPending(p, src, offset, size);
      var q := Copied(p, src.data[offset..offset + size]);
      AdoptBalanced(q, Relocated(Selected(src.objects, offset, size), offset, p.pos), answers, l);
      var o := Append(p, src, offset, size, answers, l);
      var gain :| Moved(q, l, o, gain);
      assert Moved(p, l, o, gain);
    } else {
      assert Moved(p, l, Append(p, src, offset, size, answers, l), multiset{});
    }
  }

  // ----- drop -----

  /** Dropping a parcel releases each entry once: the ledger loses exactly what the parcel held. */
  lemma {:induction false} ReleaseExact(data: seq<byte>, objects: seq<nat>, l: Ledger)
    requires forall i :: 0 <= i < |objects| ==> objects[i] + FLAT_SIZE <= |data|
    requires HeldAt(data, objects) <= l.tokens
    ensures Release(data, objects, l) == Ledger(l.tokens - HeldAt(data, objects), l.strays)
    decreases objects
  {
    hide DecFlat, Flat.Held;
    if objects != [] {
      var t := At(data, objects[0]).Held();
      ReleaseExact(data, objects[1..], l.Remove(t));
      assert l.tokens - t - HeldAt(data, objects[1..]) == l.tokens - HeldAt(data, objects);
    }
  }

  // ----- runs -----

  /** What a program does with parcels. `Sized` is a block whose length is filled in once its
      body is written, as `sized_write` and a live holder do it: `length` is the word patched
      in at the start, or `None` when the body failed and the placeholder stays. */
  datatype Event =
    | Create
    | Seek(p: nat, pos: nat)
    | Plain(p: nat, bytes: seq<byte>)
    | Binder(p: nat, flat: Flat, answer: Answer)
    | Descriptor(p: nat, answer: Answer)
    | AppendFrom(p: nat, src: nat, offset: nat, size: nat, answers: seq<Answer>)
    | Sized(p: nat, body: seq<Event>, length: Option<i32>)
    | Drop(p: nat)

  datatype Stage = Stage(parcels: seq<State>, ledger: Ledger)

  /** An event that writes at the cursor of `p`. */
  predicate Writes(e: Event, p: nat) {
    !e.Create? && !e.Seek? && !e.Drop? && e.p == p
  }

  /** What a run may do: plain bytes overlap no object, objects and blocks start at or after
      the last one, binders are native ids or handles, and `dup` returns unused numbers. */
  ghost predicate Allowed(w: Stage, e: Event)
    decreases e, 0
  {
    (e.Create? || e.p < |w.parcels|) &&
    match e
    case Create => true
    case Seek(_, _) => true
    case Plain(p, d) => w.parcels[p].Clear(w.parcels[p].pos, PadSize(|d|))
    case Binder(p, f, _) =>
      w.parcels[p].TableEnd() <= w.parcels[p].pos && f.Fits() && f.kind != BINDER_TYPE_FD
    case Descriptor(p, a) => w.parcels[p].TableEnd() <= w.parcels[p].pos && FreshDup(a, w.ledger)
    case AppendFrom(p, src, offset, size, answers) =>
      && src < |w.parcels| && src != p
      && w.parcels[p].TableEnd() <= w.parcels[p].pos
      && FreshAppend(w.parcels[p], w.parcels[src], offset, size, answers, w.ledger)
    case Sized(p, body, _) =>
      && w.parcels[p].TableEnd() <= w.parcels[p].pos
      && (forall e <- body :: Writes(e, p))
      && (Write(w.parcels[p], EncI32(0)).Ok? ==> Careful(Written(w, p, EncI32(0)), body))
    case Drop(_) => true
  }

  function Perform(w: Stage, p: nat, o: Effect): Stage
    requires p < |w.parcels|
  {
    Stage(w.parcels[p := o.state], o.ledger)
  }

  /** Plain bytes at the cursor of `p`, if they fit. */
  function Written(w: Stage, p: nat, d: seq<byte>): (r: Stage)
    requires p < |w.parcels|
    ensures |r.parcels| == |w.parcels|
  {
    var r := Write(w.parcels[p], d);
    Perform(w, p, Effect(if r.Ok? then r.value else w.parcels[p], w.ledger, Ok(())))
  }

  function CursorAt(w: Stage, p: nat, pos: nat): (r: Stage)
    requires p < |w.parcels|
    ensures |r.parcels| == |w.parcels|
  {
    w.(parcels := w.parcels[p := w.parcels[p].(pos := pos)])
  }

  /** Back to `start`, the word, and forward again. */
  function Patched(w: Stage, p: nat, start: nat, length: i32): Stage
    requires p < |w.parcels|
  {
    CursorAt(Written(CursorAt(w, p, start), p, EncI32(length)), p, w.parcels[p].pos)
  }

  /** One event, whatever its status: a failed operation keeps what it had done so far. */
  ghost function Step(w: Stage, e: Event): (r: Stage)
    requires Allowed(w, e)
    ensures !e.Create? && !e.Drop? ==> |r.parcels| == |w.parcels|
    decreases e, 1
  {
    match e
    case Create => w.(parcels := w.parcels + [State([], 0, [])])
    case Seek(p, pos) => CursorAt(w, p, pos)
    case Plain(p, d) => Written(w, p, d)
    case Binder(p, f, a) => Perform(w, p, WriteObject(w.parcels[p], f, false, a, w.ledger))
    case Descriptor(p, a) => Perform(w, p, WriteFd(w.parcels[p], a, w.ledger))
    case AppendFrom(p, src, offset, size, answers) =>
      Perform(w, p, Append(w.parcels[p], w.parcels[src], offset, size, answers, w.ledger))
    case Sized(p, body, length) =>
      if Write(w.parcels[p], EncI32(0)).Err? then w
      else
        var inside := Run(Written(w, p, EncI32(0)), body);
        if length.None? then inside else Patched(inside, p, w.parcels[p].pos, length.value)
    case Drop(p) =>
      Stage(w.parcels[..p] + w.parcels[p + 1..],
            Release(w.parcels[p].data, w.parcels[p].objects, w.ledger))
  }

  /** Every event of the run is allowed when it happens. */
  ghost predicate Careful(w: Stage, run: seq<Event>)
    decreases run, 0
  {
    run == [] || (Allowed(w, run[0]) && Careful(Step(w, run[0]), run[1..]))
  }

  ghost function Run(w: Stage, run: seq<Event>): (r: Stage)
    requires Careful(w, run)
    ensures (forall e <- run :: !e.Create? && !e.Drop?) ==> |r.parcels| == |w.parcels|
    decreases run, 1
  {
    if run == [] then w else Run(Step(w, run[0]), run[1..])
  }

  ghost predicate AllGood(parcels: seq<State>) {
    forall p <- parcels :: p.Good()
  }

  ghost function TotalHeld(parcels: seq<State>): multiset<Token>
    requires AllGood(parcels)
  {
    if parcels == [] then multiset{} else parcels[0].Held() + TotalHeld(parcels[1..])
  }

  /** The ledger is the starting one plus what the live parcels hold; no descriptor
      is open twice and nothing was released that was not held. */
  ghost predicate Accounted(w: Stage, base: Ledger) {
    && AllGood(w.parcels)
    && w.ledger == base.Add(TotalHeld(w.parcels))
    && forall n :: w.ledger.tokens[Fd(n)] <= 1
  }

  lemma {:induction false} TotalSplit(a: seq<State>, b: seq<State>)
    requires AllGood(a) && AllGood(b)
    ensures AllGood(a + b) && TotalHeld(a + b) == TotalHeld(a) + TotalHeld(b)
  {
    hide State.Good, State.Held;
    if a == [] {
      assert a + b == b;
    } else {
      assert (a + b)[1..] == a[1..] + b;
      TotalSplit(a[1..], b);
    }
  }

  lemma TotalAt(parcels: seq<State>, i: nat, q: State)
    requires i < |parcels| && AllGood(parcels) && q.Good()
    ensures AllGood(parcels[..i] + parcels[i + 1..]) && AllGood(parcels[i := q])
    ensures TotalHeld(parcels) == TotalHeld(parcels[..i] + parcels[i + 1..]) + parcels[i].Held()
    ensures TotalHeld(parcels[i := q]) == TotalHeld(parcels[..i] + parcels[i + 1..]) + q.Held()
  {
    hide State.Good, State.Held;
    assert parcels == parcels[..i] + ([parcels[i]] + parcels[i + 1..]);
    assert parcels[i := q] == parcels[..i] + ([q] + parcels[i + 1..]);
    TotalSplit(parcels[..i], parcels[i + 1..]);
    TotalSplit([parcels[i]], parcels[i + 1..]);
    TotalSplit([q], parcels[i + 1..]);
    TotalSplit(parcels[..i], [parcels[i]] + parcels[i + 1..]);
    TotalSplit(parcels[..i], [q] + parcels[i + 1..]);
  }

  lemma PerformAccounted(w: Stage, base: Ledger, p: nat, o: Effect)
    requires Accounted(w, base) && p < |w.parcels| && Balanced(w.parcels[p], w.ledger, o)
    ensures Accounted(Perform(w, p, o), base)
  {
    hide State.Good, State.Held, TotalHeld;
    var gain :| Moved(w.parcels[p], w.ledger, o, gain);
    TotalAt(w.parcels, p, o.state);
    assert TotalHeld(w.parcels[p := o.state]) == TotalHeld(w.parcels) + gain;
  }

  lemma DropAccounted(w: Stage, base: Ledger, p: nat)
    requires Accounted(w, base) && p < |w.parcels|
    ensures Accounted(Step(w, Drop(p)), base)
  {
    hide State.Good, TotalHeld, HeldAt;
    var s := w.parcels[p];
    TotalAt(w.parcels, p, s);
    ReleaseAccounted(s, w.ledger);
    var rest := w.parcels[..p] + w.parcels[p + 1..];
    assert base.tokens + (TotalHeld(rest) + s.Held()) - s.Held() == base.tokens + TotalHeld(rest);
  }

  lemma ReleaseAccounted(s: State, l: Ledger)
    requires s.Good() && s.Held() <= l.tokens
    ensures Release(s.data, s.objects, l) == Ledger(l.tokens - s.Held(), l.strays)
  {
    ReleaseExact(s.data, s.objects, l);
  }

  // ----- sized blocks -----

  /** `t` is `s` after writing on: old entries kept, new ones at or after the old cursor. */
  predicate Onward(s: State, t: State) {
    && s.pos <= t.pos
    && |s.objects| <= |t.objects| && t.objects[..|s.objects|] == s.objects
    && forall i :: |s.objects| <= i < |t.objects| ==> s.pos <= t.objects[i]
  }

  lemma OnwardTransitive(s: State, t: State, u: State)
    requires Onward(s, t) && Onward(t, u)
    ensures Onward(s, u)
  {
    assert u.objects[..|s.objects|] == u.objects[..|t.objects|][..|s.objects|];
    forall i | |s.objects| <= i < |u.objects|
      ensures s.pos <= u.objects[i]
    {
      if i < |t.objects| {
        assert u.objects[i] == u.objects[..|t.objects|][i];
      }
    }
  }

  lemma {:induction false} AdoptOnward(p: State, offs: seq<nat>, answers: seq<Answer>, l: Ledger, from: nat)
    requires |answers| == |offs| && from <= p.pos && forall i :: 0 <= i < |offs| ==> from <= offs[i]
    ensures var t := Adopt(p, offs, answers, l).state;
            t.pos == p.pos && Onward(p.(pos := from), t)
    decreases offs
  {
    hide Overlay, EncFlat, DecFlat;
    if offs != [] {
      var o := AdoptOne(p, offs[0], answers[0], l);
      if o.status.Ok? {
        AdoptOnward(o.state, offs[1..], answers[1..], o.ledger, from);
        OnwardTransitive(p.(pos := from), o.state.(pos := from), Adopt(o.state, offs[1..], answers[1..], o.ledger).state);
      }
    }
  }

  lemma AppendOnward(p: State, src: State, offset: nat, size: nat, answers: seq<Answer>, l: Ledger)
    requires |answers| == |Selected(src.objects, offset, size)|
    ensures Onward(p, Append(p, src, offset, size, answers, l).state)
  {
    hide Overlay, Selected, Adopt, Relocated;
    if AppendRuns(p, src, offset, size) {
      var c := Copied(p, src.data[offset..offset + size]);
      AdoptOnward(c, Relocated(Selected(src.objects, offset, size), offset, p.pos), answers, l, p.pos);
    }
  }

  lemma ObjectOnward(p: State, f: Flat, nullMeta: bool, a: Answer, l: Ledger)
    ensures Onward(p, WriteObject(p, f, nullMeta, a, l).state)
  {
    hide Overlay, EncFlat, Acquire;
  }

  lemma FdOnward(p: State, a: Answer, l: Ledger)
    ensures Onward(p, WriteFd(p, a, l).state)
  {
    hide Overlay, EncI32, WriteObject;
    var w := Write(p, EncI32(1));
    if w.Ok? && a.dup.Some? && Write(w.value, EncI32(0)).Ok? {
      var q := Write(w.value, EncI32(0)).value;
      ObjectOnward(q, Flat(BINDER_TYPE_FD, 0, a.dup.value, 1), true, a, l.Add(multiset{Fd(a.dup.value)}));
      OnwardTransitive(p, q, WriteObject(q, Flat(BINDER_TYPE_FD, 0, a.dup.value, 1), true, a, l.Add(multiset{Fd(a.dup.value)})).state);
    }
  }

  /** Writing at the cursor of `p` moves it on. */
  lemma {:induction false} StepOnward(w: Stage, e: Event, p: nat)
    requires p < |w.parcels| && Allowed(w, e) && Writes(e, p)
    ensures var t := Step(w, e).parcels[p];
            Onward(w.parcels[p], t)
    decreases e, 0
  {
    hide Overlay, EncI32, Append, Careful, WriteObject, WriteFd, Run;
    match e
    case Binder(_, f, a) =>
      ObjectOnward(w.parcels[p], f, false, a, w.ledger);
    case Descriptor(_, a) =>
      FdOnward(w.parcels[p], a, w.ledger);
    case AppendFrom(_, src, offset, size, answers) =>
      AppendOnward(w.parcels[p], w.parcels[src], offset, size, answers, w.ledger);
    case Sized(_, body, length) =>
      if Write(w.parcels[p], EncI32(0)).Ok? {
        SizedOnward(w, p, body);
      }
    case _ =>
  }

  lemma {:induction false} SizedOnward(w: Stage, p: nat, body: seq<Event>)
    requires p < |w.parcels| && Write(w.parcels[p], EncI32(0)).Ok?
    requires Careful(Written(w, p, EncI32(0)), body) && forall e <- body :: Writes(e, p)
    ensures var inside := Run(Written(w, p, EncI32(0)), body).parcels;
            |inside| == |w.parcels| && Onward(Written(w, p, EncI32(0)).parcels[p], inside[p]) && Onward(w.parcels[p], inside[p])
    decreases body, 2
  {
    hide Overlay, EncI32, Padded, Careful, Run;
    var w1 := Written(w, p, EncI32(0));
    RunOnward(w1, body, p);
    OnwardTransitive(w.parcels[p], w1.parcels[p], Run(w1, body).parcels[p]);
  }

  lemma {:induction false} RunOnward(w: Stage, run: seq<Event>, p: nat)
    requires p < |w.parcels| && Careful(w, run) && forall e <- run :: Writes(e, p)
    ensures |Run(w, run).parcels| == |w.parcels| && Onward(w.parcels[p], Run(w, run).parcels[p])
    decreases run, 1
  {
    hide Allowed, Step;
    if run != [] {
      assert run[0] in run;
      StepOnward(w, run[0], p);
      RunOnward(Step(w, run[0]), run[1..], p);
      OnwardTransitive(w.parcels[p], Step(w, run[0]).parcels[p], Run(w, run).parcels[p]);
    }
  }

  /** The placeholder of a block overlaps none of the objects written inside it, so filling
      it in leaves every reference alone. */
  lemma PatchIsClear(s: State, inside: State)
    requires s.Good() && s.TableEnd() <= s.pos && Write(s, EncI32(0)).Ok?
    requires Onward(Write(s, EncI32(0)).value, inside)
    ensures inside.(pos := s.pos).Clear(s.pos, 4)
  {
    hide Overlay, EncI32, Padded;
    forall i | 0 <= i < |inside.objects|
      ensures inside.objects[i] + FLAT_SIZE <= s.pos || s.pos + 4 <= inside.objects[i]
    {
      if i < |s.objects| {
        assert inside.objects[i] == inside.objects[..|s.objects|][i] == s.objects[i];
      }
    }
  }

  // ----- accounting -----

  lemma WrittenAccounted(w: Stage, base: Ledger, p: nat, d: seq<byte>)
    requires Accounted(w, base) && p < |w.parcels| && w.parcels[p].Clear(w.parcels[p].pos, PadSize(|d|))
    ensures Accounted(Written(w, p, d), base)
  {
    hide State.Held, HeldAt, TotalHeld, Overlay, Padded, State.Good;
    var r := Write(w.parcels[p], d);
    var o := Effect(if r.Ok? then r.value else w.parcels[p], w.ledger, Ok(()));
    if r.Ok? {
      WriteBeside(w.parcels[p], d);
    }
    assert Moved(w.parcels[p], w.ledger, o, multiset{});
    PerformAccounted(w, base, p, o);
  }

  lemma SeekAccounted(w: Stage, base: Ledger, p: nat, pos: nat)
    requires Accounted(w, base) && p < |w.parcels|
    ensures Accounted(CursorAt(w, p, pos), base)
  {
    hide State.Held, HeldAt, TotalHeld, State.Good;
    var q := w.parcels[p].(pos := pos);
    SeekNeutral(w.parcels[p], pos);
    assert Moved(w.parcels[p], w.ledger, Effect(q, w.ledger, Ok(())), multiset{});
    PerformAccounted(w, base, p, Effect(q, w.ledger, Ok(())));
  }

  lemma PatchAccounted(w: Stage, base: Ledger, p: nat, start: nat, length: i32)
    requires Accounted(w, base) && p < |w.parcels| && w.parcels[p].(pos := start).Clear(start, 4)
    ensures Accounted(Patched(w, p, start, length), base)
  {
    hide Accounted, EncI32, Write;
    SeekAccounted(w, base, p, start);
    WrittenAccounted(CursorAt(w, p, start), base, p, EncI32(length));
    SeekAccounted(Written(CursorAt(w, p, start), p, EncI32(length)), base, p, w.parcels[p].pos);
  }

  lemma {:induction false} StepAccounted(w: Stage, e: Event, base: Ledger)
    requires Accounted(w, base) && Allowed(w, e)
    ensures Accounted(Step(w, e), base)
    decreases e, 0
  {
    hide State.Held, HeldAt, TotalHeld, WriteObject, WriteFd, Append, Release, State.TableEnd, FreshDups, Overlay, Padded, Written, CursorAt, Patched;
    match e
    case Create =>
      TotalSplit(w.parcels, [State([], 0, [])]);
      EmptyHoldsNothing();
    case Seek(p, pos) =>
      SeekAccounted(w, base, p, pos);
    case Plain(p, d) =>
      WrittenAccounted(w, base, p, d);
    case Binder(p, f, a) =>
      WriteObjectBalanced(w.parcels[p], f, false, a, w.ledger);
      PerformAccounted(w, base, p, WriteObject(w.parcels[p], f, false, a, w.ledger));
    case Descriptor(p, a) =>
      WriteFdBalanced(w.parcels[p], a, w.ledger);
      PerformAccounted(w, base, p, WriteFd(w.parcels[p], a, w.ledger));
    case AppendFrom(p, src, offset, size, answers) =>
      AppendBalanced(w.parcels[p], w.parcels[src], offset, size, answers, w.ledger);
      PerformAccounted(w, base, p, Append(w.parcels[p], w.parcels[src], offset, size, answers, w.ledger));
    case Sized(p, body, length) =>
      SizedAccounted(w, p, body, length, base);
    case Drop(p) =>
      DropAccounted(w, base, p);
  }

  lemma {:induction false} SizedAccounted(w: Stage, p: nat, body: seq<Event>, length: Option<i32>, base: Ledger)
    requires Accounted(w, base) && Allowed(w, Sized(p, body, length))
    ensures Accounted(Step(w, Sized(p, body, length)), base)
    decreases body, 2
  {
    hide Accounted, State.Good, State.TableEnd, Overlay, EncI32, Run, Careful, Patched;
    var s := w.parcels[p];
    if Write(s, EncI32(0)).Ok? {
      GoodParcel(w, base, p);
      AfterTable(s, s.pos, 4);
      WrittenAccounted(w, base, p, EncI32(0));
      RunAccounted(Written(w, p, EncI32(0)), body, base);
      SizedOnward(w, p, body);
      var inside := Run(Written(w, p, EncI32(0)), body);
      if length.Some? {
        PatchIsClear(s, inside.parcels[p]);
        PatchAccounted(inside, base, p, s.pos, length.value);
      }
    }
  }

  lemma GoodParcel(w: Stage, base: Ledger, p: nat)
    requires Accounted(w, base) && p < |w.parcels|
    ensures w.parcels[p].Good()
  {
    assert w.parcels[p] in w.parcels;
  }

  lemma EmptyHoldsNothing()
    ensures AllGood([State([], 0, [])]) && TotalHeld([State([], 0, [])]) == multiset{}
  {
    var s := State([], 0, []);
    assert [s][1..] == [];
  }

  lemma SeekNeutral(s: State, pos: nat)
    requires s.Good()
    ensures s.(pos := pos).Good() && s.(pos := pos).Held() == s.Held()
  {
  }

  lemma {:induction false} RunAccounted(w: Stage, run: seq<Event>, base: Ledger)
    requires Accounted(w, base) && Careful(w, run)
    ensures Accounted(Run(w, run), base)
    decreases run, 1
  {
    hide Allowed, Step, Accounted;
    if run != [] {
      StepAccounted(w, run[0], base);
      RunAccounted(Step(w, run[0]), run[1..], base);
    }
  }

  /** Conservation: once every parcel of a careful run has been dropped, the ledger
      is back where it started and no release missed its target. */
  lemma OwnershipConserved(run: seq<Event>, base: Ledger)
    requires forall n :: base.tokens[Fd(n)] <= 1
    requires Careful(Stage([], base), run)
    ensures var w := Run(Stage([], base), run);
            Accounted(w, base) && (w.parcels == [] ==> w.ledger == base)
  {
    hide Allowed, Step;
    assert base.Add(multiset{}) == base;
    RunAccounted(Stage([], base), run, base);
  }

  /** Why plain bytes must overlap no object: those written over one erase the reference its
      table entry owes, and dropping the parcel no longer releases it. */
  lemma RewindLeaks(id: nat, l: Ledger)
    requires 0 < id < U64
    ensures var p := State(EncFlat(Flat(BINDER_TYPE_BINDER, 0, id, 0)), 0, [0]);
            var w := Write(p, EncFlat(Flat(0, 0, 0, 0)));
            && p.Good() && p.Held() == multiset{Publish(id)}
            && w.Ok? && w.value.Good() && w.value.Held() == multiset{}
            && Release(w.value.data, w.value.objects, l.Add(p.Held())) == l.Add(multiset{Publish(id)})
  {
    hide EncFlat, DecFlat;
    var f, g := Flat(BINDER_TYPE_BINDER, 0, id, 0), Flat(0, 0, 0, 0);
    var p := State(EncFlat(f), 0, [0]);
    FlatRoundTrip(f);
    FlatRoundTrip(g);
    OneHeld(p.data, f);
    var w := Write(p, EncFlat(g)).value;
    assert Padded(EncFlat(g)) == EncFlat(g);
    assert w.data == EncFlat(g);
    OneHeld(w.data, g);
    ReleaseExact(w.data, [0], l.Add(p.Held()));
    assert l.tokens + multiset{Publish(id)} - multiset{} == l.tokens + multiset{Publish(id)};
  }

  lemma OneHeld(data: seq<byte>, f: Flat)
    requires |data| == FLAT_SIZE && DecFlat(data) == f
    ensures HeldAt(data, [0]) == f.Held()
  {
    assert data[0..FLAT_SIZE] == data && [0][1..] == [];
    assert HeldAt(data, [0][1..]) == multiset{};
  }
}
