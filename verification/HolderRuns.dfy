/** Ownership with parcelable holders: a lazy holder keeps a parcel of its own, and gives it up
    when it is looked into, set, reset, received into again or dropped. */
module HolderRuns {
  import opened Wire
  import opened Objects
  import opened Ownership

  const VACANT := State([], 0, [])

  /** For each holder the parcel of its lazy contents (`VACANT` for any other), and the
      parcels of the program. */
  datatype Household = Household(slots: seq<State>, parcels: seq<State>, ledger: Ledger) {
    function Whole(): Stage {
      Stage(slots + parcels, ledger)
    }
  }

  /** `Use` is anything a program does with its own parcels; forwarding a lazy holder, inside a
      block or not, is an append whose source is a slot.  `Unpack` is `read_from_parcel` past
      its header.  `Give` is every way a holder lets its contents go: a matching lookup, a new
      value, a reset, an empty payload, or the end of the holder. */
  datatype Deed =
    | Use(event: Event)
    | Holder
    | Unpack(h: nat, src: nat, start: nat, size: nat, answers: seq<Answer>)
    | Give(h: nat)

  ghost predicate Permitted(w: Household, d: Deed) {
    match d
    case Use(e) => Allowed(w.Whole(), e) && (e.Create? || |w.slots| <= e.p)
    case Holder => true
    case Unpack(h, src, start, size, answers) =>
      && h < |w.slots| && src < |w.Whole().parcels|
      && FreshAppend(VACANT, w.Whole().parcels[src], start, size, answers, w.ledger)
    case Give(h) => h < |w.slots|
  }

  ghost function Do(w: Household, d: Deed): Household
    requires Permitted(w, d)
  {
    match d
    case Use(e) =>
      var s := Step(w.Whole(), e);
      Household(s.parcels[..|w.slots|], s.parcels[|w.slots|..], s.ledger)
    case Holder => w.(slots := w.slots + [VACANT])
    case Unpack(h, src, start, size, answers) =>
      var o := Append(VACANT, w.Whole().parcels[src], start, size, answers, w.ledger);
      if o.status.Err? then w.(ledger := Dropped(o.state, o.ledger))
      else w.(slots := w.slots[h := o.state], ledger := Dropped(w.slots[h], o.ledger))
    case Give(h) => w.(slots := w.slots[h := VACANT], ledger := Dropped(w.slots[h], w.ledger))
  }

  function Dropped(s: State, l: Ledger): Ledger {
    Release(s.data, s.objects, l)
  }

  ghost predicate Scrupulous(w: Household, run: seq<Deed>)
    decreases run
  {
    run == [] || (Permitted(w, run[0]) && Scrupulous(Do(w, run[0]), run[1..]))
  }

  ghost function After(w: Household, run: seq<Deed>): Household
    requires Scrupulous(w, run)
    decreases run
  {
    if run == [] then w else After(Do(w, run[0]), run[1..])
  }

  // ----- slots are private -----

  /** An event touches no parcel before its own. */
  lemma {:induction false} StepElsewhere(w: Stage, e: Event, q: nat)
    requires Allowed(w, e) && q < |w.parcels| && (e.Create? || q < e.p)
    ensures q < |Step(w, e).parcels| && Step(w, e).parcels[q] == w.parcels[q]
    decreases e, 0
  {
    hide Write, Append, WriteObject, WriteFd, Release, Careful, Run;
    if e.Sized? && Write(w.parcels[e.p], EncI32(0)).Ok? {
      RunElsewhere(Written(w, e.p, EncI32(0)), e.body, e.p, q);
    }
  }

  lemma {:induction false} RunElsewhere(w: Stage, run: seq<Event>, p: nat, q: nat)
    requires Careful(w, run) && q < p < |w.parcels| && forall e <- run :: Writes(e, p)
    ensures |Run(w, run).parcels| == |w.parcels| && Run(w, run).parcels[q] == w.parcels[q]
    decreases run, 1
  {
    hide Allowed, Step;
    if run != [] {
      assert run[0] in run;
      StepElsewhere(w, run[0], q);
      RunElsewhere(Step(w, run[0]), run[1..], p, q);
    }
  }

  /** Whatever a program does with its parcels, forwarding included, leaves every lazy holder
      as it was. */
  lemma UseLeavesSlots(w: Household, e: Event)
    requires Permitted(w, Use(e))
    ensures |w.slots| <= |Step(w.Whole(), e).parcels| && Do(w, Use(e)).slots == w.slots
  {
    hide Allowed, Step;
    var s := Step(w.Whole(), e).parcels;
    if |w.slots| > 0 {
      StepElsewhere(w.Whole(), e, |w.slots| - 1);
    }
    forall q | 0 <= q < |w.slots|
      ensures s[q] == w.slots[q]
    {
      StepElsewhere(w.Whole(), e, q);
    }
    assert s[..|w.slots|] == w.slots;
  }

  // ----- one copy -----

  lemma CopyMoves(src: State, start: nat, size: nat, answers: seq<Answer>, l: Ledger)
    requires src.Good() && FreshAppend(VACANT, src, start, size, answers, l)
    ensures var o := Append(VACANT, src, start, size, answers, l);
            && o.state.Good()
            && o.ledger == l.Add(o.state.Held())
            && forall t <- o.state.Held() :: t.Fd? ==> o.state.Held()[t] == 1 && t !in l.tokens
  {
    EmptyHoldsNothing();
    AppendBalanced(VACANT, src, start, size, answers, l);
    hide State.Good, State.Held, Append, FreshDups, AppendRuns;
    var o := Append(VACANT, src, start, size, answers, l);
    var gain :| Moved(VACANT, l, o, gain);
    assert multiset{} + gain == gain;
  }

  /** A copy into a new parcel that is dropped again leaves no trace, whatever the status. */
  lemma CopyUndone(src: State, start: nat, size: nat, answers: seq<Answer>, l: Ledger)
    requires src.Good() && FreshAppend(VACANT, src, start, size, answers, l)
    ensures var o := Append(VACANT, src, start, size, answers, l);
            Dropped(o.state, o.ledger) == l
  {
    hide State.Good, HeldAt, Append, FreshDups, AppendRuns;
    var o := Append(VACANT, src, start, size, answers, l);
    CopyMoves(src, start, size, answers, l);
    ReleaseAccounted(o.state, o.ledger);
    assert l.tokens + o.state.Held() - o.state.Held() == l.tokens;
  }

  // ----- whole runs -----

  /** One parcel dropped, in favour of `q`, which `l` counts already. */
  lemma ReplaceAccounted(w: Stage, base: Ledger, h: nat, q: State, l: Ledger)
    requires Accounted(w, base) && h < |w.parcels| && q.Good()
    requires l == w.ledger.Add(q.Held()) && forall n :: l.tokens[Fd(n)] <= 1
    ensures Accounted(Stage(w.parcels[h := q], Dropped(w.parcels[h], l)), base)
  {
    hide State.Good, State.Held, TotalHeld;
    var s := w.parcels[h];
    assert s in w.parcels;
    TotalAt(w.parcels, h, q);
    var rest := TotalHeld(w.parcels[..h] + w.parcels[h + 1..]);
    assert l.tokens == base.tokens + (rest + s.Held()) + q.Held();
    ReleaseAccounted(s, l);
    assert l.tokens - s.Held() == base.tokens + (rest + q.Held());
  }

  lemma NothingHeld()
    ensures VACANT.Good() && VACANT.Held() == multiset{}
  {
  }

  lemma NoFdTwice(w: Stage, base: Ledger)
    requires Accounted(w, base)
    ensures forall n :: w.ledger.tokens[Fd(n)] <= 1
  {
  }

  lemma HolderAccounted(w: Household, base: Ledger)
    requires Accounted(w.Whole(), base)
    ensures Accounted(Do(w, Holder).Whole(), base)
  {
    hide State.Good, State.Held, TotalHeld;
    EmptyHoldsNothing();
    assert AllGood(w.slots) && AllGood(w.parcels) by {
      assert forall p <- w.slots :: p in w.slots + w.parcels;
      assert forall p <- w.parcels :: p in w.slots + w.parcels;
    }
    TotalSplit(w.slots, w.parcels);
    TotalSplit(w.slots, [VACANT]);
    TotalSplit(w.slots + [VACANT], w.parcels);
    assert TotalHeld(w.slots) + multiset{} == TotalHeld(w.slots);
  }

  lemma UnpackAccounted(w: Household, base: Ledger, h: nat, src: nat, start: nat, size: nat, answers: seq<Answer>)
    requires Accounted(w.Whole(), base) && Permitted(w, Unpack(h, src, start, size, answers))
    ensures Accounted(Do(w, Unpack(h, src, start, size, answers)).Whole(), base)
  {
    hide Accounted, State.Good, State.Held, Append, FreshDups, AppendRuns, Dropped;
    var from := w.Whole().parcels[src];
    GoodParcel(w.Whole(), base, src);
    NoFdTwice(w.Whole(), base);
    CopyUndone(from, start, size, answers, w.ledger);
    CopyMoves(from, start, size, answers, w.ledger);
    var o := Append(VACANT, from, start, size, answers, w.ledger);
    if o.status.Ok? {
      ReplaceAccounted(w.Whole(), base, h, o.state, o.ledger);
      assert w.slots[h := o.state] + w.parcels == (w.slots + w.parcels)[h := o.state];
    }
  }

  lemma DeedAccounted(w: Household, d: Deed, base: Ledger)
    requires Accounted(w.Whole(), base) && Permitted(w, d)
    ensures Accounted(Do(w, d).Whole(), base)
  {
    hide Accounted, State.Good, State.Held, Append, FreshAppend, Allowed, Step, Dropped;
    match d
    case Use(e) =>
      UseLeavesSlots(w, e);
      StepAccounted(w.Whole(), e, base);
      var s := Step(w.Whole(), e).parcels;
      assert s[..|w.slots|] + s[|w.slots|..] == s;
    case Holder =>
      HolderAccounted(w, base);
    case Unpack(h, src, start, size, answers) =>
      UnpackAccounted(w, base, h, src, start, size, answers);
    case Give(h) =>
      NothingHeld();
      NoFdTwice(w.Whole(), base);
      assert w.ledger.Add(multiset{}) == w.ledger;
      ReplaceAccounted(w.Whole(), base, h, VACANT, w.ledger);
      assert w.slots[h := VACANT] + w.parcels == (w.slots + w.parcels)[h := VACANT];
  }

  lemma {:induction false} DeedsAccounted(w: Household, run: seq<Deed>, base: Ledger)
    requires Accounted(w.Whole(), base) && Scrupulous(w, run)
    ensures Accounted(After(w, run).Whole(), base)
    decreases run
  {
    hide Permitted, Do, Accounted;
    if run != [] {
      DeedAccounted(w, run[0], base);
      DeedsAccounted(Do(w, run[0]), run[1..], base);
    }
  }

  /** Conservation with holders: however parcels and holders were used, failures included, the
      ledger accounts for both; once the parcels are dropped and no holder is lazy any more,
      it is back where it started. */
  lemma HoldersConserve(run: seq<Deed>, base: Ledger)
    requires forall n :: base.tokens[Fd(n)] <= 1
    requires Scrupulous(Household([], [], base), run)
    ensures var w := After(Household([], [], base), run);
            && Accounted(w.Whole(), base)
            && (w.parcels == [] && (forall s <- w.slots :: s == VACANT) ==> w.ledger == base)
  {
    hide Permitted, Do;
    assert base.Add(multiset{}) == base;
    DeedsAccounted(Household([], [], base), run, base);
    var w := After(Household([], [], base), run);
    if w.parcels == [] && forall s <- w.slots :: s == VACANT {
      NoneLazy(w.slots);
      assert w.slots + w.parcels == w.slots;
    }
  }

  lemma {:induction false} NoneLazy(slots: seq<State>)
    requires forall s <- slots :: s == VACANT
    ensures AllGood(slots) && TotalHeld(slots) == multiset{}
  {
    NothingHeld();
    if slots != [] {
      assert slots[0] in slots;
      assert forall s <- slots[1..] :: s in slots;
      NoneLazy(slots[1..]);
    }
  }
}
