/** Small worlds in which the order of lookups decides what a member is worth. */
module EnumOrder {
  import opened ConstExpr
  import opened EnumMeaning
  import opened EnumResolution
  import W = Wire

  /** `enum E { A = 1 || B, B = A + 1 }` */
  const LOOP: World :=
    World(map["A" := Key("E", "A"), "B" := Key("E", "B")],
          map["E" := EnumDecl("E", [Enumerator("A", W.Some(EITHER)), Enumerator("B", W.Some(NEXT))])])

  const EITHER: Expr := Binary(Int32(1), LogicOr, Name("B"))
  const NEXT: Expr := Binary(Name("A"), Add, Int32(1))
  const A: Key := Key("E", "A")
  const B: Key := Key("E", "B")

  lemma Folds(v: Value)
    ensures FoldBinary(LogicOr, Int32(1), v) == Done(Bool(true))
    ensures v.Name? ==> FoldBinary(Add, v, Int32(1)) == Fail
    ensures v.Reference? && v.value == 1 ==> FoldBinary(Add, v, Int32(1)) == Done(Int64(2))
  {
  }

  /** While `B` is being resolved, `1 || B` ignores it. */
  lemma EitherIgnores(c: Cache, stack: set<Key>)
    requires B in stack && B !in c
    ensures Evaluate(LOOP, c, stack, EITHER, {}, 0) == (Done(Bool(true)), c)
  {
    hide FoldBinary;
    Folds(Name("B"));
    assert Resolve(LOOP, c, stack, B) == (Unresolved, c);
    assert Evaluate(LOOP, c, stack, Int32(1), {}, 1) == (Done(Int32(1)), c);
    assert Evaluate(LOOP, c, stack, Name("B"), {}, 1) == (Done(Name("B")), c);
  }

  /** While `A` is being resolved, `A + 1` fails. */
  lemma NextFails(c: Cache, stack: set<Key>, visited: set<string>, depth: nat)
    requires A in stack && A !in c && "A" !in visited && depth < MAX_EXPR_DEPTH
    ensures Evaluate(LOOP, c, stack, NEXT, visited, depth) == (Fail, c)
  {
    hide FoldBinary;
    Folds(Name("A"));
    assert Resolve(LOOP, c, stack, A) == (Unresolved, c);
    assert Evaluate(LOOP, c, stack, Name("A"), visited, depth + 1) == (Done(Name("A")), c);
    assert Evaluate(LOOP, c, stack, Int32(1), visited, depth + 1) == (Done(Int32(1)), c);
  }

  /** One turn of the loop. */
  lemma CountTurn(w: World, c: Cache, stack: set<Key>, list: seq<Enumerator>, member: string, i: nat, counter: i64, carried: W.Option<Expr>)
    requires i < |list|
    ensures var here := Explicit(w, c, stack, list[i].expr, counter, carried);
            Count(w, c, stack, list, member, i, counter, carried) ==
            if list[i].name == member then here.(found := true)
            else Count(w, here.cache, stack, list, member, i + 1, Wrap64(here.counter + 1), here.carried)
  {
  }

  lemma InnerB()
    ensures Resolve(LOOP, map[], {A}, B) == (Carried(NEXT), map[])
  {
    hide Evaluate, Count;
    var list := LOOP.enums["E"].list;
    EitherIgnores(map[], {A} + {B});
    NextFails(map[], {A} + {B}, {}, 0);
    CountTurn(LOOP, map[], {A} + {B}, list, "B", 0, 0, W.None);
    CountTurn(LOOP, map[], {A} + {B}, list, "B", 1, 2, W.None);
  }

  lemma FreshA()
    ensures Resolve(LOOP, map[], {}, A) == (Carried(EITHER), map[])
  {
    var list := LOOP.enums["E"].list;
    assert {} + {A} == {A};
    EitherFails();
    hide Evaluate, Count;
    CountTurn(LOOP, map[], {A}, list, "A", 0, 0, W.None);
  }

  lemma EitherFails()
    ensures Evaluate(LOOP, map[], {A}, EITHER, {}, 0) == (Fail, map[])
  {
    hide Resolve, FoldBinary;
    InnerB();
    NextFails(map[], {A}, {} + {"B"}, 2);
    assert Evaluate(LOOP, map[], {A}, Int32(1), {}, 1) == (Done(Int32(1)), map[]);
    assert Evaluate(LOOP, map[], {A}, Name("B"), {}, 1) == Evaluate(LOOP, map[], {A}, NEXT, {} + {"B"}, 2);
  }

  lemma InnerA()
    ensures Resolve(LOOP, map[], {B}, A) == (Resolved(1), map[A := 1])
  {
    hide Evaluate, Count;
    var list := LOOP.enums["E"].list;
    EitherIgnores(map[], {B} + {A});
    CountTurn(LOOP, map[], {B} + {A}, list, "A", 0, 0, W.None);
  }

  lemma NextCounts()
    ensures Evaluate(LOOP, map[], {B}, NEXT, {}, 0) == (Done(Int64(2)), map[A := 1])
  {
    hide Resolve, FoldBinary;
    InnerA();
    var r := Reference("E" + "." + "A", 1);
    Folds(r);
    assert Evaluate(LOOP, map[], {B}, Name("A"), {}, 1) == (Done(r), map[A := 1]);
    assert Evaluate(LOOP, map[A := 1], {B}, Int32(1), {}, 1) == (Done(Int32(1)), map[A := 1]);
  }

  lemma FreshB()
    ensures Resolve(LOOP, map[], {}, B) == (Resolved(2), map[A := 1, B := 2])
  {
    var list := LOOP.enums["E"].list;
    assert {} + {B} == {B};
    EitherIgnores(map[], {B});
    NextCounts();
    hide Evaluate, Count;
    CountTurn(LOOP, map[], {B}, list, "B", 0, 0, W.None);
    CountTurn(LOOP, map[], {B}, list, "B", 1, 2, W.None);
    assert map[A := 1][B := 2] == map[A := 1, B := 2];
  }

  /** With a cycle through `||` the order matters: on an empty cache `A` has no value, but
      looking `B` up first caches one for `A`. */
  lemma OrderMatters()
    ensures Resolve(LOOP, map[], {}, A).0 == Carried(EITHER)
    ensures var c := Lookups(LOOP, map[], [B]);
            A in c && c[A] == 1 && Resolve(LOOP, c, {}, A).0 == Resolved(1)
    ensures !Guarded(LOOP)
  {
    FreshA();
    FreshB();
    hide Resolve, Guarded;
    var c := map[A := 1, B := 2];
    assert [B][1..] == [];
    assert Lookups(LOOP, c, []) == c;
    KnownAnswer(LOOP, c, A);
    if Guarded(LOOP) {
      OrderNeverMatters(LOOP, [B], A);
    }
  }

  lemma KnownAnswer(w: World, c: Cache, k: Key)
    requires k in c
    ensures Resolve(w, c, {}, k) == (Resolved(c[k]), c)
  {
  }

  /** `enum E { X = F.Z, K = 1 / 0 }` and `enum F { Z = 1 || E.K }` */
  const DETOUR: World :=
    World(map["F.Z" := Z, "E.K" := K],
          map["E" := EnumDecl("E", [Enumerator("X", W.Some(Name("F.Z"))), Enumerator("K", W.Some(BROKEN))]),
              "F" := EnumDecl("F", [Enumerator("Z", W.Some(ASKS_K))])])

  const K: Key := Key("E", "K")
  const X: Key := Key("E", "X")
  const Z: Key := Key("F", "Z")
  const BROKEN: Expr := Binary(Int32(1), Div, Int32(0))
  const ASKS_K: Expr := Binary(Int32(1), LogicOr, Name("E.K"))

  lemma BrokenFails(c: Cache, stack: set<Key>, visited: set<string>, depth: nat)
    requires depth < MAX_EXPR_DEPTH
    ensures Evaluate(DETOUR, c, stack, BROKEN, visited, depth) == (Fail, c)
  {
    assert Evaluate(DETOUR, c, stack, Int32(1), visited, depth + 1) == (Done(Int32(1)), c);
    assert Evaluate(DETOUR, c, stack, Int32(0), visited, depth + 1) == (Done(Int32(0)), c);
  }

  lemma ZIgnoresK()
    ensures Resolve(DETOUR, map[], {K}, Z) == (Resolved(1), map[Z := 1])
  {
    var stack := {K} + {Z};
    Folds(Name("E.K"));
    hide FoldBinary;
    assert Resolve(DETOUR, map[], stack, K) == (Unresolved, map[]);
    assert Evaluate(DETOUR, map[], stack, Int32(1), {}, 1) == (Done(Int32(1)), map[]);
    assert Evaluate(DETOUR, map[], stack, Name("E.K"), {}, 1) == (Done(Name("E.K")), map[]);
    assert Evaluate(DETOUR, map[], stack, ASKS_K, {}, 0) == (Done(Bool(true)), map[]);
    hide Evaluate, Count;
    CountTurn(DETOUR, map[], stack, DETOUR.enums["F"].list, "Z", 0, 0, W.None);
  }

  lemma FreshK()
    ensures Resolve(DETOUR, map[], {}, K) == (Carried(BROKEN), map[Z := 1])
  {
    var list := DETOUR.enums["E"].list;
    assert {} + {K} == {K};
    ZIgnoresK();
    KMeetsZ();
    BrokenFails(map[Z := 1], {K}, {}, 0);
    hide Evaluate, Count, Resolve;
    CountTurn(DETOUR, map[], {K}, list, "K", 0, 0, W.None);
    CountTurn(DETOUR, map[Z := 1], {K}, list, "K", 1, 2, W.None);
    assert Count(DETOUR, map[], {K}, list, "K", 0, 0, W.None).carried == W.Some(BROKEN);
    PushedK();
  }

  lemma KMeetsZ()
    ensures Evaluate(DETOUR, map[], {K}, Name("F.Z"), {}, 0) == (Done(Reference("F" + "." + "Z", 1)), map[Z := 1])
  {
    hide Resolve;
    ZIgnoresK();
  }

  lemma PushedK()
    ensures var r := Count(DETOUR, map[], {K}, DETOUR.enums["E"].list, "K", 0, 0, W.None);
            r.found && r.carried.Some? ==> Resolve(DETOUR, map[], {}, K) == (Carried(r.carried.value), r.cache)
  {
    hide Count;
    assert {} + {K} == {K};
  }

  lemma InnerK()
    ensures Resolve(DETOUR, map[], {Z}, K) == (Carried(BROKEN), map[])
  {
    var list, stack := DETOUR.enums["E"].list, {Z} + {K};
    assert Resolve(DETOUR, map[], stack, Z) == (Unresolved, map[]);
    assert Evaluate(DETOUR, map[], stack, Name("F.Z"), {}, 0) == (Done(Name("F.Z")), map[]);
    BrokenFails(map[], stack, {}, 0);
    hide Evaluate, Count;
    CountTurn(DETOUR, map[], stack, list, "K", 0, 0, W.None);
    CountTurn(DETOUR, map[], stack, list, "K", 1, 1, W.Some(Name("F.Z")));
  }

  lemma FreshZ()
    ensures Resolve(DETOUR, map[], {}, Z) == (Carried(ASKS_K), map[])
  {
    assert {} + {Z} == {Z};
    AsksKFails();
    hide Evaluate, Count;
    CountTurn(DETOUR, map[], {Z}, DETOUR.enums["F"].list, "Z", 0, 0, W.None);
  }

  lemma AsksKFails()
    ensures Evaluate(DETOUR, map[], {Z}, ASKS_K, {}, 0) == (Fail, map[])
  {
    hide Resolve, FoldBinary;
    InnerK();
    BrokenFails(map[], {Z}, {} + {"E.K"}, 2);
    assert Evaluate(DETOUR, map[], {Z}, Int32(1), {}, 1) == (Done(Int32(1)), map[]);
    assert Evaluate(DETOUR, map[], {Z}, Name("E.K"), {}, 1) == Evaluate(DETOUR, map[], {Z}, BROKEN, {} + {"E.K"}, 2);
  }

  function Rank(k: Key): nat {
    if k == X then 2 else if k == Z then 1 else 0
  }

  lemma NeedsDescend(k: Key, d: Key)
    requires Needs(DETOUR, k, d)
    ensures Rank(d) < Rank(k)
  {
    var list := DETOUR.enums[k.enum].list;
    assert LastExplicit(list, Place(DETOUR, k) + 1) == Place(DETOUR, k);
  }

  lemma {:induction false} NeedsWithinDescend(k: Key, d: Key, steps: nat)
    requires NeedsWithin(DETOUR, k, d, steps)
    ensures Rank(d) < Rank(k)
    decreases steps
  {
    hide Needs, Rank;
    if Needs(DETOUR, k, d) {
      NeedsDescend(k, d);
    } else {
      var m :| Needs(DETOUR, k, m) && NeedsWithin(DETOUR, m, d, steps - 1);
      NeedsDescend(k, m);
      NeedsWithinDescend(m, d, steps - 1);
    }
  }

  /** Why a guarded world looks at every expression up to a member and not only at the one
      that decides it: here no member needs itself, yet looking `K` up caches a value for `Z`
      that a fresh resolution refuses. */
  lemma EarlierExpressionsMatter()
    ensures forall k, steps: nat :: !NeedsWithin(DETOUR, k, k, steps)
    ensures Resolve(DETOUR, map[], {}, Z).0 == Carried(ASKS_K)
    ensures var c := Lookups(DETOUR, map[], [K]);
            Z in c && Resolve(DETOUR, c, {}, Z).0 == Resolved(1)
    ensures !Guarded(DETOUR)
  {
    forall k, steps: nat
      ensures !NeedsWithin(DETOUR, k, k, steps)
    {
      if NeedsWithin(DETOUR, k, k, steps) {
        NeedsWithinDescend(k, k, steps);
      }
    }
    FreshZ();
    FreshK();
    hide Resolve;
    assert [K][1..] == [];
    assert Lookups(DETOUR, map[Z := 1], []) == map[Z := 1];
    KnownAnswer(DETOUR, map[Z := 1], Z);
    hide Guarded;
    if Guarded(DETOUR) {
      OrderNeverMatters(DETOUR, [K], Z);
    }
  }

  /** `enum E { A = 1 || B, B = 5 }` */
  const FORWARD: World :=
    World(map["A" := A, "B" := B],
          map["E" := EnumDecl("E", [Enumerator("A", W.Some(EITHER)), Enumerator("B", W.Some(Int32(5)))])])

  lemma ForwardVisitsB(k: Key, d: Key)
    requires Visits(FORWARD, k, d)
    ensures d == B
  {
  }

  lemma {:induction false} ForwardLeadsToB(k: Key, d: Key, steps: nat)
    requires Leads(FORWARD, k, d, steps)
    ensures d == B
    decreases steps
  {
    hide Visits;
    if Visits(FORWARD, k, d) {
      ForwardVisitsB(k, d);
    } else {
      var m :| Visits(FORWARD, k, m) && Leads(FORWARD, m, d, steps - 1);
      ForwardLeadsToB(m, d, steps - 1);
    }
  }

  /** A forward reference below `||` is harmless as long as it does not lead back. */
  lemma ForwardIsGuarded()
    ensures Guarded(FORWARD)
  {
    forall k, d | VisitsLazily(FORWARD, k, d)
      ensures !LeadsTo(FORWARD, d, k)
    {
      ForwardLazyFromA(k, d);
      forall steps: nat
        ensures !Leads(FORWARD, d, k, steps)
      {
        if Leads(FORWARD, d, k, steps) {
          ForwardLeadsToB(d, k, steps);
        }
      }
    }
  }

  lemma ForwardLazyFromA(k: Key, d: Key)
    requires VisitsLazily(FORWARD, k, d)
    ensures k == A
  {
  }
}
