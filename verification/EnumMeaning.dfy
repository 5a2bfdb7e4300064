/** What the members of a set of enums are worth, as a least fixed point over the
    declarations, for every operator of the constant language. */
module EnumMeaning {
  import opened ConstExpr
  import opened Names
  import W = Wire

  datatype Key = Key(enum: string, member: string)

  datatype Enumerator = Enumerator(name: string, expr: W.Option<Expr>)

  datatype EnumDecl = EnumDecl(name: string, list: seq<Enumerator>)

  /** The registered enums, and the member each qualified name denotes. */
  datatype World = World(names: map<string, Key>, enums: map<string, EnumDecl>)

  // ----- declarations -----

  /** The first position of a member, or the length of the list. */
  function Position(list: seq<Enumerator>, member: string): (i: nat)
    ensures i <= |list|
    ensures i < |list| ==> list[i].name == member
    ensures forall j :: 0 <= j < i ==> list[j].name != member
  {
    if list == [] || list[0].name == member then 0 else 1 + Position(list[1..], member)
  }

  /** The last of the first `n` enumerators that has an explicit value, or -1. */
  function LastExplicit(list: seq<Enumerator>, n: nat): (j: int)
    requires n <= |list|
    ensures -1 <= j < n
    ensures j >= 0 ==> list[j].expr.Some?
    ensures forall i :: j < i < n ==> list[i].expr.None?
  {
    if n == 0 then -1
    else if list[n - 1].expr.Some? then n - 1
    else LastExplicit(list, n - 1)
  }

  function Place(w: World, k: Key): (i: nat)
    requires k.enum in w.enums
    ensures i <= |w.enums[k.enum].list|
  {
    Position(w.enums[k.enum].list, k.member)
  }

  predicate Declared(w: World, k: Key) {
    k.enum in w.enums && Place(w, k) < |w.enums[k.enum].list|
  }

  /** The expression that decides the value of a member, if there is one. */
  function Deciding(w: World, k: Key): W.Option<Expr>
    requires Declared(w, k)
  {
    var list := w.enums[k.enum].list;
    var j := LastExplicit(list, Place(w, k) + 1);
    if j < 0 then W.None else list[j].expr
  }

  /** How far a member is from the enumerator that decides it, or from the start. */
  function Distance(w: World, k: Key): int
    requires Declared(w, k)
  {
    var j := LastExplicit(w.enums[k.enum].list, Place(w, k) + 1);
    if j < 0 then Place(w, k) else Place(w, k) - j
  }

  function Universe(w: World): set<Key> {
    set t <- w.enums, en <- w.enums[t].list :: Key(t, en.name)
  }

  lemma DeclaredInUniverse(w: World, k: Key)
    ensures Declared(w, k) <==> k in Universe(w)
  {
    if Declared(w, k) {
      assert w.enums[k.enum].list[Place(w, k)] in w.enums[k.enum].list;
    }
  }

  /** `name` denotes the declared member `k`. */
  predicate Denotes(w: World, name: string, k: Key) {
    name in w.names && w.names[name] == k && Declared(w, k)
  }

  // ----- what is known of members -----

  /** A member whose fate is settled is worth a number, or its expression has none. */
  datatype Fate = Worth(value: i64) | Dead

  type Fates = map<Key, Fate>

  predicate Within(a: Fates, b: Fates) {
    forall k <- a :: k in b && b[k] == a[k]
  }

  /** Every member an expression mentions is settled. */
  predicate Settled(w: World, v: Fates, e: Expr) {
    forall n <- Refs(e) :: n in w.names && Declared(w, w.names[n]) ==> w.names[n] in v
  }

  /** The text a reference renders as. */
  function Rendered(w: World, k: Key): string
    requires k.enum in w.enums
  {
    w.enums[k.enum].name + "." + k.member
  }

  /** What a settled member stands for: its number, or else the expression that decides it,
      to be evaluated where the member is used. */
  function StandsFor(w: World, v: Fates, k: Key): (e: Expr)
    requires Declared(w, k) && k in v
    ensures v[k].Worth? ==> e == Reference(w.enums[k.enum].name + "." + k.member, v[k].value)
  {
    match v[k]
    case Worth(x) => Reference(Rendered(w, k), x)
    case Dead => if Deciding(w, k).Some? then Deciding(w, k).value else Bool(false)
  }

  function EnvOf(w: World, v: Fates): Env {
    map n | n in w.names && Declared(w, w.names[n]) && w.names[n] in v :: StandsFor(w, v, w.names[n])
  }

  predicate Number(r: Outcome<Value>) {
    r.Done? && !r.value.Name?
  }

  function ValueAt(w: World, v: Fates, e: Expr): Outcome<Value> {
    Calculate(EnvOf(w, v), e)
  }

  /** The fate of a member once everything its deciding expression mentions is settled: the
      number plus the distance, the position if nothing decides it, or dead. */
  function Decide(w: World, v: Fates, k: Key): W.Option<Fate> {
    if !Declared(w, k) then W.None
    else
      match Deciding(w, k)
      case None => W.Some(Worth(Wrap64(Distance(w, k))))
      case Some(e) =>
        if !Settled(w, v, e) then W.None
        else
          var r := ValueAt(w, v, e);
          W.Some(if Number(r) then Worth(Wrap64(ToI64(r.value).value + Distance(w, k))) else Dead)
  }

  /** The members settled by `n` rounds, starting from `known` and settling none of `banned`. */
  ghost function Rounds(w: World, banned: set<Key>, known: Fates, n: nat): Fates
    decreases n
  {
    if n == 0 then known
    else
      var v := Rounds(w, banned, known, n - 1);
      known + map k | k in Universe(w) && k !in banned && k !in known && Decide(w, v, k).Some? :: Decide(w, v, k).value
  }

  ghost predicate HasBy(w: World, banned: set<Key>, known: Fates, n: nat, k: Key, f: Fate) {
    var v := Rounds(w, banned, known, n);
    k in v && v[k] == f
  }

  /** `k` has the value `x`. */
  ghost predicate Means(w: World, k: Key, x: i64) {
    exists n: nat :: HasBy(w, {}, map[], n, k, Worth(x))
  }

  ghost predicate HasMeaning(w: World, k: Key) {
    exists x: i64 :: Means(w, k, x)
  }

  // ----- evaluation with more settled -----

  /** What a dead member stands for mentions only settled members. */
  predicate Closed(w: World, v: Fates) {
    forall k <- v :: v[k].Dead? ==> Declared(w, k) && Deciding(w, k).Some? && Settled(w, v, Deciding(w, k).value)
  }

  predicate AllWorth(v: Fates) {
    forall k <- v :: v[k].Worth?
  }

  lemma {:induction false} CalcStays(w: World, a: Fates, b: Fates, e: Expr, visited: set<string>, depth: nat)
    requires Closed(w, a) && Within(a, b) && Settled(w, a, e)
    ensures Calc(EnvOf(w, b), e, visited, depth) == Calc(EnvOf(w, a), e, visited, depth)
    decreases MAX_EXPR_DEPTH + 1 - depth
  {
    hide FoldUnary, FoldBinary, Declared, EnvOf, Closed, Within;
    if depth <= MAX_EXPR_DEPTH {
      match e
      case Unary(_, x) => CalcStays(w, a, b, x, visited, depth + 1);
      case Binary(l, _, r) =>
        CalcStays(w, a, b, l, visited, depth + 1);
        CalcStays(w, a, b, r, visited, depth + 1);
      case Name(n) =>
        EnvStays(w, a, b, n);
        if n !in visited && n in EnvOf(w, a) {
          CalcStays(w, a, b, EnvOf(w, a)[n], visited + {n}, depth + 1);
        }
      case _ =>
    }
  }

  /** What a settled name stands for stays, and mentions only settled members. */
  lemma EnvStays(w: World, a: Fates, b: Fates, n: string)
    requires Closed(w, a) && Within(a, b) && Settled(w, a, Name(n))
    ensures n in EnvOf(w, a) <==> n in EnvOf(w, b)
    ensures n in EnvOf(w, a) ==> EnvOf(w, b)[n] == EnvOf(w, a)[n] && Settled(w, a, EnvOf(w, a)[n])
  {
    hide Declared, Deciding;
  }

  lemma DecideStays(w: World, a: Fates, b: Fates, k: Key)
    requires Closed(w, a) && Within(a, b) && Decide(w, a, k).Some?
    ensures Decide(w, b, k) == Decide(w, a, k)
  {
    hide Closed, Calc, Deciding, Distance, Declared;
    if Deciding(w, k).Some? {
      CalcStays(w, a, b, Deciding(w, k).value, {}, 0);
    }
  }

  // ----- rounds -----

  lemma RoundsStep(w: World, banned: set<Key>, known: Fates, n: nat, k: Key)
    requires n > 0
    ensures var v := Rounds(w, banned, known, n);
            && (k in known ==> k in v && v[k] == known[k])
            && (k !in known ==>
                 var f := Decide(w, Rounds(w, banned, known, n - 1), k);
                 && (k in v <==> k !in banned && f.Some?)
                 && (k in v ==> v[k] == f.value))
  {
    hide Decide, Universe;
    DecideDeclared(w, Rounds(w, banned, known, n - 1), k);
  }

  lemma DecideDeclared(w: World, v: Fates, k: Key)
    ensures Decide(w, v, k).Some? ==> k in Universe(w)
  {
    hide Universe;
    DeclaredInUniverse(w, k);
  }

  lemma RoundsZero(w: World, b: set<Key>, c: Fates)
    ensures Rounds(w, b, c, 0) == c
  {
  }

  lemma KnownStays(w: World, banned: set<Key>, known: Fates, n: nat)
    ensures Within(known, Rounds(w, banned, known, n))
  {
  }

  lemma DeadSettled(w: World, v: Fates, k: Key)
    requires Decide(w, v, k) == W.Some(Dead)
    ensures Declared(w, k) && Deciding(w, k).Some? && Settled(w, v, Deciding(w, k).value)
  {
  }

  lemma SettledStays(w: World, a: Fates, b: Fates, e: Expr)
    requires Within(a, b) && Settled(w, a, e)
    ensures Settled(w, b, e)
  {
    hide Declared;
  }

  /** Rounds only add, and stay closed. */
  lemma {:induction false} RoundsRise(w: World, b: set<Key>, c: Fates, n: nat)
    requires AllWorth(c)
    ensures Closed(w, Rounds(w, b, c, n)) && Within(Rounds(w, b, c, n), Rounds(w, b, c, n + 1))
  {
    hide Rounds, Decide, Deciding, Settled, Declared;
    var x, y := Rounds(w, b, c, n), Rounds(w, b, c, n + 1);
    KnownStays(w, b, c, n + 1);
    RoundsZero(w, b, c);
    if n > 0 {
      RoundsRise(w, b, c, n - 1);
      var before := Rounds(w, b, c, n - 1);
      forall k <- x
        ensures k in y && y[k] == x[k]
        ensures x[k].Dead? ==> Declared(w, k) && Deciding(w, k).Some? && Settled(w, x, Deciding(w, k).value)
      {
        RoundsStep(w, b, c, n, k);
        RoundsStep(w, b, c, n + 1, k);
        if k !in c {
          DecideStays(w, before, x, k);
          if x[k].Dead? {
            DeadSettled(w, before, k);
            SettledStays(w, before, x, Deciding(w, k).value);
          }
        }
      }
    }
  }

  /** One round more, fewer members banned, more known: nothing is lost. */
  lemma {:induction false} RoundsGrow(w: World, b: set<Key>, c: Fates, b': set<Key>, c': Fates, m: nat, n: nat)
    requires AllWorth(c) && b' <= b && m <= n && Within(c, c') && Consistent(w, b, c, c')
    ensures Within(Rounds(w, b, c, m), Rounds(w, b', c', n))
    decreases m
  {
    hide Decide, Rounds, AllWorth, Closed;
    var x, y := Rounds(w, b, c, m), Rounds(w, b', c', n);
    KnownStays(w, b', c', n);
    RoundsZero(w, b, c);
    if m > 0 {
      RoundsGrow(w, b, c, b', c', m - 1, n - 1);
      RoundsRise(w, b, c, m - 1);
      forall k <- x
        ensures k in y && y[k] == x[k]
      {
        RoundsStep(w, b, c, m, k);
        RoundsStep(w, b', c', n, k);
        if k !in c {
          DecideStays(w, Rounds(w, b, c, m - 1), Rounds(w, b', c', n - 1), k);
          ConsistentAt(w, b, c, c', m, k, x[k]);
        }
      }
    }
  }

  /** What `c'` knows beyond `c` is never contradicted by the rounds from `c`. */
  ghost predicate Consistent(w: World, b: set<Key>, c: Fates, c': Fates) {
    forall k, n: nat, f: Fate :: k in c' && HasBy(w, b, c, n, k, f) ==> c'[k] == f
  }

  lemma ConsistentAt(w: World, b: set<Key>, c: Fates, c': Fates, n: nat, k: Key, f: Fate)
    requires Consistent(w, b, c, c') && HasBy(w, b, c, n, k, f)
    ensures k in c' ==> c'[k] == f
  {
  }

  lemma RoundsMonotone(w: World, b: set<Key>, b': set<Key>, c: Fates, m: nat, n: nat)
    requires AllWorth(c) && b' <= b && m <= n
    ensures Within(Rounds(w, b, c, m), Rounds(w, b', c, n))
  {
    hide Rounds;
    forall k, i: nat, f: Fate | k in c && HasBy(w, b, c, i, k, f)
      ensures c[k] == f
    {
      KnownStays(w, b, c, i);
    }
    RoundsGrow(w, b, c, b', c, m, n);
  }

  /** A fate never changes from one round to another. */
  lemma FateUnique(w: World, b: set<Key>, c: Fates, m: nat, n: nat, k: Key, f: Fate, g: Fate)
    requires AllWorth(c) && HasBy(w, b, c, m, k, f) && HasBy(w, b, c, n, k, g)
    ensures f == g
  {
    hide Rounds;
    var top := if m < n then n else m;
    RoundsMonotone(w, b, b, c, m, top);
    RoundsMonotone(w, b, b, c, n, top);
  }

  /** `c'` adds to `c` only values that numbering from `c` gives. */
  ghost predicate Grown(w: World, b: set<Key>, c: Fates, c': Fates) {
    AllWorth(c) && AllWorth(c') && Within(c, c') && exists n: nat :: Within(c', Rounds(w, b, c, n))
  }

  lemma GrownNot(w: World, b: set<Key>, c: Fates)
    requires AllWorth(c)
    ensures Grown(w, b, c, c)
  {
    RoundsZero(w, b, c);
    assert Within(c, Rounds(w, b, c, 0));
  }

  lemma GrownForward(w: World, b: set<Key>, c: Fates, c': Fates, n: nat)
    requires Grown(w, b, c, c')
    ensures Within(Rounds(w, b, c, n), Rounds(w, b, c', n))
  {
    hide Rounds;
    var m: nat :| Within(c', Rounds(w, b, c, m));
    forall k, i: nat, f: Fate | k in c' && HasBy(w, b, c, i, k, f)
      ensures c'[k] == f
    {
      FateUnique(w, b, c, i, m, k, f, c'[k]);
    }
    RoundsGrow(w, b, c, b, c', n, n);
  }

  lemma {:induction false} BackBy(w: World, b: set<Key>, c: Fates, c': Fates, m: nat, n: nat)
    requires AllWorth(c) && AllWorth(c') && Within(c, c') && Within(c', Rounds(w, b, c, m))
    ensures Within(Rounds(w, b, c', n), Rounds(w, b, c, m + n))
  {
    hide Rounds, Decide, AllWorth, Closed;
    RoundsZero(w, b, c');
    if n > 0 {
      BackBy(w, b, c, c', m, n - 1);
      RoundsRise(w, b, c', n - 1);
      RoundsMonotone(w, b, b, c, m, m + n);
      var x, y := Rounds(w, b, c', n), Rounds(w, b, c, m + n);
      forall k <- x
        ensures k in y && y[k] == x[k]
      {
        RoundsStep(w, b, c', n, k);
        RoundsStep(w, b, c, m + n, k);
        if k !in c' {
          DecideStays(w, Rounds(w, b, c', n - 1), Rounds(w, b, c, m + n - 1), k);
        }
      }
    }
  }

  lemma GrownBack(w: World, b: set<Key>, c: Fates, c': Fates, n: nat) returns (m: nat)
    requires Grown(w, b, c, c')
    ensures Within(Rounds(w, b, c', n), Rounds(w, b, c, m))
  {
    hide Rounds, Within, AllWorth;
    var i: nat :| Within(c', Rounds(w, b, c, i));
    BackBy(w, b, c, c', i, n);
    m := i + n;
  }

  lemma WithinTransitive(a: Fates, b: Fates, c: Fates)
    requires Within(a, b) && Within(b, c)
    ensures Within(a, c)
  {
  }

  lemma GrownTransitive(w: World, b: set<Key>, c: Fates, c': Fates, c'': Fates)
    requires Grown(w, b, c, c') && Grown(w, b, c', c'')
    ensures Grown(w, b, c, c'')
  {
    hide Rounds, AllWorth, Within;
    var n: nat :| Within(c'', Rounds(w, b, c', n));
    var m := GrownBack(w, b, c, c', n);
    WithinTransitive(c'', Rounds(w, b, c', n), Rounds(w, b, c, m));
    WithinTransitive(c, c', c'');
  }

  /** Growth while more members are banned is growth. */
  lemma GrownUnban(w: World, b: set<Key>, b': set<Key>, c: Fates, c': Fates)
    requires b' <= b && Grown(w, b, c, c')
    ensures Grown(w, b', c, c')
  {
    hide Rounds, AllWorth, Within;
    var n: nat :| Within(c', Rounds(w, b, c, n));
    RoundsMonotone(w, b, b', c, n, n);
    WithinTransitive(c', Rounds(w, b, c, n), Rounds(w, b', c, n));
  }

  lemma GrownAdd(w: World, b: set<Key>, c: Fates, c': Fates, n: nat, k: Key, x: i64)
    requires Grown(w, b, c, c') && HasBy(w, b, c, n, k, Worth(x))
    ensures Grown(w, b, c, c'[k := Worth(x)])
  {
    hide Rounds;
    var m: nat :| Within(c', Rounds(w, b, c, m));
    var top := if m < n then n else m;
    RoundsMonotone(w, b, b, c, m, top);
    RoundsMonotone(w, b, b, c, n, top);
    assert Within(c'[k := Worth(x)], Rounds(w, b, c, top));
    if k in c {
      KnownStays(w, b, c, n);
    }
  }

  /** Members settled from outside `banned` are not in it. */
  lemma BannedStayOut(w: World, b: set<Key>, c: Fates, n: nat, k: Key)
    requires k in Rounds(w, b, c, n)
    ensures k in c || (k !in b && Declared(w, k))
  {
    hide Rounds, Decide;
    RoundsZero(w, b, c);
    if n > 0 {
      RoundsStep(w, b, c, n, k);
      DecideDeclared(w, Rounds(w, b, c, n - 1), k);
      DeclaredInUniverse(w, k);
    }
  }

  /** Banning a member changes nothing before the round that settles it. */
  lemma {:induction false} SameRounds(w: World, b: set<Key>, c: Fates, k: Key, n: nat)
    requires k !in c && (forall m: nat :: m <= n ==> k !in Rounds(w, b, c, m))
    ensures Rounds(w, b + {k}, c, n) == Rounds(w, b, c, n)
  {
    hide Decide, Rounds;
    RoundsZero(w, b, c);
    RoundsZero(w, b + {k}, c);
    if n > 0 {
      SameRounds(w, b, c, k, n - 1);
      var x, y := Rounds(w, b, c, n), Rounds(w, b + {k}, c, n);
      forall i
        ensures i in x <==> i in y
        ensures i in x ==> y[i] == x[i]
      {
        RoundsStep(w, b, c, n, i);
        RoundsStep(w, b + {k}, c, n, i);
      }
      assert x == y;
    }
  }

  // ----- what the meaning is -----

  /** A member means its last explicit number plus the distance, or its position, over
      members that are settled already; otherwise it means nothing. */
  lemma MeaningUnfolds(w: World, k: Key, x: i64)
    ensures Means(w, k, x) <==> exists n: nat :: Decide(w, Rounds(w, {}, map[], n), k) == W.Some(Worth(x))
  {
    hide Rounds, Decide;
    RoundsZero(w, {}, map[]);
    if Means(w, k, x) {
      var n: nat :| HasBy(w, {}, map[], n, k, Worth(x));
      RoundsStep(w, {}, map[], n, k);
      assert Decide(w, Rounds(w, {}, map[], n - 1), k) == W.Some(Worth(x));
    }
    if n: nat :| Decide(w, Rounds(w, {}, map[], n), k) == W.Some(Worth(x)) {
      RoundsStep(w, {}, map[], n + 1, k);
      assert HasBy(w, {}, map[], n + 1, k, Worth(x));
    }
  }

  /** A failing name fails every expression that mentions it: operands are always evaluated. */
  lemma {:induction false} FailurePoisons(env: Env, e: Expr, visited: set<string>, depth: nat, n: string)
    requires n in Refs(e) && n in env && Calc(env, e, visited, depth).Done?
    ensures Calc(env, env[n], {}, 0).Done?
    decreases MAX_EXPR_DEPTH + 1 - depth
  {
    hide FoldUnary, FoldBinary;
    match e
    case Unary(_, x) => FailurePoisons(env, x, visited, depth + 1, n);
    case Binary(l, _, r) =>
      if n in Refs(l) {
        FailurePoisons(env, l, visited, depth + 1, n);
      } else {
        FailurePoisons(env, r, visited, depth + 1, n);
      }
    case Name(_) => DoneStays(env, env[n], visited + {n}, {}, depth + 1, 0);
    case _ =>
  }

  /** A member whose expression is an error gives no value to the members that need it,
      whatever the operators. */
  lemma ErrorsSpread(w: World, k: Key, d: Key, n: nat)
    requires Needs(w, k, d) && HasBy(w, {}, map[], n, d, Dead)
    requires Declared(w, d) && Deciding(w, d).Some? && ValueAt(w, Rounds(w, {}, map[], n), Deciding(w, d).value) == Fail
    ensures !HasMeaning(w, k)
  {
    hide Rounds, Deciding, Declared, Calc;
    forall x: i64, m: nat
      ensures !HasBy(w, {}, map[], m, k, Worth(x))
    {
      if HasBy(w, {}, map[], m, k, Worth(x)) {
        NeedsEarlier(w, k, d, m);
        SpreadsAt(w, k, d, n, m - 1);
        RoundsStep(w, {}, map[], m, k);
      }
    }
  }

  lemma SpreadsAt(w: World, k: Key, d: Key, n: nat, m: nat)
    requires Needs(w, k, d) && HasBy(w, {}, map[], n, d, Dead) && d in Rounds(w, {}, map[], m)
    requires Declared(w, d) && Deciding(w, d).Some? && ValueAt(w, Rounds(w, {}, map[], n), Deciding(w, d).value) == Fail
    ensures Decide(w, Rounds(w, {}, map[], m), k) in {W.None, W.Some(Dead)}
  {
    hide Rounds, Deciding, Declared, Calc, EnvOf;
    var a, b := Rounds(w, {}, map[], n), Rounds(w, {}, map[], m);
    FateUnique(w, {}, map[], n, m, d, Dead, b[d]);
    var top := if n < m then m else n;
    RoundsRise(w, {}, map[], n);
    RoundsRise(w, {}, map[], m);
    RoundsMonotone(w, {}, {}, map[], n, top);
    RoundsMonotone(w, {}, {}, map[], m, top);
    var e := Deciding(w, d).value;
    CalcStays(w, a, Rounds(w, {}, map[], top), e, {}, 0);
    CalcStays(w, b, Rounds(w, {}, map[], top), e, {}, 0);
    var x :| x in Refs(Deciding(w, k).value) && Denotes(w, x, d);
    StandsDead(w, b, x, d);
    if Calc(EnvOf(w, b), Deciding(w, k).value, {}, 0).Done? {
      FailurePoisons(EnvOf(w, b), Deciding(w, k).value, {}, 0, x);
    }
  }

  lemma StandsDead(w: World, v: Fates, x: string, d: Key)
    requires Denotes(w, x, d) && d in v && v[d] == Dead && Deciding(w, d).Some?
    ensures x in EnvOf(w, v) && EnvOf(w, v)[x] == Deciding(w, d).value
  {
    hide Deciding, Declared;
  }

  /** `k` needs `d`: the deciding expression of `k` mentions it. */
  ghost predicate Needs(w: World, k: Key, d: Key) {
    Declared(w, k) && Deciding(w, k).Some? && exists n <- Refs(Deciding(w, k).value) :: Denotes(w, n, d)
  }

  ghost predicate NeedsWithin(w: World, k: Key, d: Key, steps: nat)
    decreases steps
  {
    Needs(w, k, d) || (steps > 0 && exists m :: Needs(w, k, m) && NeedsWithin(w, m, d, steps - 1))
  }

  lemma NeedsEarlier(w: World, k: Key, d: Key, n: nat)
    requires Needs(w, k, d) && k in Rounds(w, {}, map[], n)
    ensures n > 0 && d in Rounds(w, {}, map[], n - 1)
  {
    hide Rounds, Deciding, Declared;
    RoundsZero(w, {}, map[]);
    RoundsStep(w, {}, map[], n, k);
  }

  lemma {:induction false} NeedsChainEarlier(w: World, k: Key, d: Key, steps: nat, n: nat)
    requires NeedsWithin(w, k, d, steps) && k in Rounds(w, {}, map[], n)
    ensures n > 0 && d in Rounds(w, {}, map[], n - 1)
    decreases steps
  {
    hide Rounds, Needs;
    if Needs(w, k, d) {
      NeedsEarlier(w, k, d, n);
    } else {
      var m :| Needs(w, k, m) && NeedsWithin(w, m, d, steps - 1);
      NeedsEarlier(w, k, m, n);
      NeedsChainEarlier(w, m, d, steps - 1, n - 1);
      RoundsMonotone(w, {}, {}, map[], n - 2, n - 1);
    }
  }

  lemma {:induction false} NeverInRounds(w: World, k: Key, steps: nat, n: nat)
    requires NeedsWithin(w, k, k, steps)
    ensures k !in Rounds(w, {}, map[], n)
  {
    hide Rounds, NeedsWithin;
    if k in Rounds(w, {}, map[], n) {
      NeedsChainEarlier(w, k, k, steps, n);
      NeverInRounds(w, k, steps, n - 1);
    }
  }

  /** A member that needs itself, however indirectly, has no value, whatever the operators. */
  lemma CyclesMeanNothing(w: World, k: Key, steps: nat)
    requires NeedsWithin(w, k, k, steps)
    ensures !HasMeaning(w, k)
  {
    hide Rounds, NeedsWithin;
    forall x: i64, n: nat
      ensures !HasBy(w, {}, map[], n, k, Worth(x))
    {
      NeverInRounds(w, k, steps, n);
    }
  }
}
