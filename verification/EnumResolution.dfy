/** The enum resolver on values: a cache and a stack passed along. It computes the
    declarative meaning whenever no cycle runs through a place that can ignore an
    unresolved name, and depends on the order of lookups when one does. */
module EnumResolution {
  import opened ConstExpr
  import opened Names
  import opened EnumMeaning
  import W = Wire

  type Cache = map<Key, i64>

  datatype Found = Unresolved | Resolved(value: i64) | Carried(expr: Expr)

  /** The state of the loop over the enumerators. */
  datatype Counting = Counting(found: bool, counter: i64, carried: W.Option<Expr>, cache: Cache)

  /** `enum_member_const_expr_from_lookup` */
  function Resolve(w: World, cache: Cache, stack: set<Key>, k: Key): (Found, Cache)
    decreases w.names.Values + {k} - stack, 0, 0, 0
  {
    if k in cache then (Resolved(cache[k]), cache)
    else if k in stack || k.enum !in w.enums then (Unresolved, cache)
    else
      assert k in w.names.Values + {k} - stack && k !in w.names.Values - (stack + {k});
      var r := Count(w, cache, stack + {k}, w.enums[k.enum].list, k.member, 0, 0, W.None);
      if !r.found then (Unresolved, r.cache)
      else if r.carried.Some? then (Carried(r.carried.value), r.cache)
      else (Resolved(r.counter), r.cache[k := r.counter])
  }

  /** The loop from enumerator `i` on. */
  function Count(w: World, cache: Cache, stack: set<Key>, list: seq<Enumerator>, member: string,
                 i: nat, counter: i64, carried: W.Option<Expr>): Counting
    requires i <= |list|
    decreases w.names.Values - stack, 2, |list| - i, 0
  {
    if i == |list| then Counting(false, counter, carried, cache)
    else
      var here := Explicit(w, cache, stack, list[i].expr, counter, carried);
      if list[i].name == member then here.(found := true)
      else Count(w, here.cache, stack, list, member, i + 1, Wrap64(here.counter + 1), here.carried)
  }

  /** One enumerator: an explicit value restarts the counter, or is carried if it has no number. */
  function Explicit(w: World, cache: Cache, stack: set<Key>, expr: W.Option<Expr>, counter: i64, carried: W.Option<Expr>): Counting
    decreases w.names.Values - stack, 1, MAX_EXPR_DEPTH + 2, 1
  {
    match expr
    case None => Counting(false, counter, carried, cache)
    case Some(e) =>
      var (r, c) := Evaluate(w, cache, stack, e, {}, 0);
      if Number(r) then Counting(false, ToI64(r.value).value, W.None, c) else Counting(false, counter, expr, c)
  }

  /** `calculate_with_visited`, looking names up through the resolver. */
  function Evaluate(w: World, cache: Cache, stack: set<Key>, e: Expr, visited: set<string>, depth: nat): (Outcome<Value>, Cache)
    decreases w.names.Values - stack, 1, if depth > MAX_EXPR_DEPTH then 0 else MAX_EXPR_DEPTH + 1 - depth, 0
  {
    if depth > MAX_EXPR_DEPTH then (Fail, cache)
    else
      match e
      case Unary(op, a) =>
        var (v, c) := Evaluate(w, cache, stack, a, visited, depth + 1);
        (if v.Done? then FoldUnary(op, v.value) else Fail, c)
      case Binary(x, op, y) =>
        var (l, c) := Evaluate(w, cache, stack, x, visited, depth + 1);
        if l.Fail? then (Fail, c)
        else
          var (r, c') := Evaluate(w, c, stack, y, visited, depth + 1);
          (if r.Done? then FoldBinary(op, l.value, r.value) else Fail, c')
      case Name(n) =>
        if n in visited then (Fail, cache)
        else if n !in w.names then (Done(e), cache)
        else
          var k := w.names[n];
          assert w.names.Values + {k} - stack == w.names.Values - stack;
          var (found, c) := Resolve(w, cache, stack, k);
          (match found
           case Unresolved => (Done(e), c)
           case Resolved(x) =>
             (if depth < MAX_EXPR_DEPTH && k.enum in w.enums then Done(Reference(Rendered(w, k), x)) else Fail, c)
           case Carried(e') => Evaluate(w, c, stack, e', visited + {n}, depth + 1))
      case _ => (Done(e), cache)
  }

  // ----- dependencies -----

  /** Expressions that can evaluate to a name: a name, possibly below unary plus. */
  predicate NameLike(e: Expr) {
    e.Name? || (e.Unary? && e.uop.Plus? && NameLike(e.arg))
  }

  /** Expressions that can evaluate to a name or a reference. */
  predicate ReferenceLike(e: Expr) {
    e.Name? || e.Reference? || (e.Unary? && e.uop.Plus? && ReferenceLike(e.arg))
  }

  /** The names an operator may ignore while they are unresolved: the right operand of `||`
      and `&&`, and both operands of a comparison of names and references. */
  function LazyRefs(e: Expr): set<string> {
    match e
    case Unary(_, a) => LazyRefs(a)
    case Binary(l, op, r) =>
      LazyRefs(l) + LazyRefs(r) + LazyOperands(l, op, r)
    case _ => {}
  }

  function LazyOperands(l: Expr, op: BinaryOp, r: Expr): set<string> {
    if op.LogicOr? || op.LogicAnd? then if NameLike(r) then Refs(r) else {}
    else if Truth(op) && ReferenceLike(l) && ReferenceLike(r) then Refs(l) + Refs(r)
    else {}
  }

  /** Resolving `k` evaluates every explicit expression up to its place. */
  ghost predicate Sees(w: World, k: Key, e: Expr) {
    && k.enum in w.enums
    && exists j :: 0 <= j < |w.enums[k.enum].list| && j <= Place(w, k) && w.enums[k.enum].list[j].expr == W.Some(e)
  }

  predicate Points(w: World, n: string, d: Key) {
    n in w.names && w.names[n] == d
  }

  ghost predicate Visits(w: World, k: Key, d: Key) {
    exists e, n :: Sees(w, k, e) && n in Refs(e) && Points(w, n, d)
  }

  ghost predicate VisitsLazily(w: World, k: Key, d: Key) {
    && Declared(w, k) && Deciding(w, k).Some?
    && exists n :: n in LazyRefs(Deciding(w, k).value) && Points(w, n, d)
  }

  ghost predicate Leads(w: World, a: Key, b: Key, steps: nat)
    decreases steps
  {
    Visits(w, a, b) || (steps > 0 && exists m :: Visits(w, a, m) && Leads(w, m, b, steps - 1))
  }

  ghost predicate LeadsTo(w: World, a: Key, b: Key) {
    exists steps: nat :: Leads(w, a, b, steps)
  }

  /** Where the expression that decides a member can ignore an unresolved name, that name
      does not lead back to the member. */
  ghost predicate Guarded(w: World) {
    forall k, d :: VisitsLazily(w, k, d) ==> !LeadsTo(w, d, k)
  }

  lemma LazyRefsAreRefs(e: Expr)
    ensures LazyRefs(e) <= Refs(e)
  {
  }

  /** Worlds without cycles are guarded, and so are worlds that decide no member by an
      expression that can ignore a name. */
  lemma GuardedCases(w: World)
    ensures (forall k :: !LeadsTo(w, k, k)) ==> Guarded(w)
    ensures (forall k :: Declared(w, k) && Deciding(w, k).Some? ==> LazyRefs(Deciding(w, k).value) == {}) ==> Guarded(w)
  {
    hide Sees, Deciding, Declared;
    forall k, d | VisitsLazily(w, k, d) && LeadsTo(w, d, k)
      ensures LeadsTo(w, k, k)
    {
      LazyIsVisit(w, k, d);
      LeadsVia(w, k, d, k);
    }
  }

  lemma LazyIsVisit(w: World, k: Key, d: Key)
    requires VisitsLazily(w, k, d)
    ensures Visits(w, k, d)
  {
    hide Sees, Deciding, Declared;
    LazyRefsAreRefs(Deciding(w, k).value);
    DecidingIsSeen(w, k);
  }

  lemma LeadsOnce(w: World, a: Key, b: Key)
    requires Visits(w, a, b)
    ensures LeadsTo(w, a, b)
  {
    assert Leads(w, a, b, 0);
  }

  lemma LeadsVia(w: World, a: Key, m: Key, b: Key)
    requires Visits(w, a, m) && LeadsTo(w, m, b)
    ensures LeadsTo(w, a, b)
  {
    hide Visits;
    var steps: nat :| Leads(w, m, b, steps);
    assert Leads(w, a, b, steps + 1);
  }

  lemma {:induction false} LeadsThen(w: World, a: Key, m: Key, b: Key, steps: nat)
    requires Leads(w, a, m, steps) && LeadsTo(w, m, b)
    ensures LeadsTo(w, a, b)
    decreases steps
  {
    hide Visits, LeadsTo;
    if Visits(w, a, m) {
      LeadsVia(w, a, m, b);
    } else {
      var x :| Visits(w, a, x) && Leads(w, x, m, steps - 1);
      LeadsThen(w, x, m, b, steps - 1);
      LeadsVia(w, a, x, b);
    }
  }

  lemma LeadsTransitive(w: World, a: Key, m: Key, b: Key)
    requires LeadsTo(w, a, m) && LeadsTo(w, m, b)
    ensures LeadsTo(w, a, b)
  {
    hide Leads;
    var steps: nat :| Leads(w, a, m, steps);
    LeadsThen(w, a, m, b, steps);
  }

  // ----- where an expression is evaluated -----

  /** `e` is part of what resolving `m` evaluates. */
  ghost predicate Evaluated(w: World, m: Key, e: Expr) {
    forall n <- Refs(e), d :: Points(w, n, d) ==> Visits(w, m, d)
  }

  /** `e` is part of what decides `m`. */
  ghost predicate Owned(w: World, m: Key, e: Expr) {
    forall n <- LazyRefs(e), d :: Points(w, n, d) ==> VisitsLazily(w, m, d)
  }

  /** Every member on the stack led to `m`. */
  ghost predicate OnPath(w: World, stack: set<Key>, m: Key) {
    forall s <- stack :: s == m || LeadsTo(w, s, m)
  }

  /** Nothing `e` mentions leads to the stack. */
  ghost predicate Clean(w: World, stack: set<Key>, e: Expr) {
    forall n <- Refs(e), d :: Points(w, n, d) ==> Away(w, stack, d)
  }

  ghost predicate Away(w: World, stack: set<Key>, d: Key) {
    d !in stack && forall s <- stack :: !LeadsTo(w, d, s)
  }

  lemma SeenIsEvaluated(w: World, k: Key, e: Expr)
    requires Sees(w, k, e)
    ensures Evaluated(w, k, e)
  {
    hide Sees;
  }

  lemma DecidingIsOwned(w: World, k: Key)
    requires Declared(w, k) && Deciding(w, k).Some?
    ensures Evaluated(w, k, Deciding(w, k).value) && Owned(w, k, Deciding(w, k).value)
  {
    hide Sees, Deciding, Declared;
    DecidingIsSeen(w, k);
    SeenIsEvaluated(w, k, Deciding(w, k).value);
  }

  lemma DecidingIsSeen(w: World, k: Key)
    requires Declared(w, k) && Deciding(w, k).Some?
    ensures Sees(w, k, Deciding(w, k).value)
  {
  }

  lemma LazyIsAway(w: World, stack: set<Key>, m: Key, d: Key)
    requires Guarded(w) && OnPath(w, stack, m) && VisitsLazily(w, m, d)
    ensures Away(w, stack, d)
  {
    hide VisitsLazily, LeadsTo;
    LazyIsVisit(w, m, d);
    LeadsOnce(w, m, d);
    assert !LeadsTo(w, d, m);
    forall s <- stack
      ensures !LeadsTo(w, d, s)
    {
      if LeadsTo(w, d, s) && s != m {
        LeadsTransitive(w, d, s, m);
      }
    }
  }

  lemma AwayVisits(w: World, stack: set<Key>, d: Key, e: Expr)
    requires Away(w, stack, d) && Sees(w, d, e)
    ensures Clean(w, stack, e)
  {
    hide Sees, LeadsTo;
    SeenIsEvaluated(w, d, e);
    forall n <- Refs(e), x | Points(w, n, x)
      ensures Away(w, stack, x)
    {
      LeadsOnce(w, d, x);
      forall s <- stack
        ensures !LeadsTo(w, x, s)
      {
        if LeadsTo(w, x, s) {
          LeadsVia(w, d, x, s);
        }
      }
    }
  }

  /** From the stack to a member that `m` mentions. */
  lemma PathExtends(w: World, stack: set<Key>, m: Key, d: Key)
    requires OnPath(w, stack, m) && Visits(w, m, d)
    ensures OnPath(w, stack, d)
  {
    hide Visits, LeadsTo;
    LeadsOnce(w, m, d);
    forall s <- stack
      ensures LeadsTo(w, s, d)
    {
      if s != m {
        LeadsTransitive(w, s, m, d);
      }
    }
  }

  // ----- what an evaluation may return -----

  function Lift(c: Cache): (v: Fates)
    ensures AllWorth(v)
  {
    map k | k in c :: Worth(c[k])
  }

  ghost function At(w: World, b: set<Key>, c: Fates, n: nat, e: Expr, visited: set<string>, depth: nat): Outcome<Value> {
    Calc(EnvOf(w, Rounds(w, b, c, n)), e, visited, depth)
  }

  ghost predicate SettledBy(w: World, b: set<Key>, c: Fates, n: nat, e: Expr) {
    Settled(w, Rounds(w, b, c, n), e)
  }

  ghost predicate EverSettled(w: World, b: set<Key>, c: Fates, e: Expr) {
    exists n: nat :: SettledBy(w, b, c, n, e)
  }

  /** Once everything mentioned is settled, the result is that of the settled members; a
      number is not returned before, nor anything at all where nothing leads to the stack. */
  ghost predicate Faithful(w: World, b: set<Key>, c: Fates, e: Expr, visited: set<string>, depth: nat, r: Outcome<Value>) {
    && (forall n: nat :: SettledBy(w, b, c, n, e) ==> r == At(w, b, c, n, e, visited, depth))
    && (Number(r) ==> EverSettled(w, b, c, e))
    && (r.Done? && Clean(w, b, e) ==> EverSettled(w, b, c, e))
  }

  lemma AtStays(w: World, b: set<Key>, c: Fates, m: nat, b': set<Key>, c': Fates, n: nat, e: Expr, visited: set<string>, depth: nat)
    requires AllWorth(c) && Within(Rounds(w, b, c, m), Rounds(w, b', c', n)) && SettledBy(w, b, c, m, e)
    ensures SettledBy(w, b', c', n, e)
    ensures At(w, b', c', n, e, visited, depth) == At(w, b, c, m, e, visited, depth)
  {
    hide Rounds, Calc, Closed, Settled, Within;
    RoundsRise(w, b, c, m);
    SettledStays(w, Rounds(w, b, c, m), Rounds(w, b', c', n), e);
    CalcStays(w, Rounds(w, b, c, m), Rounds(w, b', c', n), e, visited, depth);
  }

  lemma FaithfulBefore(w: World, b: set<Key>, c: Fates, c': Fates, e: Expr, visited: set<string>, depth: nat, r: Outcome<Value>)
    requires Grown(w, b, c, c') && Faithful(w, b, c', e, visited, depth, r)
    ensures Faithful(w, b, c, e, visited, depth, r)
  {
    hide At, Rounds, SettledBy, Clean, Within;
    if EverSettled(w, b, c', e) {
      var n: nat :| SettledBy(w, b, c', n, e);
      var m := GrownBack(w, b, c, c', n);
      AtStays(w, b, c', n, b, c, m, e, visited, depth);
    }
    forall n: nat | SettledBy(w, b, c, n, e)
      ensures r == At(w, b, c, n, e, visited, depth)
    {
      GrownForward(w, b, c, c', n);
      AtStays(w, b, c, n, b, c', n, e, visited, depth);
    }
  }

  lemma SettledPair(w: World, b: set<Key>, c: Fates, x: Expr, op: BinaryOp, y: Expr, n: nat)
    ensures SettledBy(w, b, c, n, Binary(x, op, y)) <==> SettledBy(w, b, c, n, x) && SettledBy(w, b, c, n, y)
  {
    hide Rounds, Declared;
  }

  lemma SettledBoth(w: World, b: set<Key>, c: Fates, x: Expr, op: BinaryOp, y: Expr)
    requires AllWorth(c)
    ensures EverSettled(w, b, c, Binary(x, op, y)) <==> EverSettled(w, b, c, x) && EverSettled(w, b, c, y)
    ensures forall n: nat :: SettledBy(w, b, c, n, Binary(x, op, y)) <==> SettledBy(w, b, c, n, x) && SettledBy(w, b, c, n, y)
  {
    forall n: nat
      ensures SettledBy(w, b, c, n, Binary(x, op, y)) <==> SettledBy(w, b, c, n, x) && SettledBy(w, b, c, n, y)
    {
      SettledPair(w, b, c, x, op, y, n);
    }
    hide Rounds, SettledBy, Within;
    if EverSettled(w, b, c, x) && EverSettled(w, b, c, y) {
      var m: nat :| SettledBy(w, b, c, m, x);
      var n: nat :| SettledBy(w, b, c, n, y);
      var top := if m < n then n else m;
      RoundsMonotone(w, b, b, c, m, top);
      RoundsMonotone(w, b, b, c, n, top);
      AtStays(w, b, c, m, b, c, top, x, {}, 0);
      AtStays(w, b, c, n, b, c, top, y, {}, 0);
      assert SettledBy(w, b, c, top, Binary(x, op, y));
    }
  }

  lemma SettledUnary(w: World, b: set<Key>, c: Fates, op: UnaryOp, a: Expr)
    ensures forall n: nat :: SettledBy(w, b, c, n, Unary(op, a)) <==> SettledBy(w, b, c, n, a)
    ensures EverSettled(w, b, c, Unary(op, a)) <==> EverSettled(w, b, c, a)
  {
    hide Rounds, Declared;
  }

  lemma NumberUnary(op: UnaryOp, v: Value)
    requires Number(FoldUnary(op, v))
    ensures !v.Name?
  {
  }

  lemma FaithfulUnary(w: World, b: set<Key>, c: Fates, op: UnaryOp, a: Expr, visited: set<string>, depth: nat, r: Outcome<Value>)
    requires depth <= MAX_EXPR_DEPTH && Faithful(w, b, c, a, visited, depth + 1, r)
    ensures Faithful(w, b, c, Unary(op, a), visited, depth, if r.Done? then FoldUnary(op, r.value) else Fail)
  {
    hide Rounds, FoldUnary, FoldBinary, SettledBy, EverSettled, Away, Points;
    SettledUnary(w, b, c, op, a);
    var r' := if r.Done? then FoldUnary(op, r.value) else Fail;
    if Number(r') {
      NumberUnary(op, r.value);
    }
  }

  /** Which operands of an operator must have been numbers. */
  lemma OperandsNumber(op: BinaryOp, l: Value, r: Value)
    requires FoldBinary(op, l, r).Done?
    ensures op.LogicOr? || op.LogicAnd? ==> !l.Name?
    ensures !Truth(op) ==> !l.Name? && !r.Name?
    ensures Truth(op) && !op.LogicOr? && !op.LogicAnd? ==> (l.Name? ==> r.Reference?) && (r.Name? ==> l.Reference?)
  {
    hide FoldArithmetic, FoldBits, FoldShift, FoldCompare;
    if !Truth(op) {
      NumbersOnly(op, l, r, Promoted(l, r));
    } else if !op.LogicOr? && !op.LogicAnd? {
      NamesMeetReferences(op, l, r);
    }
  }

  lemma NamesMeetReferences(op: BinaryOp, l: Value, r: Value)
    ensures (l.Name? && !r.Reference?) || (r.Name? && !l.Reference?) ==> FoldCompare(op, l, r, Promoted(l, r)).Fail?
  {
  }

  /** Only an expression made of a name evaluates to a name, and likewise for references. */
  lemma {:induction false} NamesFromNames(w: World, c: Cache, stack: set<Key>, e: Expr, visited: set<string>, depth: nat)
    ensures var r := Evaluate(w, c, stack, e, visited, depth).0;
            && (r.Done? && r.value.Name? ==> NameLike(e))
            && (r.Done? && (r.value.Name? || r.value.Reference?) ==> ReferenceLike(e))
    decreases e
  {
    hide Resolve, FoldBinary;
    match e
    case Unary(op, a) =>
      NamesFromNames(w, c, stack, a, visited, depth + 1);
    case _ =>
  }

  lemma NumbersOnly(op: BinaryOp, l: Value, r: Value, p: Value)
    requires p.Int32? || p.Int64? || p.Reference?
    ensures l.Name? || r.Name? ==> FoldBits(op, l, r, p).Fail? && FoldShift(op, l, r, p).Fail? && FoldArithmetic(op, l, r, p).Fail?
  {
    hide FoldBits, FoldShift, FoldArithmetic;
    NumbersOnlyBits(op, l, r, p);
    NumbersOnlyShift(op, l, r, p);
    NumbersOnlyArithmetic(op, l, r, p);
  }

  lemma NumbersOnlyBits(op: BinaryOp, l: Value, r: Value, p: Value)
    requires p.Int32? || p.Int64? || p.Reference?
    ensures l.Name? || r.Name? ==> FoldBits(op, l, r, p).Fail?
  {
    hide BitOp, W.Wrap32, Wrap64, Pow2;
  }

  lemma NumbersOnlyShift(op: BinaryOp, l: Value, r: Value, p: Value)
    requires p.Int32? || p.Int64? || p.Reference?
    ensures l.Name? || r.Name? ==> FoldShift(op, l, r, p).Fail?
  {
    hide W.Wrap32, Wrap64, Pow2, LeadingZeros;
  }

  lemma NumbersOnlyArithmetic(op: BinaryOp, l: Value, r: Value, p: Value)
    requires p.Int32? || p.Int64? || p.Reference?
    ensures l.Name? || r.Name? ==> FoldArithmetic(op, l, r, p).Fail?
  {
    hide W.Wrap32, Wrap64, Pow2, CheckedI64;
  }

  /** What is known of the shape of an operand from its outcome. */
  ghost predicate Shaped(e: Expr, r: Outcome<Value>) {
    && (r.Done? && r.value.Name? ==> NameLike(e))
    && (r.Done? && (r.value.Name? || r.value.Reference?) ==> ReferenceLike(e))
  }

  lemma FaithfulBinary(w: World, b: set<Key>, m: Key, c: Fates, x: Expr, op: BinaryOp, y: Expr, visited: set<string>, depth: nat,
                       l: Outcome<Value>, r: Outcome<Value>)
    requires Guarded(w) && AllWorth(c) && OnPath(w, b, m) && Owned(w, m, Binary(x, op, y)) && depth <= MAX_EXPR_DEPTH
    requires Faithful(w, b, c, x, visited, depth + 1, l) && Shaped(x, l)
    requires l.Done? ==> Faithful(w, b, c, y, visited, depth + 1, r) && Shaped(y, r)
    ensures Faithful(w, b, c, Binary(x, op, y), visited, depth,
                     if l.Done? && r.Done? then FoldBinary(op, l.value, r.value) else Fail)
  {
    hide Rounds, FoldUnary, FoldBinary, SettledBy, EverSettled, Away, Points, Guarded, OnPath, Owned, Clean, NameLike, ReferenceLike;
    var e := Binary(x, op, y);
    SettledBoth(w, b, c, x, op, y);
    CleanBoth(w, b, x, op, y);
    var r' := if l.Done? && r.Done? then FoldBinary(op, l.value, r.value) else Fail;
    if Number(r') {
      OperandsNumber(op, l.value, r.value);
      LazyIsClean(w, b, m, x, op, y);
    }
  }

  lemma CleanBoth(w: World, b: set<Key>, x: Expr, op: BinaryOp, y: Expr)
    ensures Clean(w, b, Binary(x, op, y)) ==> Clean(w, b, x) && Clean(w, b, y)
  {
    hide Away, Points;
  }

  /** An operand that can be ignored while unresolved does not lead to the stack. */
  lemma LazyIsClean(w: World, b: set<Key>, m: Key, x: Expr, op: BinaryOp, y: Expr)
    requires Guarded(w) && OnPath(w, b, m) && Owned(w, m, Binary(x, op, y))
    ensures (op.LogicOr? || op.LogicAnd?) && NameLike(y) ==> Clean(w, b, y)
    ensures Truth(op) && !op.LogicOr? && !op.LogicAnd? && ReferenceLike(x) && ReferenceLike(y) ==> Clean(w, b, x) && Clean(w, b, y)
  {
    hide Guarded, OnPath, VisitsLazily, Away, Points, NameLike, ReferenceLike;
    var e := Binary(x, op, y);
    forall n <- LazyRefs(e), d | Points(w, n, d)
      ensures Away(w, b, d)
    {
      LazyIsAway(w, b, m, d);
    }
  }

  lemma OwnedParts(w: World, m: Key, x: Expr, op: BinaryOp, y: Expr)
    ensures Owned(w, m, Binary(x, op, y)) ==> Owned(w, m, x) && Owned(w, m, y)
    ensures Evaluated(w, m, Binary(x, op, y)) ==> Evaluated(w, m, x) && Evaluated(w, m, y)
  {
    hide Visits, VisitsLazily, Points;
  }

  lemma FaithfulDeep(w: World, b: set<Key>, c: Fates, e: Expr, visited: set<string>, depth: nat)
    requires depth > MAX_EXPR_DEPTH
    ensures Faithful(w, b, c, e, visited, depth, Fail)
  {
    hide Rounds;
  }

  lemma FaithfulLeaf(w: World, b: set<Key>, c: Fates, e: Expr, visited: set<string>, depth: nat)
    requires !e.Unary? && !e.Binary? && !e.Name? && depth <= MAX_EXPR_DEPTH
    ensures Faithful(w, b, c, e, visited, depth, Done(e))
  {
    hide Rounds;
    assert SettledBy(w, b, c, 0, e);
  }

  /** A name on the path, or one that denotes no declared member. */
  lemma FaithfulPlainName(w: World, b: set<Key>, c: Fates, n: string, visited: set<string>, depth: nat)
    requires depth <= MAX_EXPR_DEPTH
    ensures n in visited ==> Faithful(w, b, c, Name(n), visited, depth, Fail)
    ensures n !in visited && !(n in w.names && Declared(w, w.names[n])) ==>
              Faithful(w, b, c, Name(n), visited, depth, Done(Name(n)))
  {
    hide Rounds, Declared;
    if !(n in w.names && Declared(w, w.names[n])) {
      assert SettledBy(w, b, c, 0, Name(n));
    }
  }

  // ----- resolving a member -----

  /** What resolving `k` may answer. */
  ghost predicate Verdict(w: World, b: set<Key>, c: Fates, k: Key, r: Found) {
    match r
    case Resolved(x) => Declared(w, k) && exists n: nat :: HasBy(w, b, c, n, k, Worth(x))
    case Unresolved => (k in b || !Declared(w, k)) && forall n: nat :: k !in Rounds(w, b, c, n)
    case Carried(e) =>
      && Declared(w, k) && k !in b && Deciding(w, k) == W.Some(e)
      && forall n: nat, x: i64 :: !HasBy(w, b, c, n, k, Worth(x))
  }

  lemma SettledName(w: World, b: set<Key>, c: Fates, n: string, i: nat)
    requires n in w.names && Declared(w, w.names[n])
    ensures SettledBy(w, b, c, i, Name(n)) <==> w.names[n] in Rounds(w, b, c, i)
  {
  }

  lemma CalcReference(env: Env, n: string, visited: set<string>, depth: nat)
    requires n in env && env[n].Reference? && n !in visited && depth <= MAX_EXPR_DEPTH
    ensures Calc(env, Name(n), visited, depth) == if depth < MAX_EXPR_DEPTH then Done(env[n]) else Fail
  {
    assert Calc(env, env[n], visited + {n}, depth + 1) == if depth < MAX_EXPR_DEPTH then Done(env[n]) else Fail;
  }

  lemma FaithfulReference(w: World, b: set<Key>, c: Fates, n: string, visited: set<string>, depth: nat, x: i64)
    requires AllWorth(c) && n !in visited && n in w.names && depth <= MAX_EXPR_DEPTH
    requires Verdict(w, b, c, w.names[n], Resolved(x))
    ensures Faithful(w, b, c, Name(n), visited, depth,
                     if depth < MAX_EXPR_DEPTH then Done(Reference(Rendered(w, w.names[n]), x)) else Fail)
  {
    hide Rounds, Calc, SettledBy;
    var k := w.names[n];
    var r := if depth < MAX_EXPR_DEPTH then Done(Reference(Rendered(w, k), x)) else Fail;
    var m: nat :| HasBy(w, b, c, m, k, Worth(x));
    SettledName(w, b, c, n, m);
    forall i: nat | SettledBy(w, b, c, i, Name(n))
      ensures r == At(w, b, c, i, Name(n), visited, depth)
    {
      SettledName(w, b, c, n, i);
      FateUnique(w, b, c, m, i, k, Worth(x), Rounds(w, b, c, i)[k]);
      CalcReference(EnvOf(w, Rounds(w, b, c, i)), n, visited, depth);
    }
  }

  /** The member and its deciding expression are settled together. */
  lemma SettlesWith(w: World, b: set<Key>, c: Fates, k: Key, i: nat)
    requires k !in c && k !in b && Declared(w, k) && Deciding(w, k).Some?
    ensures SettledBy(w, b, c, i, Deciding(w, k).value) ==> k in Rounds(w, b, c, i + 1)
    ensures k in Rounds(w, b, c, i) ==> i > 0 && SettledBy(w, b, c, i - 1, Deciding(w, k).value)
    ensures k in Rounds(w, b, c, i) ==>
              var r := At(w, b, c, i - 1, Deciding(w, k).value, {}, 0);
              Rounds(w, b, c, i)[k] == if Number(r) then Worth(Wrap64(ToI64(r.value).value + Distance(w, k))) else Dead
  {
    hide Rounds, Deciding, Declared, Distance, Settled, Wrap64, Calc;
    RoundsZero(w, b, c);
    RoundsStep(w, b, c, i + 1, k);
    if i > 0 {
      RoundsStep(w, b, c, i, k);
    }
  }

  /** A carried expression evaluated in place: it never turns into a number there. */
  lemma FaithfulCarried(w: World, b: set<Key>, c: Fates, n: string, visited: set<string>, depth: nat, e: Expr, r: Outcome<Value>)
    requires AllWorth(c) && n !in visited && n in w.names && depth <= MAX_EXPR_DEPTH && w.names[n] !in c
    requires Verdict(w, b, c, w.names[n], Carried(e))
    requires Faithful(w, b, c, e, visited + {n}, depth + 1, r)
    ensures Faithful(w, b, c, Name(n), visited, depth, r)
  {
    hide Rounds, Deciding, Declared, SettledBy, Settled;
    var k := w.names[n];
    CarriedNoNumber(w, b, c, k, e, visited + {n}, depth + 1, r);
    forall i: nat | SettledBy(w, b, c, i, Name(n))
      ensures r == At(w, b, c, i, Name(n), visited, depth)
    {
      SettledName(w, b, c, n, i);
      SettlesWith(w, b, c, k, i);
      assert HasBy(w, b, c, i, k, Rounds(w, b, c, i)[k]);
      RoundsMonotone(w, b, b, c, i - 1, i);
      AtStays(w, b, c, i - 1, b, c, i, e, visited + {n}, depth + 1);
    }
    if r.Done? && Clean(w, b, Name(n)) {
      CarriedClean(w, b, n, e);
      var i: nat :| SettledBy(w, b, c, i, e);
      SettlesWith(w, b, c, k, i);
      SettledName(w, b, c, n, i + 1);
    }
  }

  lemma CarriedClean(w: World, b: set<Key>, n: string, e: Expr)
    requires n in w.names && Declared(w, w.names[n]) && Deciding(w, w.names[n]) == W.Some(e) && Clean(w, b, Name(n))
    ensures Clean(w, b, e)
  {
    hide Deciding, Declared, Away, Sees;
    var k := w.names[n];
    assert Points(w, n, k);
    DecidingIsSeen(w, k);
    AwayVisits(w, b, k, e);
  }

  lemma CarriedNoNumber(w: World, b: set<Key>, c: Fates, k: Key, e: Expr, visited: set<string>, depth: nat, r: Outcome<Value>)
    requires AllWorth(c) && k !in c && Verdict(w, b, c, k, Carried(e)) && Faithful(w, b, c, e, visited, depth, r)
    ensures !Number(r)
  {
    hide Rounds, Deciding, Declared, SettledBy, Clean, Distance, Wrap64;
    if Number(r) {
      var i: nat :| SettledBy(w, b, c, i, e);
      assert forall x: i64 :: !HasBy(w, b, c, i + 1, k, Worth(x));
      DoneStays(EnvOf(w, Rounds(w, b, c, i)), e, visited, {}, depth, 0);
      SettlesWith(w, b, c, k, i);
      SettlesWith(w, b, c, k, i + 1);
    }
  }

  // ----- the counter -----

  /** After `m` enumerators the counter stands for position `d`: it holds the last explicit
      number plus the distance, or the expression that gave no number is carried. */
  ghost predicate Tracks(w: World, b: set<Key>, c: Fates, list: seq<Enumerator>, m: nat, d: nat, counter: i64, carried: W.Option<Expr>)
    requires m <= |list|
  {
    var j := LastExplicit(list, m);
    if j < 0 then carried.None? && counter == Wrap64(d)
    else
      var e := list[j].expr.value;
      match carried
      case None => exists n: nat :: SettledBy(w, b, c, n, e) && CountsFrom(At(w, b, c, n, e, {}, 0), d - j, counter)
      case Some(x) => x == e && forall n: nat :: SettledBy(w, b, c, n, e) ==> !Number(At(w, b, c, n, e, {}, 0))
  }

  ghost predicate CountsFrom(r: Outcome<Value>, distance: int, counter: i64) {
    Number(r) && counter == Wrap64(ToI64(r.value).value + distance)
  }

  lemma WrapNext(v: int)
    ensures Wrap64(Wrap64(v) + 1) == Wrap64(v + 1)
  {
  }

  lemma TracksNext(w: World, b: set<Key>, c: Fates, list: seq<Enumerator>, m: nat, d: nat, counter: i64, carried: W.Option<Expr>)
    requires m <= |list| && Tracks(w, b, c, list, m, d, counter, carried)
    ensures Tracks(w, b, c, list, m, d + 1, Wrap64(counter + 1), carried)
  {
    hide At, Wrap64, SettledBy;
    var j := LastExplicit(list, m);
    if j < 0 {
      WrapNext(d);
    } else if carried.None? {
      var e := list[j].expr.value;
      var n: nat :| SettledBy(w, b, c, n, e) && CountsFrom(At(w, b, c, n, e, {}, 0), d - j, counter);
      WrapNext(ToI64(At(w, b, c, n, e, {}, 0).value).value + (d - j));
      assert CountsFrom(At(w, b, c, n, e, {}, 0), d + 1 - j, Wrap64(counter + 1));
    }
  }

  lemma TracksExplicit(w: World, b: set<Key>, c: Fates, list: seq<Enumerator>, i: nat, r: Outcome<Value>, counter: i64)
    requires i < |list| && list[i].expr.Some? && Faithful(w, b, c, list[i].expr.value, {}, 0, r)
    ensures if Number(r) then Tracks(w, b, c, list, i + 1, i, ToI64(r.value).value, W.None)
            else Tracks(w, b, c, list, i + 1, i, counter, list[i].expr)
  {
    hide At, SettledBy, Clean;
    var e := list[i].expr.value;
    if Number(r) {
      var n: nat :| SettledBy(w, b, c, n, e);
      assert CountsFrom(At(w, b, c, n, e, {}, 0), 0, ToI64(r.value).value);
    }
  }

  lemma TracksImplicit(w: World, b: set<Key>, c: Fates, list: seq<Enumerator>, i: nat, counter: i64, carried: W.Option<Expr>)
    requires i < |list| && list[i].expr.None? && Tracks(w, b, c, list, i, i, counter, carried)
    ensures Tracks(w, b, c, list, i + 1, i, counter, carried)
  {
    hide At, SettledBy;
  }

  // ----- verdicts -----

  lemma VerdictKnown(w: World, b: set<Key>, c: Fates, k: Key, x: i64)
    requires k in c && c[k] == Worth(x) && Declared(w, k)
    ensures Verdict(w, b, c, k, Resolved(x))
  {
    RoundsZero(w, b, c);
    assert HasBy(w, b, c, 0, k, Worth(x));
  }

  lemma VerdictNot(w: World, b: set<Key>, c: Fates, k: Key)
    requires k !in c && (k in b || !Declared(w, k))
    ensures Verdict(w, b, c, k, Unresolved)
  {
    hide Rounds;
    forall n: nat
      ensures k !in Rounds(w, b, c, n)
    {
      if k in Rounds(w, b, c, n) {
        BannedStayOut(w, b, c, n, k);
      }
    }
  }

  lemma DecideCounts(w: World, v: Fates, k: Key, e: Expr, counter: i64)
    requires Declared(w, k) && Deciding(w, k) == W.Some(e) && Settled(w, v, e)
    requires CountsFrom(Calc(EnvOf(w, v), e, {}, 0), Distance(w, k), counter)
    ensures Decide(w, v, k) == W.Some(Worth(counter))
  {
    hide EnvOf, Settled, Deciding, Distance, Wrap64, Calc;
  }

  lemma DecideImplicit(w: World, v: Fates, k: Key)
    requires Declared(w, k) && Deciding(w, k).None?
    ensures Decide(w, v, k) == W.Some(Worth(Wrap64(Distance(w, k))))
  {
  }

  lemma VerdictFound(w: World, b: set<Key>, c: Fates, k: Key, counter: i64, carried: W.Option<Expr>)
    requires AllWorth(c) && k !in c && k !in b && Declared(w, k)
    requires Tracks(w, b + {k}, c, w.enums[k.enum].list, Place(w, k) + 1, Place(w, k), counter, carried)
    ensures Verdict(w, b, c, k, if carried.Some? then Carried(carried.value) else Resolved(counter))
  {
    hide Rounds, Verdict, Calc, Wrap64, Settled, EnvOf, Decide;
    var list, i := w.enums[k.enum].list, Place(w, k);
    var j := LastExplicit(list, i + 1);
    if carried.Some? {
      VerdictCarried(w, b, c, k, carried.value);
    } else if j < 0 {
      DecideImplicit(w, Rounds(w, b + {k}, c, 0), k);
      VerdictCounted(w, b, c, k, 0, counter);
    } else {
      var e := list[j].expr.value;
      var n: nat :| SettledBy(w, b + {k}, c, n, e) && CountsFrom(At(w, b + {k}, c, n, e, {}, 0), i - j, counter);
      DecideCounts(w, Rounds(w, b + {k}, c, n), k, e, counter);
      VerdictCounted(w, b, c, k, n, counter);
    }
  }

  lemma VerdictCounted(w: World, b: set<Key>, c: Fates, k: Key, n: nat, counter: i64)
    requires AllWorth(c) && k !in c && k !in b && Declared(w, k)
    requires Decide(w, Rounds(w, b + {k}, c, n), k) == W.Some(Worth(counter))
    ensures Verdict(w, b, c, k, Resolved(counter))
  {
    hide Decide, Rounds, Declared, Closed;
    RoundsMonotone(w, b + {k}, b, c, n, n);
    RoundsRise(w, b + {k}, c, n);
    DecideStays(w, Rounds(w, b + {k}, c, n), Rounds(w, b, c, n), k);
    RoundsStep(w, b, c, n + 1, k);
    assert HasBy(w, b, c, n + 1, k, Worth(counter));
  }

  /** The first round that settles a member. */
  lemma {:induction false} FirstRound(w: World, b: set<Key>, c: Fates, k: Key, n: nat) returns (m: nat)
    requires k !in c && k in Rounds(w, b, c, n)
    ensures 0 < m <= n && k in Rounds(w, b, c, m) && forall i: nat :: i < m ==> k !in Rounds(w, b, c, i)
    decreases n
  {
    hide Rounds;
    RoundsZero(w, b, c);
    if i: nat :| i < n && k in Rounds(w, b, c, i) {
      m := FirstRound(w, b, c, k, i);
    } else {
      m := n;
    }
  }

  /** While a member is being resolved it is left out; that never costs its deciding
      expression a number: an expression that needed the member would never have one. */
  lemma NoDetour(w: World, b: set<Key>, c: Fates, k: Key, n: nat) returns (m: nat)
    requires AllWorth(c) && k !in c && k in Rounds(w, b, c, n)
    ensures m > 0 && k in Rounds(w, b, c, m) && Rounds(w, b, c, m)[k] == Rounds(w, b, c, n)[k]
    ensures Rounds(w, b + {k}, c, m - 1) == Rounds(w, b, c, m - 1)
  {
    hide Rounds;
    m := FirstRound(w, b, c, k, n);
    SameRounds(w, b, c, k, m - 1);
    RoundsMonotone(w, b, b, c, m, n);
  }

  lemma VerdictCarried(w: World, b: set<Key>, c: Fates, k: Key, e: Expr)
    requires AllWorth(c) && k !in c && k !in b && Declared(w, k) && Deciding(w, k) == W.Some(e)
    requires forall n: nat :: SettledBy(w, b + {k}, c, n, e) ==> !Number(At(w, b + {k}, c, n, e, {}, 0))
    ensures Verdict(w, b, c, k, Carried(e))
  {
    hide Deciding, Declared, Rounds, Calc, Settled, Wrap64, Distance;
    forall n: nat, x: i64
      ensures !HasBy(w, b, c, n, k, Worth(x))
    {
      if HasBy(w, b, c, n, k, Worth(x)) {
        var m := NoDetour(w, b, c, k, n);
        assert SettledBy(w, b + {k}, c, m - 1, e) ==> !Number(At(w, b + {k}, c, m - 1, e, {}, 0));
        SettlesWith(w, b, c, k, m);
      }
    }
  }

  // ----- the resolver is faithful -----

  /** Cached members are declared and none is on the stack. */
  predicate Apart(w: World, stack: set<Key>, cache: Cache) {
    forall k <- cache :: k !in stack && Declared(w, k)
  }

  lemma GrownApart(w: World, stack: set<Key>, c: Cache, c': Cache)
    requires Apart(w, stack, c) && Grown(w, stack, Lift(c), Lift(c'))
    ensures Apart(w, stack, c')
  {
    hide Rounds, Declared;
    var n: nat :| Within(Lift(c'), Rounds(w, stack, Lift(c), n));
    forall k <- c'
      ensures k !in stack && Declared(w, k)
    {
      assert k in Lift(c');
      BannedStayOut(w, stack, Lift(c), n, k);
    }
  }

  lemma {:induction false} EvaluateFaithful(w: World, c: Cache, stack: set<Key>, m: Key, e: Expr, visited: set<string>, depth: nat)
    requires Guarded(w) && Apart(w, stack, c) && OnPath(w, stack, m) && Evaluated(w, m, e)
    ensures var (r, c') := Evaluate(w, c, stack, e, visited, depth);
            Grown(w, stack, Lift(c), Lift(c')) && (Owned(w, m, e) ==> Faithful(w, stack, Lift(c), e, visited, depth, r))
    decreases w.names.Values - stack, 1, if depth > MAX_EXPR_DEPTH then 0 else MAX_EXPR_DEPTH + 1 - depth, 1
  {
    hide Grown, Faithful, FoldUnary, FoldBinary, Resolve, Guarded, Apart, OnPath, Lift, Owned, Evaluated;
    GrownNot(w, stack, Lift(c));
    if depth > MAX_EXPR_DEPTH {
      FaithfulDeep(w, stack, Lift(c), e, visited, depth);
    } else {
      match e
      case Unary(op, a) =>
        OwnedArg(w, m, op, a);
        EvaluateFaithful(w, c, stack, m, a, visited, depth + 1);
        if Owned(w, m, e) {
          FaithfulUnary(w, stack, Lift(c), op, a, visited, depth, Evaluate(w, c, stack, a, visited, depth + 1).0);
        }
      case Binary(x, op, y) =>
        EvaluateBinaryFaithful(w, c, stack, m, x, op, y, visited, depth);
      case Name(n) =>
        FaithfulPlainName(w, stack, Lift(c), n, visited, depth);
        if n !in visited && n in w.names {
          EvaluateNameFaithful(w, c, stack, m, n, visited, depth);
        }
      case _ =>
        FaithfulLeaf(w, stack, Lift(c), e, visited, depth);
    }
  }

  lemma OwnedArg(w: World, m: Key, op: UnaryOp, a: Expr)
    ensures Owned(w, m, Unary(op, a)) ==> Owned(w, m, a)
    ensures Evaluated(w, m, Unary(op, a)) ==> Evaluated(w, m, a)
  {
  }

  lemma {:induction false} EvaluateBinaryFaithful(w: World, c: Cache, stack: set<Key>, m: Key, x: Expr, op: BinaryOp, y: Expr,
                                                  visited: set<string>, depth: nat)
    requires Guarded(w) && Apart(w, stack, c) && OnPath(w, stack, m) && Evaluated(w, m, Binary(x, op, y)) && depth <= MAX_EXPR_DEPTH
    ensures var (r, c') := Evaluate(w, c, stack, Binary(x, op, y), visited, depth);
            && Grown(w, stack, Lift(c), Lift(c'))
            && (Owned(w, m, Binary(x, op, y)) ==> Faithful(w, stack, Lift(c), Binary(x, op, y), visited, depth, r))
    decreases w.names.Values - stack, 1, MAX_EXPR_DEPTH + 1 - depth, 0
  {
    hide Grown, Faithful, FoldUnary, FoldBinary, Resolve, Guarded, Apart, OnPath, Lift, Owned, Evaluated, NameLike, ReferenceLike;
    var owned := Owned(w, m, Binary(x, op, y));
    OwnedParts(w, m, x, op, y);
    EvaluateFaithful(w, c, stack, m, x, visited, depth + 1);
    NamesFromNames(w, c, stack, x, visited, depth + 1);
    var (l, c1) := Evaluate(w, c, stack, x, visited, depth + 1);
    if l.Fail? {
      if owned {
        FaithfulBinary(w, stack, m, Lift(c), x, op, y, visited, depth, l, Fail);
      }
    } else {
      GrownApart(w, stack, c, c1);
      EvaluateFaithful(w, c1, stack, m, y, visited, depth + 1);
      NamesFromNames(w, c1, stack, y, visited, depth + 1);
      var (r, c2) := Evaluate(w, c1, stack, y, visited, depth + 1);
      GrownTransitive(w, stack, Lift(c), Lift(c1), Lift(c2));
      if owned {
        FaithfulBefore(w, stack, Lift(c), Lift(c1), y, visited, depth + 1, r);
        FaithfulBinary(w, stack, m, Lift(c), x, op, y, visited, depth, l, r);
      }
    }
  }

  lemma {:induction false} EvaluateNameFaithful(w: World, c: Cache, stack: set<Key>, m: Key, n: string, visited: set<string>, depth: nat)
    requires Guarded(w) && Apart(w, stack, c) && OnPath(w, stack, m) && Evaluated(w, m, Name(n))
    requires n in w.names && n !in visited && depth <= MAX_EXPR_DEPTH
    ensures var (r, c') := Evaluate(w, c, stack, Name(n), visited, depth);
            Grown(w, stack, Lift(c), Lift(c')) && Faithful(w, stack, Lift(c), Name(n), visited, depth, r)
    decreases w.names.Values - stack, 1, MAX_EXPR_DEPTH + 1 - depth, 0
  {
    hide Grown, Faithful, Resolve, Guarded, Apart, OnPath, Deciding, Visits;
    var k := w.names[n];
    assert w.names.Values + {k} - stack == w.names.Values - stack;
    PathToName(w, stack, m, n);
    ResolveFaithful(w, c, stack, k);
    var (found, c1) := Resolve(w, c, stack, k);
    match found
    case Unresolved =>
      UnresolvedName(w, stack, Lift(c), n, visited, depth);
    case Resolved(x) =>
      FaithfulReference(w, stack, Lift(c), n, visited, depth, x);
    case Carried(e) =>
      DecidingIsOwned(w, k);
      GrownApart(w, stack, c, c1);
      EvaluateFaithful(w, c1, stack, k, e, visited + {n}, depth + 1);
      var (r, c2) := Evaluate(w, c1, stack, e, visited + {n}, depth + 1);
      FaithfulBefore(w, stack, Lift(c), Lift(c1), e, visited + {n}, depth + 1, r);
      GrownTransitive(w, stack, Lift(c), Lift(c1), Lift(c2));
      NotCached(w, c, stack, k);
      FaithfulCarried(w, stack, Lift(c), n, visited, depth, e, r);
  }

  lemma NotCached(w: World, c: Cache, stack: set<Key>, k: Key)
    requires Resolve(w, c, stack, k).0.Carried?
    ensures k !in Lift(c)
  {
  }

  lemma PathToName(w: World, stack: set<Key>, m: Key, n: string)
    requires OnPath(w, stack, m) && Evaluated(w, m, Name(n)) && n in w.names
    ensures OnPath(w, stack, w.names[n])
  {
    hide OnPath, Visits;
    assert Points(w, n, w.names[n]);
    PathExtends(w, stack, m, w.names[n]);
  }

  lemma UnresolvedName(w: World, b: set<Key>, c: Fates, n: string, visited: set<string>, depth: nat)
    requires n in w.names && n !in visited && depth <= MAX_EXPR_DEPTH && Verdict(w, b, c, w.names[n], Unresolved)
    ensures Faithful(w, b, c, Name(n), visited, depth, Done(Name(n)))
  {
    hide Rounds;
    if Declared(w, w.names[n]) {
      assert Points(w, n, w.names[n]);
      forall i: nat
        ensures !SettledBy(w, b, c, i, Name(n))
      {
        SettledName(w, b, c, n, i);
      }
    } else {
      FaithfulPlainName(w, b, c, n, visited, depth);
    }
  }

  lemma {:induction false} ResolveFaithful(w: World, c: Cache, stack: set<Key>, k: Key)
    requires Guarded(w) && Apart(w, stack, c) && OnPath(w, stack, k)
    ensures var (r, c') := Resolve(w, c, stack, k);
            Grown(w, stack, Lift(c), Lift(c')) && Verdict(w, stack, Lift(c), k, r)
    decreases w.names.Values + {k} - stack, 0, 0, 1
  {
    hide Grown, Verdict, Guarded, Tracks, Count;
    GrownNot(w, stack, Lift(c));
    if k in c {
      VerdictKnown(w, stack, Lift(c), k, c[k]);
    } else if k in stack || k.enum !in w.enums {
      VerdictNot(w, stack, Lift(c), k);
    } else {
      assert k in w.names.Values + {k} - stack && k !in w.names.Values - (stack + {k});
      PushFaithful(w, c, stack, k);
    }
  }

  lemma {:induction false} PushFaithful(w: World, c: Cache, stack: set<Key>, k: Key)
    requires Guarded(w) && Apart(w, stack, c) && OnPath(w, stack, k)
    requires k !in c && k !in stack && k.enum in w.enums
    ensures var (r, c') := Resolve(w, c, stack, k);
            Grown(w, stack, Lift(c), Lift(c')) && Verdict(w, stack, Lift(c), k, r)
    decreases w.names.Values - (stack + {k}), 3, 0, 0
  {
    hide Grown, Verdict, Guarded, Tracks, Count;
    var list := w.enums[k.enum].list;
    var r := Count(w, c, stack + {k}, list, k.member, 0, 0, W.None);
    GrownNot(w, stack + {k}, Lift(c));
    TracksStart(w, stack + {k}, Lift(c), list);
    CountFaithful(w, c, c, stack, k, 0, 0, W.None);
    GrownUnban(w, stack + {k}, stack, Lift(c), Lift(r.cache));
    if !r.found {
      VerdictNot(w, stack, Lift(c), k);
    } else {
      VerdictFound(w, stack, Lift(c), k, r.counter, r.carried);
      if r.carried.None? {
        CacheCounted(w, c, r.cache, stack, k, r.counter);
      }
    }
  }

  lemma CacheCounted(w: World, c: Cache, c': Cache, stack: set<Key>, k: Key, x: i64)
    requires Grown(w, stack, Lift(c), Lift(c')) && Verdict(w, stack, Lift(c), k, Resolved(x))
    ensures Grown(w, stack, Lift(c), Lift(c'[k := x]))
  {
    hide Grown, Rounds;
    var n: nat :| HasBy(w, stack, Lift(c), n, k, Worth(x));
    GrownAdd(w, stack, Lift(c), Lift(c'), n, k, x);
    assert Lift(c'[k := x]) == Lift(c')[k := Worth(x)];
  }

  lemma TracksStart(w: World, b: set<Key>, c: Fates, list: seq<Enumerator>)
    ensures Tracks(w, b, c, list, 0, 0, 0, W.None)
  {
  }

  /** The enumerator that decides `k` is among the first `i`, or there is none. */
  ghost predicate Passed(w: World, k: Key, i: nat) {
    Declared(w, k) && LastExplicit(w.enums[k.enum].list, Place(w, k) + 1) < i
  }

  /** The loop, seen from the cache `c0` it started with. Before the deciding enumerator only
      the cache matters. */
  lemma {:induction false} CountFaithful(w: World, c0: Cache, c: Cache, stack: set<Key>, k: Key, i: nat, counter: i64, carried: W.Option<Expr>)
    requires Guarded(w) && Apart(w, stack + {k}, c0) && OnPath(w, stack + {k}, k)
    requires k.enum in w.enums && i <= Place(w, k)
    requires Grown(w, stack + {k}, Lift(c0), Lift(c))
    requires Passed(w, k, i) ==> Tracks(w, stack + {k}, Lift(c0), w.enums[k.enum].list, i, i, counter, carried)
    ensures var r := Count(w, c, stack + {k}, w.enums[k.enum].list, k.member, i, counter, carried);
            && Grown(w, stack + {k}, Lift(c0), Lift(r.cache))
            && (r.found <==> Declared(w, k))
            && (r.found ==> Tracks(w, stack + {k}, Lift(c0), w.enums[k.enum].list, Place(w, k) + 1, Place(w, k), r.counter, r.carried))
    decreases w.names.Values - (stack + {k}), 2, |w.enums[k.enum].list| - i, 1
  {
    hide Grown, Guarded, Tracks, Explicit, Apart, OnPath, Lift;
    var list, b := w.enums[k.enum].list, stack + {k};
    if i < |list| {
      ExplicitFaithful(w, c0, c, stack, k, i, counter, carried);
      var here := Explicit(w, c, b, list[i].expr, counter, carried);
      if list[i].name != k.member {
        if Passed(w, k, i + 1) {
          TracksNext(w, b, Lift(c0), list, i + 1, i, here.counter, here.carried);
        }
        CountFaithful(w, c0, here.cache, stack, k, i + 1, Wrap64(here.counter + 1), here.carried);
      }
    }
  }

  lemma {:induction false} ExplicitFaithful(w: World, c0: Cache, c: Cache, stack: set<Key>, k: Key, i: nat, counter: i64, carried: W.Option<Expr>)
    requires Guarded(w) && Apart(w, stack + {k}, c0) && OnPath(w, stack + {k}, k)
    requires k.enum in w.enums && i < |w.enums[k.enum].list| && i <= Place(w, k)
    requires Grown(w, stack + {k}, Lift(c0), Lift(c))
    requires Passed(w, k, i) ==> Tracks(w, stack + {k}, Lift(c0), w.enums[k.enum].list, i, i, counter, carried)
    ensures var r := Explicit(w, c, stack + {k}, w.enums[k.enum].list[i].expr, counter, carried);
            && Grown(w, stack + {k}, Lift(c0), Lift(r.cache))
            && (Passed(w, k, i + 1) ==> Tracks(w, stack + {k}, Lift(c0), w.enums[k.enum].list, i + 1, i, r.counter, r.carried))
    decreases w.names.Values - (stack + {k}), 2, 0, 0
  {
    hide Grown, Guarded, Tracks, Evaluate, Apart, OnPath, Lift, Faithful;
    var list, b := w.enums[k.enum].list, stack + {k};
    if list[i].expr.None? {
      if Passed(w, k, i + 1) {
        TracksImplicit(w, b, Lift(c0), list, i, counter, carried);
      }
    } else {
      var e := list[i].expr.value;
      assert Sees(w, k, e);
      SeenIsEvaluated(w, k, e);
      GrownApart(w, b, c0, c);
      EvaluateFaithful(w, c, b, k, e, {}, 0);
      var (r, c') := Evaluate(w, c, b, e, {}, 0);
      GrownTransitive(w, b, Lift(c0), Lift(c), Lift(c'));
      if Passed(w, k, i + 1) {
        assert Deciding(w, k) == list[i].expr;
        DecidingIsOwned(w, k);
        FaithfulBefore(w, b, Lift(c0), Lift(c), e, {}, 0, r);
        TracksExplicit(w, b, Lift(c0), list, i, r, counter);
      }
    }
  }

  // ----- from the empty stack -----

  /** Only true values are cached. */
  ghost predicate Truthful(w: World, c: Cache) {
    Grown(w, {}, map[], Lift(c))
  }

  lemma TruthfulApart(w: World, c: Cache)
    requires Truthful(w, c)
    ensures Apart(w, {}, c)
  {
    hide Rounds, Declared;
    assert Lift(map[]) == map[];
    GrownApart(w, {}, map[], c);
  }

  /** Whatever is cached, an answer at the empty stack is a value exactly when it is the
      declarative one, and what is cached stays true. */
  lemma AnswersMean(w: World, c: Cache, k: Key)
    requires Guarded(w) && Truthful(w, c)
    ensures forall x: i64 :: Resolve(w, c, {}, k).0 == Resolved(x) <==> Means(w, k, x)
    ensures Truthful(w, Resolve(w, c, {}, k).1)
  {
    hide Rounds, Guarded, Resolve, Declared, Deciding, Lift, Grown;
    TruthfulApart(w, c);
    ResolveFaithful(w, c, {}, k);
    var (r, c') := Resolve(w, c, {}, k);
    GrownTransitive(w, {}, map[], Lift(c), Lift(c'));
    if r.Resolved? {
      var n: nat :| HasBy(w, {}, Lift(c), n, k, Worth(r.value));
      var m := GrownBack(w, {}, map[], Lift(c), n);
      assert HasBy(w, {}, map[], m, k, Worth(r.value));
    }
    forall x: i64 | Means(w, k, x)
      ensures r == Resolved(x)
    {
      MeantIsResolved(w, c, k, x, r);
    }
  }

  lemma MeantIsResolved(w: World, c: Cache, k: Key, x: i64, r: Found)
    requires Truthful(w, c) && Verdict(w, {}, Lift(c), k, r) && Means(w, k, x)
    ensures r == Resolved(x)
  {
    hide Rounds, Declared, Deciding, Lift, Grown;
    var m: nat :| HasBy(w, {}, map[], m, k, Worth(x));
    GrownForward(w, {}, map[], Lift(c), m);
    assert HasBy(w, {}, Lift(c), m, k, Worth(x));
    assert r.Resolved?;
    var n: nat :| HasBy(w, {}, Lift(c), n, k, Worth(r.value));
    FateUnique(w, {}, Lift(c), m, n, k, Worth(x), Worth(r.value));
  }

  /** The cache after looking members up one after the other. */
  function Lookups(w: World, c: Cache, keys: seq<Key>): Cache
    decreases keys
  {
    if keys == [] then c else Lookups(w, Resolve(w, c, {}, keys[0]).1, keys[1..])
  }

  lemma {:induction false} LookupsTruthful(w: World, c: Cache, keys: seq<Key>)
    requires Guarded(w) && Truthful(w, c)
    ensures Truthful(w, Lookups(w, c, keys))
    decreases keys
  {
    hide Guarded, Truthful, Resolve;
    if keys != [] {
      AnswersMean(w, c, keys[0]);
      LookupsTruthful(w, Resolve(w, c, {}, keys[0]).1, keys[1..]);
    }
  }

  lemma NothingCached(w: World)
    ensures Truthful(w, map[])
  {
    assert Lift(map[]) == map[];
    GrownNot(w, {}, map[]);
  }

  /** In a guarded world the order of lookups is of no consequence: after any of them every
      cached value and every answer is what a fresh resolution gives. */
  lemma OrderNeverMatters(w: World, before: seq<Key>, k: Key)
    requires Guarded(w)
    ensures var c := Lookups(w, map[], before);
            && (forall x: i64 :: Resolve(w, c, {}, k).0 == Resolved(x) <==> Resolve(w, map[], {}, k).0 == Resolved(x))
            && (forall m <- c :: Resolve(w, map[], {}, m).0 == Resolved(c[m]))
  {
    hide Guarded, Truthful, Resolve, Means;
    NothingCached(w);
    LookupsTruthful(w, map[], before);
    var c := Lookups(w, map[], before);
    AnswersMean(w, c, k);
    AnswersMean(w, map[], k);
    forall m <- c
      ensures Resolve(w, map[], {}, m).0 == Resolved(c[m])
    {
      AnswersMean(w, map[], m);
      CachedIsMeant(w, c, m);
    }
  }

  /** Every cached value is the declarative one. */
  lemma CachedIsMeant(w: World, c: Cache, k: Key)
    requires Truthful(w, c) && k in c
    ensures Means(w, k, c[k])
  {
    hide Rounds;
    var n: nat :| Within(Lift(c), Rounds(w, {}, map[], n));
    assert k in Lift(c);
    assert HasBy(w, {}, map[], n, k, Worth(c[k]));
  }

  /** An enumerator's own member is never left unresolved at the empty stack. */
  lemma DeclaredAnswer(w: World, c: Cache, t: string, i: nat)
    requires Guarded(w) && Truthful(w, c) && t in w.enums && i < |w.enums[t].list|
    ensures !Resolve(w, c, {}, Key(t, w.enums[t].list[i].name)).0.Unresolved?
  {
    hide Resolve, Guarded, Rounds;
    var k := Key(t, w.enums[t].list[i].name);
    TruthfulApart(w, c);
    ResolveFaithful(w, c, {}, k);
    assert w.enums[t].list[i] in w.enums[t].list;
    DeclaredInUniverse(w, k);
  }

  /** A carried answer, evaluated again, has no number, and nothing false is cached. */
  lemma CarriedIsDiagnosed(w: World, c: Cache, k: Key)
    requires Guarded(w) && Truthful(w, c) && Resolve(w, c, {}, k).0.Carried?
    ensures var (r, c') := Resolve(w, c, {}, k);
            var (v, c'') := Evaluate(w, c', {}, r.expr, {}, 0);
            !Number(v) && Truthful(w, c'')
  {
    hide Guarded, Rounds, Grown, Lift, Deciding, Declared;
    TruthfulApart(w, c);
    ResolveFaithful(w, c, {}, k);
    var (r, c') := Resolve(w, c, {}, k);
    NotCached(w, c, {}, k);
    hide Resolve, Evaluate;
    DecidingIsOwned(w, k);
    GrownApart(w, {}, c, c');
    EvaluateFaithful(w, c', {}, k, r.expr, {}, 0);
    var (v, c'') := Evaluate(w, c', {}, r.expr, {}, 0);
    FaithfulBefore(w, {}, Lift(c), Lift(c'), r.expr, {}, 0, v);
    CarriedNoNumber(w, {}, Lift(c), k, r.expr, {}, 0, v);
    GrownTransitive(w, {}, map[], Lift(c), Lift(c'));
    GrownTransitive(w, {}, map[], Lift(c'), Lift(c''));
  }

  // ----- rendering an enum -----

  type Discriminants = seq<(string, i64)>

  function Prefixed(done: Discriminants, rest: (Outcome<Discriminants>, Cache)): (Outcome<Discriminants>, Cache) {
    (if rest.0.Done? then Done(done + rest.0.value) else Fail, rest.1)
  }

  /** The discriminants `decl_enum` renders for the enumerators of `t` in `list`. */
  function Declare(w: World, c: Cache, t: string, list: seq<Enumerator>): (Outcome<Discriminants>, Cache)
    decreases list
  {
    if list == [] then (Done([]), c)
    else
      var (found, c1) := Resolve(w, c, {}, Key(t, list[0].name));
      match found
      case Unresolved => Declare(w, c1, t, list[1..])
      case Resolved(x) => Prefixed([(list[0].name, x)], Declare(w, c1, t, list[1..]))
      case Carried(e) =>
        var (v, c2) := Evaluate(w, c1, {}, e, {}, 0);
        if Number(v) then Prefixed([(list[0].name, ToI64(v.value).value)], Declare(w, c2, t, list[1..])) else (Fail, c2)
  }

  lemma PrefixedNone(rest: (Outcome<Discriminants>, Cache))
    ensures Prefixed([], rest) == rest
  {
    assert rest.0.Done? ==> [] + rest.0.value == rest.0.value;
  }

  lemma PrefixedNext(done: Discriminants, d: (string, i64), rest: (Outcome<Discriminants>, Cache))
    ensures Prefixed(done, Prefixed([d], rest)) == Prefixed(done + [d], rest)
  {
    assert rest.0.Done? ==> done + ([d] + rest.0.value) == done + [d] + rest.0.value;
  }

  ghost predicate Rendering(w: World, t: string, list: seq<Enumerator>, members: Discriminants) {
    && |members| == |list|
    && forall i :: 0 <= i < |list| ==> members[i].0 == list[i].name && Means(w, Key(t, list[i].name), members[i].1)
  }

  ghost predicate AllMeant(w: World, t: string, list: seq<Enumerator>) {
    forall i :: 0 <= i < |list| ==> HasMeaning(w, Key(t, list[i].name))
  }

  /** In a guarded world an enum renders exactly when each of its members has a value, and
      then to those values in order. */
  lemma {:induction false} DeclareMeans(w: World, c: Cache, t: string, from: nat)
    requires Guarded(w) && Truthful(w, c) && t in w.enums && from <= |w.enums[t].list|
    ensures var list := w.enums[t].list[from..];
            var (r, c') := Declare(w, c, t, list);
            && Truthful(w, c')
            && (r.Done? <==> AllMeant(w, t, list))
            && (r.Done? ==> Rendering(w, t, list, r.value))
    decreases |w.enums[t].list| - from
  {
    hide Guarded, Truthful, Means, Resolve, Evaluate, Declared;
    var list := w.enums[t].list[from..];
    if list != [] {
      assert list[0] == w.enums[t].list[from] && list[1..] == w.enums[t].list[from + 1..];
      var k := Key(t, list[0].name);
      AnswersMean(w, c, k);
      DeclaredAnswer(w, c, t, from);
      var (found, c1) := Resolve(w, c, {}, k);
      if found.Carried? {
        CarriedIsDiagnosed(w, c, k);
        assert !HasMeaning(w, Key(t, list[0].name));
      } else {
        DeclareMeans(w, c1, t, from + 1);
        assert Means(w, k, found.value);
        AllMeantCons(w, t, list);
      }
    }
  }

  lemma AllMeantCons(w: World, t: string, list: seq<Enumerator>)
    requires list != []
    ensures AllMeant(w, t, list) <==> HasMeaning(w, Key(t, list[0].name)) && AllMeant(w, t, list[1..])
  {
    hide HasMeaning;
    assert list == [list[0]] + list[1..];
  }
}
