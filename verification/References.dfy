/** Enum members inside expressions: every computing operator takes a member as the `long`
    literal of its value, so the number of an enumerator is the arithmetic of its expression. */
module References {
  import opened ConstExpr
  import opened Names
  import opened Folding
  import opened EnumMeaning
  import opened EnumResolution
  import Text
  import W = Wire

  // ----- one operator -----

  function AsLong(v: Value): Value {
    if v.Reference? then Int64(v.value) else v
  }

  /** Arithmetic, bit and shift operators do not tell a member from its `long` literal. */
  lemma ReferenceIsLong(op: BinaryOp, l: Value, r: Value)
    requires !Truth(op)
    ensures FoldBinary(op, l, r) == FoldBinary(op, AsLong(l), AsLong(r))
  {
    hide FoldBits, FoldShift, FoldArithmetic, Promoted;
    var p, p' := Promoted(l, r), Promoted(AsLong(l), AsLong(r));
    PromotedLong(l, r);
    BitsLong(op, l, r, p, p');
    ShiftLong(op, l, r, p, p');
    ArithmeticLong(op, l, r, p, p');
  }

  lemma PromotedLong(l: Value, r: Value)
    ensures Promoted(l, r).Int32? == Promoted(AsLong(l), AsLong(r)).Int32?
    ensures Promoted(l, r).Int32? ==> AsLong(l) == l && AsLong(r) == r && Promoted(l, r) == Promoted(AsLong(l), AsLong(r))
  {
  }

  lemma BitsLong(op: BinaryOp, l: Value, r: Value, p: Value, p': Value)
    requires (p.Int32? || p.Int64? || p.Reference?) && (p'.Int32? || p'.Int64? || p'.Reference?) && p.Int32? == p'.Int32?
    ensures FoldBits(op, l, r, p) == FoldBits(op, AsLong(l), AsLong(r), p')
  {
    hide BitOp, Wrap64, W.Wrap32;
  }

  lemma ShiftLong(op: BinaryOp, l: Value, r: Value, p: Value, p': Value)
    requires (p.Int32? || p.Int64? || p.Reference?) && (p'.Int32? || p'.Int64? || p'.Reference?) && p.Int32? == p'.Int32?
    ensures FoldShift(op, l, r, p) == FoldShift(op, AsLong(l), AsLong(r), p')
  {
    hide LeadingZeros, Pow2, Wrap64, W.Wrap32;
  }

  lemma ArithmeticLong(op: BinaryOp, l: Value, r: Value, p: Value, p': Value)
    requires (p.Int32? || p.Int64? || p.Reference?) && (p'.Int32? || p'.Int64? || p'.Reference?) && p.Int32? == p'.Int32?
    requires p.Int32? ==> AsLong(l) == l && AsLong(r) == r && p' == p
    ensures FoldArithmetic(op, l, r, p) == FoldArithmetic(op, AsLong(l), AsLong(r), p')
  {
    hide CheckedI64;
    if !p.Int32? {
      WideValue(l, p);
      WideValue(r, p);
      WideValue(AsLong(l), p');
      WideValue(AsLong(r), p');
      hide ConvertTo;
    }
  }

  /** Widening to `long`, or to a member, keeps the number there is. */
  lemma WideValue(v: Value, p: Value)
    requires p.Int64? || p.Reference?
    ensures ToI64(AsLong(v)) == ToI64(v)
    ensures match ConvertTo(v, p) case Done(v') => ToI64(v') == ToI64(v) case Fail => ToI64(v) == Fail
  {
  }

  /** The other operators do: no unary operator but plus takes a member, a logical operator
      takes one only where it need not look, and a comparison with a member on the left is
      never true, except that they differ. */
  lemma ReferenceElsewhere(text: string, n: i64, op: BinaryOp, uop: UnaryOp, k: Kind, a: int, r: Value)
    requires InRange(k, a)
    ensures FoldUnary(uop, Reference(text, n)) == if uop.Plus? then Done(Reference(text, n)) else Fail
    ensures op.LogicOr? || op.LogicAnd? ==>
              && FoldBinary(op, Reference(text, n), r) == Fail
              && FoldBinary(op, Literal(k, a), Reference(text, n)) == if op.LogicOr? <==> a != 0 then Done(Bool(op.LogicOr?)) else Fail
    ensures Truth(op) && !op.LogicOr? && !op.LogicAnd? ==> FoldBinary(op, Reference(text, n), r) == Done(Bool(op.Ne?))
  {
    hide FoldBits, FoldShift, FoldArithmetic, Literal;
    LiteralValue(k, a);
  }

  /** A number on the left is compared with the member's value reduced to the number's own
      width, which is exact for a `long`; a truth value differs from every member. */
  lemma CompareWithReference(text: string, n: i64, op: BinaryOp, k: Kind, a: int, m: int)
    requires InRange(k, a) && Truth(op) && !op.LogicOr? && !op.LogicAnd?
    requires InRange(k, m) && (n - m) % (High(k) - Low(k) + 1) == 0
    ensures FoldBinary(op, Literal(k, a), Reference(text, n)) ==
            Done(Bool(if k.BoolK? then op.Ne? else Apply(op, BoolK, a, m) == 1))
  {
    hide FoldCompare;
    var p := Promoted(Literal(k, a), Reference(text, n));
    Reduced(k, n, m);
    CompareReduced(text, n, op, k, a, m, p);
  }

  lemma Reduced(k: Kind, n: i64, m: int)
    requires InRange(k, m) && (n - m) % (High(k) - Low(k) + 1) == 0
    ensures k.ByteK? ==> (n + 0x80) % 0x100 - 0x80 == m
    ensures k.Int32K? ==> W.Wrap32(n) == m
    ensures k.Int64K? ==> n == m
  {
    match k
    case ByteK => ReducedByte(n, m);
    case Int32K => ReducedInt(n, m);
    case Int64K => ReducedLong(n, m);
    case BoolK =>
  }

  lemma ReducedByte(n: int, m: int)
    requires I8_MIN <= m <= I8_MAX && (n - m) % 0x100 == 0
    ensures (n + 0x80) % 0x100 - 0x80 == m
  {
  }

  lemma ReducedInt(n: int, m: int)
    requires W.I32_MIN <= m <= W.I32_MAX && (n - m) % 0x1_0000_0000 == 0
    ensures W.Wrap32(n) == m
  {
  }

  lemma ReducedLong(n: i64, m: i64)
    requires (n - m) % 0x1_0000_0000_0000_0000 == 0
    ensures n == m
  {
  }

  lemma CompareReduced(text: string, n: i64, op: BinaryOp, k: Kind, a: int, m: int, p: Value)
    requires InRange(k, a) && Truth(op) && !op.LogicOr? && !op.LogicAnd? && p.Reference?
    requires k.ByteK? ==> (n + 0x80) % 0x100 - 0x80 == m
    requires k.Int32K? ==> W.Wrap32(n) == m
    requires k.Int64K? ==> n == m
    ensures FoldCompare(op, Literal(k, a), Reference(text, n), p) ==
            Done(Bool(if k.BoolK? then op.Ne? else Apply(op, BoolK, a, m) == 1))
  {
    hide W.Wrap32;
  }

  /** An unresolved name is compared with a member as text; it has no number for anything else. */
  lemma CompareUnresolved(name: string, text: string, n: i64, op: BinaryOp)
    requires Truth(op) && !op.LogicOr? && !op.LogicAnd?
    ensures FoldBinary(op, Name(name), Reference(text, n)) ==
            Done(Bool(match op
                      case Eq => name == text
                      case Ne => name != text
                      case Le => name == text || Text.LexLe(name, text)
                      case Lt => name != text && Text.LexLe(name, text)
                      case Ge => name == text || !Text.LexLe(name, text)
                      case _ => name != text && !Text.LexLe(name, text)))
  {
  }

  /** A member converts to every integral kind its value fits, and to no boolean. */
  lemma NarrowingReference(text: string, n: i64, target: Kind)
    ensures ConvertTo(Reference(text, n), Literal(target, 0)) ==
            if !target.BoolK? && InRange(target, n) then Done(Literal(target, n)) else Fail
  {
  }

  // ----- trees -----

  /** Members stand only where a computing operator, or nothing, takes them. */
  predicate OnlyComputes(t: Expr) {
    match t
    case Unary(op, a) => OnlyComputes(a) && (ReferenceLike(a) ==> op.Plus?)
    case Binary(l, op, r) => OnlyComputes(l) && OnlyComputes(r) && (Truth(op) ==> !ReferenceLike(l) && !ReferenceLike(r))
    case _ => true
  }

  /** The tree with every member replaced by its literal. */
  function Longs(t: Expr): Expr {
    match t
    case Unary(op, a) => Unary(op, Longs(a))
    case Binary(l, op, r) => Binary(Longs(l), op, Longs(r))
    case Reference(_, n) => Int64(n)
    case _ => t
  }

  lemma {:induction false} FoldLongs(t: Expr)
    requires Refs(t) == {} && OnlyComputes(t)
    ensures Plain(Longs(t))
    ensures Fold(Longs(t)) == match Fold(t) case Done(v) => Done(AsLong(v)) case Fail => Fail
    ensures Fold(t).Done? && Fold(t).value.Reference? ==> ReferenceLike(t)
  {
    hide FoldBinary, FoldUnary;
    match t
    case Unary(op, a) =>
      FoldLongs(a);
      if Fold(a).Done? {
        UnaryLong(op, Fold(a).value);
        assert FoldUnary(op, AsLong(Fold(a).value)) == match FoldUnary(op, Fold(a).value) case Done(v) => Done(AsLong(v)) case Fail => Fail;
      }
    case Binary(l, op, r) =>
      FoldLongs(l);
      FoldLongs(r);
      if Fold(l).Done? && Fold(r).Done? && !Truth(op) {
        ReferenceIsLong(op, Fold(l).value, Fold(r).value);
      }
    case _ =>
  }

  lemma UnaryLong(op: UnaryOp, v: Value)
    ensures FoldUnary(op, v).Done? && FoldUnary(op, v).value.Reference? ==> op.Plus? && v.Reference?
    ensures v.Reference? ==> FoldUnary(Plus, v) == Done(v) && FoldUnary(Plus, AsLong(v)) == Done(AsLong(v))
  {
  }

  /** A tree that only computes with members has the mathematical value of its literals, and
      fails exactly when some step of that arithmetic has no result. */
  lemma ReferencesExact(t: Expr)
    requires Refs(t) == {} && OnlyComputes(t)
    ensures Safe(Longs(t)) ==> InRange(KindOf(Longs(t)), Meaning(Longs(t)))
    ensures match Fold(t)
            case Done(v) => Safe(Longs(t)) && AsLong(v) == Literal(KindOf(Longs(t)), Meaning(Longs(t)))
            case Fail => !Safe(Longs(t))
  {
    hide Fold, Safe, Literal, InRange, Meaning;
    FoldLongs(t);
    ExactFolding(Longs(t));
  }

  // ----- enumerators -----

  /** An expression over members, with the number of each in its place. */
  function Numbers(e: Expr, x: map<string, i64>): Expr {
    match e
    case Unary(op, a) => Unary(op, Numbers(a, x))
    case Binary(l, op, r) => Binary(Numbers(l, x), op, Numbers(r, x))
    case Name(n) => if n in x then Int64(x[n]) else e
    case Reference(_, n) => Int64(n)
    case _ => e
  }

  /** How deep the evaluator goes: a member is one level below the place it is used. */
  function Reach(e: Expr): nat {
    match e
    case Unary(_, a) => 1 + Reach(a)
    case Binary(l, _, r) => 1 + if Reach(l) > Reach(r) then Reach(l) else Reach(r)
    case Name(_) => 1
    case _ => 0
  }

  /** Every name in `e` denotes a member worth the given number. */
  ghost predicate Priced(w: World, v: Fates, x: map<string, i64>, e: Expr) {
    forall n <- Refs(e) ::
      n in x && n in w.names && Declared(w, w.names[n]) && w.names[n] in v && v[w.names[n]] == Worth(x[n])
  }

  ghost function Referring(w: World, e: Expr, x: map<string, i64>): Expr {
    match e
    case Unary(op, a) => Unary(op, Referring(w, a, x))
    case Binary(l, op, r) => Binary(Referring(w, l, x), op, Referring(w, r, x))
    case Name(n) =>
      if n in x && n in w.names && Declared(w, w.names[n]) then Reference(Rendered(w, w.names[n]), x[n]) else e
    case _ => e
  }

  lemma {:induction false} InlineReferring(w: World, v: Fates, x: map<string, i64>, e: Expr, m: nat)
    requires Priced(w, v, x, e)
    ensures Inline(EnvOf(w, v), e, m) == if Reach(e) <= m then Done(Referring(w, e, x)) else Fail
    decreases e
  {
    hide Declared, Rendered;
    match e
    case Unary(_, a) =>
      if m > 0 {
        InlineReferring(w, v, x, a, m - 1);
      }
    case Binary(l, _, r) =>
      if m > 0 {
        InlineReferring(w, v, x, l, m - 1);
        InlineReferring(w, v, x, r, m - 1);
      }
    case _ =>
  }

  lemma {:induction false} ReferringShape(w: World, v: Fates, x: map<string, i64>, e: Expr)
    requires Priced(w, v, x, e)
    ensures Refs(Referring(w, e, x)) == {} && Longs(Referring(w, e, x)) == Numbers(e, x)
    ensures ReferenceLike(Referring(w, e, x)) == ReferenceLike(e) && OnlyComputes(Referring(w, e, x)) == OnlyComputes(e)
    decreases e
  {
    hide Declared, Rendered;
    match e
    case Unary(_, a) => ReferringShape(w, v, x, a);
    case Binary(l, _, r) =>
      ReferringShape(w, v, x, l);
      ReferringShape(w, v, x, r);
    case _ =>
  }

  /** The fate of a member decided by an expression over members that all have numbers. */
  lemma DecideExact(w: World, v: Fates, x: map<string, i64>, k: Key)
    requires Declared(w, k) && Deciding(w, k).Some?
    requires Priced(w, v, x, Deciding(w, k).value) && OnlyComputes(Deciding(w, k).value)
    ensures var t := Numbers(Deciding(w, k).value, x);
            Decide(w, v, k) == W.Some(if Safe(t) && Reach(Deciding(w, k).value) <= MAX_EXPR_DEPTH
                                      then Worth(Wrap64(Meaning(t) + Distance(w, k))) else Dead)
  {
    hide Declared, Deciding, Distance, Safe, Meaning, Fold, Inline, OnlyComputes, Calculate, EnvOf, Wrap64;
    var e := Deciding(w, k).value;
    var env := EnvOf(w, v);
    InlineReferring(w, v, x, e, MAX_EXPR_DEPTH);
    ReferringShape(w, v, x, e);
    NamesAsIfInlined(env, e);
    if Reach(e) <= MAX_EXPR_DEPTH {
      ReferencesExact(Referring(w, e, x));
      LiteralNumber(KindOf(Numbers(e, x)), Meaning(Numbers(e, x)));
    }
  }

  lemma LiteralNumber(k: Kind, n: int)
    ensures InRange(k, n) ==>
              forall v: Value :: AsLong(v) == Literal(k, n) ==> !v.Name? && ToI64(v) == Done(n)
  {
  }

  /** `k` is enumerator `i` of its enum, and `j` the last one up to it with an expression. */
  ghost predicate Located(w: World, k: Key, i: nat, j: nat) {
    && k.enum in w.enums
    && var list := w.enums[k.enum].list;
    && j <= i < |list| && list[i].name == k.member && (forall m :: 0 <= m < i ==> list[m].name != k.member)
    && list[j].expr.Some? && (forall m :: j < m <= i ==> list[m].expr.None?)
  }

  lemma LocatedDecides(w: World, k: Key, i: nat, j: nat)
    requires Located(w, k, i, j)
    ensures Declared(w, k) && Deciding(w, k).Some? && Deciding(w, k) == w.enums[k.enum].list[j].expr && Distance(w, k) == i - j
  {
    var list := w.enums[k.enum].list;
    assert list[Place(w, k)].name == k.member;
    assert Place(w, k) == i;
  }

  /** All of these members have their numbers by some round. */
  lemma {:induction false} PricedBy(w: World, x: map<string, i64>, names: set<string>) returns (n: nat)
    requires forall a <- names :: a in x && a in w.names && Means(w, w.names[a], x[a])
    ensures forall a <- names :: HasBy(w, {}, map[], n, w.names[a], Worth(x[a]))
    decreases names
  {
    hide Rounds;
    if names == {} {
      n := 0;
    } else {
      var a :| a in names;
      var m := PricedBy(w, x, names - {a});
      var i: nat :| HasBy(w, {}, map[], i, w.names[a], Worth(x[a]));
      n := if m < i then i else m;
      RoundsMonotone(w, {}, {}, map[], m, n);
      RoundsMonotone(w, {}, {}, map[], i, n);
    }
  }

  /** What an enumerator is numbered: over members `x` that mean what they mean, enumerator `i`
      is worth the mathematical value of the last expression up to it plus the distance, as a
      wrapping `long`, and has no value exactly when that arithmetic has none. */
  lemma NumberedExactly(w: World, k: Key, i: nat, j: nat, x: map<string, i64>, value: i64)
    requires Located(w, k, i, j) && OnlyComputes(w.enums[k.enum].list[j].expr.value)
    requires forall n <- Refs(w.enums[k.enum].list[j].expr.value) :: n in x && n in w.names && Means(w, w.names[n], x[n])
    ensures var e := w.enums[k.enum].list[j].expr.value;
            Means(w, k, value) <==>
            Safe(Numbers(e, x)) && Reach(e) <= MAX_EXPR_DEPTH && value == Wrap64(Meaning(Numbers(e, x)) + (i - j))
  {
    hide Rounds, Safe, Meaning, Decide, Declared, Deciding, Distance, OnlyComputes, Located, Wrap64;
    LocatedDecides(w, k, i, j);
    var e := Deciding(w, k).value;
    MeaningUnfolds(w, k, value);
    var top := PricedBy(w, x, Refs(e));
    AllDeclared(w, x, Refs(e), top);
    DecideExact(w, Rounds(w, {}, map[], top), x, k);
    if n: nat :| Decide(w, Rounds(w, {}, map[], n), k) == W.Some(Worth(value)) {
      SamePrices(w, x, k, n, top);
      DecideExact(w, Rounds(w, {}, map[], n), x, k);
    }
  }

  lemma AllDeclared(w: World, x: map<string, i64>, names: set<string>, n: nat)
    requires forall a <- names :: a in x && a in w.names && HasBy(w, {}, map[], n, w.names[a], Worth(x[a]))
    ensures forall a <- names :: Declared(w, w.names[a])
  {
    hide Rounds, Declared;
    forall a <- names
      ensures Declared(w, w.names[a])
    {
      BannedStayOut(w, {}, map[], n, w.names[a]);
    }
  }

  /** At a round that decides `k`, the members it needs have the numbers they mean. */
  lemma SamePrices(w: World, x: map<string, i64>, k: Key, n: nat, top: nat)
    requires Declared(w, k) && Deciding(w, k).Some?
    requires forall a <- Refs(Deciding(w, k).value) ::
      a in x && a in w.names && Declared(w, w.names[a]) && HasBy(w, {}, map[], top, w.names[a], Worth(x[a]))
    requires Decide(w, Rounds(w, {}, map[], n), k).Some?
    ensures Priced(w, Rounds(w, {}, map[], n), x, Deciding(w, k).value)
  {
    hide Rounds, Declared, Deciding, ValueAt;
    var v := Rounds(w, {}, map[], n);
    forall a <- Refs(Deciding(w, k).value)
      ensures w.names[a] in v && v[w.names[a]] == Worth(x[a])
    {
      FateUnique(w, {}, map[], n, top, w.names[a], v[w.names[a]], Worth(x[a]));
    }
  }

  /** With no expression before it, an enumerator is worth its position. */
  lemma NumberedByPosition(w: World, k: Key, i: nat, value: i64)
    requires k.enum in w.enums && i < |w.enums[k.enum].list| && w.enums[k.enum].list[i].name == k.member
    requires forall m :: 0 <= m < i ==> w.enums[k.enum].list[m].name != k.member
    requires forall m :: 0 <= m <= i ==> w.enums[k.enum].list[m].expr.None?
    ensures Means(w, k, value) <==> value == Wrap64(i)
  {
    hide Rounds, Decide;
    MeaningUnfolds(w, k, value);
    forall v: Fates
      ensures Decide(w, v, k) == W.Some(Worth(Wrap64(i)))
    {
      DecideByPosition(w, v, k, i);
    }
    if value == Wrap64(i) {
      assert Decide(w, Rounds(w, {}, map[], 0), k) == W.Some(Worth(value));
    }
  }

  lemma DecideByPosition(w: World, v: Fates, k: Key, i: nat)
    requires k.enum in w.enums && i < |w.enums[k.enum].list| && w.enums[k.enum].list[i].name == k.member
    requires forall m :: 0 <= m < i ==> w.enums[k.enum].list[m].name != k.member
    requires forall m :: 0 <= m <= i ==> w.enums[k.enum].list[m].expr.None?
    ensures Decide(w, v, k) == W.Some(Worth(Wrap64(i)))
  {
    hide Wrap64;
    assert w.enums[k.enum].list[Place(w, k)].name == k.member;
    assert Place(w, k) == i;
    assert LastExplicit(w.enums[k.enum].list, i + 1) < 0;
  }

  /** The discriminant rendered for enumerator `i` of a guarded set of enums is that number. */
  lemma RenderedExactly(w: World, c: Cache, k: Key, i: nat, j: nat, x: map<string, i64>)
    requires Guarded(w) && Truthful(w, c) && Located(w, k, i, j) && OnlyComputes(w.enums[k.enum].list[j].expr.value)
    requires forall n <- Refs(w.enums[k.enum].list[j].expr.value) :: n in x && n in w.names && Means(w, w.names[n], x[n])
    ensures var list := w.enums[k.enum].list;
            match Declare(w, c, k.enum, list).0
            case Done(rendered) =>
              && Safe(Numbers(list[j].expr.value, x))
              && |rendered| == |list|
              && rendered[i] == (k.member, Wrap64(Meaning(Numbers(list[j].expr.value, x)) + (i - j)))
            case Fail => exists m <- list :: !HasMeaning(w, Key(k.enum, m.name))
  {
    hide Guarded, Truthful, Means, Declare, Safe, Meaning, OnlyComputes, Wrap64;
    var list := w.enums[k.enum].list;
    assert list[0..] == list;
    DeclareMeans(w, c, k.enum, 0);
    var r := Declare(w, c, k.enum, list).0;
    if r.Done? {
      assert Key(k.enum, list[i].name) == k;
      NumberedExactly(w, k, i, j, x, r.value[i].1);
    }
  }
}
