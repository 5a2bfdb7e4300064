/** Exact folding: over the integral kinds the folder returns the mathematical
    result in the promoted type, or an error exactly when some step has none. */
module Folding {
  import opened ConstExpr
  import opened Names
  import opened Wire

  datatype Kind = BoolK | ByteK | Int32K | Int64K

  /** Trees without names and enum references. */
  predicate Plain(t: Expr) {
    match t
    case Unary(_, a) => Plain(a)
    case Binary(l, _, r) => Plain(l) && Plain(r)
    case Name(_) => false
    case Reference(_, _) => false
    case _ => true
  }

  /** The static kind of a tree: comparisons are boolean, arithmetic widens to `int`, or
      to `long` when either operand is one. */
  function KindOf(t: Expr): Kind {
    match t
    case Bool(_) => BoolK
    case Byte(_) => ByteK
    case Int32(_) => Int32K
    case Int64(_) => Int64K
    case Unary(op, a) => if op.LogicNot? then BoolK else KindOf(a)
    case Binary(l, op, r) =>
      if Truth(op) then BoolK else if KindOf(l).Int64K? || KindOf(r).Int64K? then Int64K else Int32K
    case _ => BoolK
  }

  function Low(k: Kind): int {
    match k
    case BoolK => 0
    case ByteK => I8_MIN
    case Int32K => I32_MIN
    case Int64K => I64_MIN
  }

  function High(k: Kind): int {
    match k
    case BoolK => 1
    case ByteK => I8_MAX
    case Int32K => I32_MAX
    case Int64K => I64_MAX
  }

  predicate InRange(k: Kind, n: int) {
    Low(k) <= n <= High(k)
  }

  function Width(k: Kind): nat {
    if k.Int64K? then 64 else 32
  }

  function Bit(b: bool): int {
    if b then 1 else 0
  }

  /** The two's-complement reading of an unsigned number at a width. */
  function Signed(k: Kind, n: int): int {
    if n > High(k) then n - Pow2(Width(k)) else n
  }

  /** The shift as written: a negative amount shifts the other way. */
  predicate ShiftsLeft(op: BinaryOp, amount: int) {
    op.Shl? <==> amount >= 0
  }

  function Abs(n: int): (r: int)
    ensures r >= 0
  {
    if n < 0 then -n else n
  }

  /** The mathematical meaning of one operator on exact operands. */
  function Apply(op: BinaryOp, k: Kind, a: int, b: int): int {
    match op
    case LogicOr => Bit(a != 0 || b != 0)
    case LogicAnd => Bit(a != 0 && b != 0)
    case Eq => Bit(a == b)
    case Ne => Bit(a != b)
    case Le => Bit(a <= b)
    case Ge => Bit(a >= b)
    case Lt => Bit(a < b)
    case Gt => Bit(a > b)
    case BitOr | BitXor | BitAnd => BitOp(op, 64, a, b)
    case Shl | Shr =>
      if a < 0 then 0
      else if ShiftsLeft(op, b) then Signed(k, a * Pow2(Abs(b))) else a / Pow2(Abs(b))
    case Add => a + b
    case Sub => a - b
    case Mul => a * b
    case Div => if b == 0 then 0 else TruncDiv(a, b)
    case Rem => if b == 0 then 0 else TruncRem(a, b)
  }

  /** When one operator has a result in its promoted kind. */
  predicate Defined(op: BinaryOp, k: Kind, a: int, b: int) {
    match op
    case Add | Sub | Mul => InRange(k, Apply(op, k, a, b))
    case Div => b != 0 && InRange(k, Apply(op, k, a, b))
    case Rem => b != 0 && !(a == Low(k) && b == -1)
    case Shl | Shr =>
      a >= 0 && Abs(b) < Width(k) && (ShiftsLeft(op, b) ==> a * Pow2(Abs(b)) < Pow2(Width(k)))
    case _ => true
  }

  function Meaning(t: Expr): int {
    match t
    case Bool(b) => Bit(b)
    case Byte(n) => n
    case Int32(n) => n
    case Int64(n) => n
    case Unary(op, a) =>
      (match op
       case Minus => if KindOf(a).BoolK? then Meaning(a) else -Meaning(a)
       case Complement => if KindOf(a).BoolK? then 1 - Meaning(a) else -1 - Meaning(a)
       case LogicNot => Bit(Meaning(a) == 0)
       case Plus => Meaning(a))
    case Binary(l, op, r) => Apply(op, KindOf(t), Meaning(l), Meaning(r))
    case _ => 0
  }

  /** Every step of the evaluation has a result. */
  predicate Safe(t: Expr) {
    match t
    case Unary(op, a) => Safe(a) && (op.Minus? && !KindOf(a).BoolK? ==> InRange(KindOf(a), -Meaning(a)))
    case Binary(l, op, r) => Safe(l) && Safe(r) && Defined(op, KindOf(t), Meaning(l), Meaning(r))
    case _ => true
  }

  function Literal(k: Kind, n: int): (v: Value)
    requires InRange(k, n)
  {
    match k
    case BoolK => Bool(n == 1)
    case ByteK => Byte(n)
    case Int32K => Int32(n)
    case Int64K => Int64(n)
  }

  // ----- bits -----

  lemma {:induction false} BitOpRange(op: BinaryOp, width: nat, x: int, y: int)
    requires width > 0
    ensures -Pow2(width - 1) <= BitOp(op, width, x, y) < Pow2(width - 1)
    decreases width
  {
    if width > 1 {
      BitOpRange(op, width - 1, x / 2, y / 2);
    }
  }

  /** Sign bits above the operands' own width only repeat: a narrower word gives the same. */
  lemma {:induction false} BitOpNarrow(op: BinaryOp, narrow: nat, wide: nat, x: int, y: int)
    requires 0 < narrow <= wide
    requires -Pow2(narrow - 1) <= x < Pow2(narrow - 1) && -Pow2(narrow - 1) <= y < Pow2(narrow - 1)
    ensures BitOp(op, wide, x, y) == BitOp(op, narrow, x, y)
    decreases wide
  {
    if narrow > 1 {
      BitOpNarrow(op, narrow - 1, wide - 1, x / 2, y / 2);
    } else if wide > 1 {
      BitOpNarrow(op, 1, wide - 1, x / 2, y / 2);
      assert x / 2 == x && y / 2 == y;
    }
  }

  /** Bit `i` of a number in two's complement. */
  function BitAt(x: int, i: nat): bool
    decreases i
  {
    if i == 0 then x % 2 == 1 else BitAt(x / 2, i - 1)
  }

  lemma {:induction false} BitByBit(op: BinaryOp, width: nat, x: int, y: int, i: nat)
    requires i < width
    ensures BitAt(BitOp(op, width, x, y), i) == CombineBits(op, BitAt(x, i), BitAt(y, i))
    decreases i
  {
    hide CombineBits;
    if i > 0 {
      BitByBit(op, width - 1, x / 2, y / 2, i - 1);
      assert BitOp(op, width, x, y) / 2 == BitOp(op, width - 1, x / 2, y / 2);
    }
  }

  /** `|`, `^` and `&` act on each bit of the operands separately. */
  lemma BitwiseExact(op: BinaryOp, width: nat, x: int, y: int, i: nat)
    requires i < width && (op.BitOr? || op.BitXor? || op.BitAnd?)
    ensures BitAt(BitOp(op, width, x, y), i) ==
            match op
            case BitOr => BitAt(x, i) || BitAt(y, i)
            case BitXor => BitAt(x, i) != BitAt(y, i)
            case _ => BitAt(x, i) && BitAt(y, i)
  {
    hide BitAt, BitOp;
    BitByBit(op, width, x, y, i);
  }

  lemma Pow2Byte()
    ensures Pow2(8) == 256
  {
    assert Pow2(4) == 16;
  }

  lemma Pow2Double(n: nat)
    ensures Pow2(n + 1) == 2 * Pow2(n)
  {
  }

  lemma Powers()
    ensures Pow2(31) == 0x8000_0000 && Pow2(32) == 0x1_0000_0000
    ensures Pow2(63) == 0x8000_0000_0000_0000 && Pow2(64) == 0x1_0000_0000_0000_0000
  {
    Pow2Byte();
    hide Pow2;
    Pow2Add(8, 8);
    Pow2Add(16, 16);
    Pow2Add(32, 32);
    Pow2Double(31);
    Pow2Double(63);
  }

  lemma {:induction false} Pow2Add(m: nat, n: nat)
    ensures Pow2(m + n) == Pow2(m) * Pow2(n)
    decreases m
  {
    if m > 0 {
      Pow2Add(m - 1, n);
    }
  }

  lemma Pow2Monotone(m: nat, n: nat)
    requires m <= n
    ensures Pow2(m) <= Pow2(n)
  {
    Pow2Add(m, n - m);
    assert Pow2(n) == Pow2(m) * Pow2(n - m);
    assert Pow2(m) * 1 <= Pow2(m) * Pow2(n - m);
  }

  lemma {:induction false} BitLengthBounds(v: nat)
    requires v > 0
    ensures BitLength(v) > 0 && Pow2(BitLength(v) - 1) <= v < Pow2(BitLength(v))
  {
    if v > 1 {
      BitLengthBounds(v / 2);
    }
  }

  lemma MulLess(a: int, b: int, c: int)
    requires c > 0
    ensures a < b ==> a * c < b * c
    ensures a <= b ==> a * c <= b * c
  {
  }

  /** The leading-zero test says exactly whether the shifted number still fits the word. */
  lemma FitsIff(v: nat, amount: nat, width: nat)
    requires amount < width
    ensures amount <= LeadingZeros(v, width) <==> v * Pow2(amount) < Pow2(width)
  {
    hide Pow2, BitLength;
    assert BitLength(0) == 0 by { ZeroLength(); }
    var p := Pow2(amount);
    if v == 0 {
      assert v * p == 0;
    } else {
      var b := BitLength(v);
      BitLengthBounds(v);
      if amount + b <= width {
        Pow2Add(b, amount);
        Pow2Monotone(b + amount, width);
        MulLess(v, Pow2(b), p);
      } else {
        Pow2Add(b - 1, amount);
        Pow2Monotone(width, b - 1 + amount);
        MulLess(Pow2(b - 1), v, p);
      }
    }
  }

  lemma ZeroLength()
    ensures BitLength(0) == 0
  {
  }

  // ----- one operator -----

  /** What folding a binary operator on exact operands must return. */
  ghost predicate Exact(op: BinaryOp, l: Kind, a: int, r: Kind, b: int)
    requires InRange(l, a) && InRange(r, b)
  {
    var k := ResultKind(op, l, r);
    FoldBinary(op, Literal(l, a), Literal(r, b)) ==
    if Defined(op, k, a, b) && InRange(k, Apply(op, k, a, b)) then Done(Literal(k, Apply(op, k, a, b))) else Fail
  }

  function ResultKind(op: BinaryOp, l: Kind, r: Kind): Kind {
    if Truth(op) then BoolK else if l.Int64K? || r.Int64K? then Int64K else Int32K
  }

  lemma PromotedKind(l: Kind, a: int, r: Kind, b: int)
    requires InRange(l, a) && InRange(r, b)
    ensures var p := Promoted(Literal(l, a), Literal(r, b));
            p.Int64? == (l.Int64K? || r.Int64K?) && p.Int32? == !(l.Int64K? || r.Int64K?)
  {
  }

  lemma LiteralValue(k: Kind, n: int)
    requires InRange(k, n)
    ensures ToI64(Literal(k, n)) == Done(n) && ToBool(Literal(k, n)) == Done(n != 0)
  {
  }

  /** Widening a literal to the promoted kind keeps its value. */
  lemma Widen(k: Kind, n: int, p: Value)
    requires InRange(k, n) && (p.Int64? || (p.Int32? && !k.Int64K?))
    ensures ConvertTo(Literal(k, n), p) == Done(if p.Int64? then Int64(n) else Int32(n))
  {
  }

  lemma WrapSmall(n: int)
    ensures I32_MIN <= n <= I32_MAX ==> Wrap32(n) == n
    ensures I64_MIN <= n <= I64_MAX ==> Wrap64(n) == n
  {
  }

  lemma LogicExact(op: BinaryOp, l: Kind, a: int, r: Kind, b: int)
    requires InRange(l, a) && InRange(r, b) && (op.LogicOr? || op.LogicAnd?)
    ensures Exact(op, l, a, r, b) && Defined(op, BoolK, a, b) && InRange(BoolK, Apply(op, BoolK, a, b))
  {
    hide Promoted, Literal, ToI64, ToBool, FoldArithmetic, FoldBits, FoldCompare, FoldShift;
    LiteralValue(l, a);
    LiteralValue(r, b);
    TruthLiterals();
  }

  lemma CompareExact(op: BinaryOp, l: Kind, a: int, r: Kind, b: int)
    requires InRange(l, a) && InRange(r, b) && Truth(op) && !op.LogicOr? && !op.LogicAnd?
    ensures Exact(op, l, a, r, b) && Defined(op, BoolK, a, b) && InRange(BoolK, Apply(op, BoolK, a, b))
  {
    hide Promoted, Literal, FoldArithmetic, FoldCompare, FoldBits, FoldShift;
    PromotedKind(l, a, r, b);
    CompareFold(op, l, a, r, b, Promoted(Literal(l, a), Literal(r, b)));
    TruthLiterals();
  }

  lemma CompareFold(op: BinaryOp, l: Kind, a: int, r: Kind, b: int, p: Value)
    requires InRange(l, a) && InRange(r, b) && Truth(op) && !op.LogicOr? && !op.LogicAnd?
    requires p.Int64? || (p.Int32? && !l.Int64K? && !r.Int64K?)
    ensures FoldCompare(op, Literal(l, a), Literal(r, b), p) == Done(Bool(Apply(op, BoolK, a, b) == 1))
  {
    hide ConvertTo, Literal, Wrap32;
    Widen(l, a, p);
    Widen(r, b, p);
    WrapSmall(b);
  }

  lemma TruthLiterals()
    ensures Literal(BoolK, 0) == Bool(false) && Literal(BoolK, 1) == Bool(true)
  {
  }

  lemma BitsExact(op: BinaryOp, l: Kind, a: int, r: Kind, b: int)
    requires InRange(l, a) && InRange(r, b) && (op.BitOr? || op.BitXor? || op.BitAnd?)
    ensures Exact(op, l, a, r, b)
    ensures var k := ResultKind(op, l, r); Defined(op, k, a, b) && InRange(k, Apply(op, k, a, b))
  {
    hide Promoted, Literal, FoldArithmetic, FoldBits, FoldCompare, FoldShift, BitOp;
    PromotedKind(l, a, r, b);
    BitsFold(op, l, a, r, b, Promoted(Literal(l, a), Literal(r, b)));
    IntLiterals(op, l, a, r, b);
  }

  lemma BitsFold(op: BinaryOp, l: Kind, a: int, r: Kind, b: int, p: Value)
    requires InRange(l, a) && InRange(r, b) && (op.BitOr? || op.BitXor? || op.BitAnd?)
    requires p.Int64? == (l.Int64K? || r.Int64K?) && p.Int32? == !p.Int64?
    ensures var n := BitOp(op, 64, a, b);
            && InRange(if p.Int64? then Int64K else Int32K, n)
            && FoldBits(op, Literal(l, a), Literal(r, b), p) == Done(if p.Int64? then Int64(n) else Int32(n))
  {
    hide Literal, ToI64, BitOp, Wrap32, Wrap64, Pow2;
    LiteralValue(l, a);
    LiteralValue(r, b);
    Powers();
    BitOpRange(op, 64, a, b);
    if p.Int32? {
      BitOpNarrow(op, 32, 64, a, b);
      BitOpRange(op, 32, a, b);
    }
    WrapSmall(BitOp(op, 64, a, b));
  }

  lemma IntLiterals(op: BinaryOp, l: Kind, a: int, r: Kind, b: int)
    ensures var k := ResultKind(op, l, r); var n := Apply(op, k, a, b);
            !Truth(op) && InRange(k, n) ==>
              Literal(k, n) == if l.Int64K? || r.Int64K? then Int64(n) else Int32(n)
  {
    hide Apply;
  }

  // ----- division, products -----

  /** Truncating division: the quotient is no larger than the dividend, and the
      remainder lies between zero and the dividend. */
  lemma TruncBounds(a: int, b: int)
    requires b != 0
    ensures a == b * TruncDiv(a, b) + TruncRem(a, b) && Abs(TruncRem(a, b)) < Abs(b)
    ensures -Abs(a) <= TruncDiv(a, b) <= Abs(a)
    ensures if a >= 0 then 0 <= TruncRem(a, b) <= a else a <= TruncRem(a, b) <= 0
  {
    var n, d := Abs(a), Abs(b);
    assert n == d * (n / d) + n % d;
    DivBound(n, d);
    if a >= 0 {
      assert b * TruncDiv(a, b) == d * (n / d);
    } else {
      assert b * TruncDiv(a, b) == -(d * (n / d));
    }
  }

  lemma DivBound(n: int, d: int)
    requires n >= 0 && d > 0
    ensures 0 <= n / d <= n && 0 <= n % d <= n
  {
    var q := n / d;
    assert n == d * q + n % d;
    if q > 0 {
      MulLess(1, d, q);
    } else {
      assert d * q == 0;
    }
  }

  lemma ProductBound(a: int, b: int)
    requires I32_MIN <= a <= I32_MAX && I32_MIN <= b <= I32_MAX
    ensures I64_MIN <= a * b <= I64_MAX
  {
    var m := Abs(a) * Abs(b);
    MulLess(Abs(a), 0x8000_0000, if b == 0 then 1 else Abs(b));
    MulLess(Abs(b), 0x8000_0000, 0x8000_0000);
    assert m <= 0x8000_0000 * 0x8000_0000;
    assert a * b == m || a * b == -m;
  }

  predicate Arithmetic(op: BinaryOp) {
    op.Add? || op.Sub? || op.Mul? || op.Div? || op.Rem?
  }

  lemma CheckedExact(op: BinaryOp, a: i64, b: i64)
    requires Arithmetic(op)
    ensures CheckedI64(op, a, b) == if Defined(op, Int64K, a, b) then Done(Apply(op, Int64K, a, b)) else Fail
    ensures Defined(op, Int64K, a, b) ==> InRange(Int64K, Apply(op, Int64K, a, b))
  {
    hide TruncDiv, TruncRem;
    if b != 0 {
      TruncBounds(a, b);
    }
  }

  /** With `int` operands the `long` computation cannot overflow, so only the final range
      check, a zero divisor and the one undefined remainder fail. */
  lemma CheckedSmall(op: BinaryOp, a: i64, b: i64)
    requires Arithmetic(op) && InRange(Int32K, a) && InRange(Int32K, b)
    ensures Defined(op, Int32K, a, b) ==> InRange(Int32K, Apply(op, Int32K, a, b))
    ensures CheckedI64(op, a, b) == if (op.Div? || op.Rem?) && b == 0 then Fail else Done(Apply(op, Int32K, a, b))
  {
    hide TruncDiv, TruncRem;
    ProductBound(a, b);
    if b != 0 {
      TruncBounds(a, b);
    }
  }

  lemma ArithmeticExact(op: BinaryOp, l: Kind, a: int, r: Kind, b: int)
    requires InRange(l, a) && InRange(r, b) && Arithmetic(op)
    ensures Exact(op, l, a, r, b)
    ensures var k := ResultKind(op, l, r); Defined(op, k, a, b) ==> InRange(k, Apply(op, k, a, b))
  {
    hide Promoted, Literal, FoldArithmetic, FoldBits, FoldCompare, FoldShift, Apply, Defined, InRange;
    PromotedKind(l, a, r, b);
    IntLiterals(op, l, a, r, b);
    if l.Int64K? || r.Int64K? {
      ArithmeticWide(op, l, a, r, b, Promoted(Literal(l, a), Literal(r, b)));
    } else {
      ArithmeticNarrow(op, l, a, r, b, Promoted(Literal(l, a), Literal(r, b)));
    }
  }

  lemma ArithmeticWide(op: BinaryOp, l: Kind, a: int, r: Kind, b: int, p: Value)
    requires InRange(l, a) && InRange(r, b) && Arithmetic(op) && p.Int64?
    ensures FoldArithmetic(op, Literal(l, a), Literal(r, b), p) ==
            if Defined(op, Int64K, a, b) && InRange(Int64K, Apply(op, Int64K, a, b)) then Done(Int64(Apply(op, Int64K, a, b))) else Fail
    ensures Defined(op, Int64K, a, b) ==> InRange(Int64K, Apply(op, Int64K, a, b))
  {
    hide Literal, CheckedI64, ConvertTo, Apply, Defined;
    Widen(l, a, p);
    Widen(r, b, p);
    CheckedExact(op, a, b);
  }

  lemma ArithmeticNarrow(op: BinaryOp, l: Kind, a: int, r: Kind, b: int, p: Value)
    requires InRange(l, a) && InRange(r, b) && Arithmetic(op) && p.Int32? && !l.Int64K? && !r.Int64K?
    ensures FoldArithmetic(op, Literal(l, a), Literal(r, b), p) ==
            if Defined(op, Int32K, a, b) && InRange(Int32K, Apply(op, Int32K, a, b)) then Done(Int32(Apply(op, Int32K, a, b))) else Fail
    ensures Defined(op, Int32K, a, b) ==> InRange(Int32K, Apply(op, Int32K, a, b))
  {
    hide Literal, CheckedI64, ConvertTo, Apply;
    Widen(l, a, p);
    Widen(r, b, p);
    CheckedSmall(op, a, b);
  }

  // ----- shifts -----

  /** Shifts lose no set bit: an accepted left shift, read unsigned at the operand's width,
      is the left operand times a power of two, an accepted right shift its floor quotient,
      a negative amount reverses the direction, and refusal means a negative operand, an
      amount of at least the width, or a product that does not fit the word. */
  lemma ShiftExact(op: BinaryOp, l: Kind, a: int, r: Kind, b: int)
    requires InRange(l, a) && InRange(r, b) && (op.Shl? || op.Shr?)
    ensures Exact(op, l, a, r, b)
    ensures var k := ResultKind(op, l, r); Defined(op, k, a, b) ==> InRange(k, Apply(op, k, a, b))
  {
    hide Promoted, Literal, FoldBits, FoldCompare, FoldArithmetic, FoldShift, Defined, Apply, InRange;
    PromotedKind(l, a, r, b);
    IntLiterals(op, l, a, r, b);
    ShiftOnce(op, l, a, r, b, Promoted(Literal(l, a), Literal(r, b)));
  }

  lemma ShiftOnce(op: BinaryOp, l: Kind, a: int, r: Kind, b: int, p: Value)
    requires InRange(l, a) && InRange(r, b) && (op.Shl? || op.Shr?)
    requires p.Int64? == (l.Int64K? || r.Int64K?) && p.Int32? == !(l.Int64K? || r.Int64K?)
    ensures var k := ResultKind(op, l, r);
            var n := Apply(op, k, a, b);
            && (Defined(op, k, a, b) ==> InRange(k, n))
            && FoldShift(op, Literal(l, a), Literal(r, b), p) ==
               if Defined(op, k, a, b) && InRange(k, n) then Done(if p.Int64? then Int64(n) else Int32(n)) else Fail
  {
    hide Literal, ToI64, LeadingZeros, Pow2, Wrap32, Wrap64;
    LiteralValue(l, a);
    LiteralValue(r, b);
    var k := ResultKind(op, l, r);
    if a >= 0 && Abs(b) < Width(k) {
      FitsIff(a, Abs(b), Width(k));
      assert !l.Int64K? ==> a % 0x1_0000_0000 == a;
      WrapShifted(k, a * Pow2(Abs(b)));
      ProductNonNegative(a, Pow2(Abs(b)));
      if a <= High(k) {
        WrapQuotient(k, a, Abs(b));
      }
    }
  }

  lemma ProductNonNegative(a: int, b: int)
    requires a >= 0 && b >= 0
    ensures a * b >= 0
  {
  }

  /** Truncating an unsigned number that fits the word gives its signed reading. */
  lemma WrapShifted(k: Kind, n: int)
    requires k.Int32K? || k.Int64K?
    ensures 0 <= n < Pow2(Width(k)) ==>
              && InRange(k, Signed(k, n))
              && (k.Int32K? ==> Wrap32(Wrap64(n)) == Signed(k, n))
              && (k.Int64K? ==> Wrap64(Wrap64(n)) == Signed(k, n))
  {
    hide Pow2;
    Powers();
  }

  lemma WrapQuotient(k: Kind, a: int, n: nat)
    requires (k.Int32K? || k.Int64K?) && 0 <= a <= High(k)
    ensures var q := a / Pow2(n);
            && InRange(k, q)
            && (k.Int32K? ==> Wrap32(q) == q)
            && (k.Int64K? ==> Wrap64(q) == q)
  {
    hide Pow2, Wrap32, Wrap64;
    DivBound(a, Pow2(n));
    WrapSmall(a / Pow2(n));
  }

  // ----- whole trees -----

  lemma BinaryExact(op: BinaryOp, l: Kind, a: int, r: Kind, b: int)
    requires InRange(l, a) && InRange(r, b)
    ensures Exact(op, l, a, r, b)
    ensures var k := ResultKind(op, l, r); Defined(op, k, a, b) ==> InRange(k, Apply(op, k, a, b))
  {
    hide Exact, Defined, Apply, InRange;
    match op
    case LogicOr | LogicAnd => LogicExact(op, l, a, r, b);
    case Eq | Ne | Le | Ge | Lt | Gt => CompareExact(op, l, a, r, b);
    case BitOr | BitXor | BitAnd => BitsExact(op, l, a, r, b);
    case Shl | Shr => ShiftExact(op, l, a, r, b);
    case Add | Sub | Mul | Div | Rem => ArithmeticExact(op, l, a, r, b);
  }

  lemma UnaryExact(op: UnaryOp, k: Kind, n: int)
    requires InRange(k, n)
    ensures var v := match op
                     case Minus => if k.BoolK? then n else -n
                     case Complement => if k.BoolK? then 1 - n else -1 - n
                     case LogicNot => Bit(n == 0)
                     case Plus => n;
            var k' := if op.LogicNot? then BoolK else k;
            && ((op.Minus? && !k.BoolK?) || InRange(k', v))
            && FoldUnary(op, Literal(k, n)) == if InRange(k', v) then Done(Literal(k', v)) else Fail
  {
  }

  /** Exact folding: a tree folds exactly when every step has a result in its promoted
      kind, and then to the mathematical value, in that kind. */
  lemma {:induction false} ExactFolding(t: Expr)
    requires Plain(t)
    ensures Safe(t) ==> InRange(KindOf(t), Meaning(t))
    ensures Fold(t) == if Safe(t) then Done(Literal(KindOf(t), Meaning(t))) else Fail
  {
    match t
    case Unary(op, a) =>
      ExactFolding(a);
      ExactUnaryStep(op, a);
    case Binary(l, op, r) =>
      ExactFolding(l);
      ExactFolding(r);
      ExactBinaryStep(l, op, r);
    case _ =>
  }

  lemma ExactUnaryStep(op: UnaryOp, a: Expr)
    requires Plain(Unary(op, a))
    requires Safe(a) ==> InRange(KindOf(a), Meaning(a))
    requires Fold(a) == if Safe(a) then Done(Literal(KindOf(a), Meaning(a))) else Fail
    ensures var t := Unary(op, a);
            && (Safe(t) ==> InRange(KindOf(t), Meaning(t)))
            && Fold(t) == if Safe(t) then Done(Literal(KindOf(t), Meaning(t))) else Fail
  {
    hide Literal, FoldUnary, FoldBinary, Apply, Low, High;
    if Safe(a) {
      UnaryExact(op, KindOf(a), Meaning(a));
    }
  }

  lemma ExactBinaryStep(l: Expr, op: BinaryOp, r: Expr)
    requires Safe(l) ==> InRange(KindOf(l), Meaning(l))
    requires Safe(r) ==> InRange(KindOf(r), Meaning(r))
    requires Fold(l) == if Safe(l) then Done(Literal(KindOf(l), Meaning(l))) else Fail
    requires Fold(r) == if Safe(r) then Done(Literal(KindOf(r), Meaning(r))) else Fail
    ensures var t := Binary(l, op, r);
            && (Safe(t) ==> InRange(KindOf(t), Meaning(t)))
            && Fold(t) == if Safe(t) then Done(Literal(KindOf(t), Meaning(t))) else Fail
  {
    hide Literal, FoldUnary, FoldBinary, Apply, Low, High, Defined, InRange;
    if Safe(l) && Safe(r) {
      BinaryExact(op, KindOf(l), Meaning(l), KindOf(r), Meaning(r));
    }
  }

  function Height(t: Expr): nat {
    match t
    case Unary(_, a) => 1 + Height(a)
    case Binary(l, _, r) => 1 + if Height(l) > Height(r) then Height(l) else Height(r)
    case _ => 0
  }

  lemma {:induction false} PlainInline(env: Env, t: Expr, n: nat)
    requires Plain(t)
    ensures Inline(env, t, n) == if Height(t) <= n then Done(t) else Fail
    decreases t
  {
    match t
    case Unary(_, a) =>
      if n > 0 {
        PlainInline(env, a, n - 1);
      }
    case Binary(l, _, r) =>
      if n > 0 {
        PlainInline(env, l, n - 1);
        PlainInline(env, r, n - 1);
      }
    case _ =>
  }

  /** The evaluator itself: exact up to depth 256, an error beyond. */
  lemma ExactEvaluation(env: Env, t: Expr)
    requires Plain(t)
    ensures Safe(t) ==> InRange(KindOf(t), Meaning(t))
    ensures Calculate(env, t) ==
            if Safe(t) && Height(t) <= MAX_EXPR_DEPTH then Done(Literal(KindOf(t), Meaning(t))) else Fail
  {
    hide Calculate, Fold, Safe, InRange, Literal;
    ExactFolding(t);
    PlainInline(env, t, MAX_EXPR_DEPTH);
    NamesAsIfInlined(env, t);
  }

  /** Converting to the declared kind keeps the value or is an error; to a boolean it keeps
      the truth value. */
  lemma NarrowingExact(k: Kind, n: int, target: Kind)
    requires InRange(k, n)
    ensures ConvertTo(Literal(k, n), Literal(target, 0)) ==
            if target.BoolK? then Done(Literal(BoolK, Bit(n != 0)))
            else if InRange(target, n) then Done(Literal(target, n)) else Fail
  {
    LiteralValue(k, n);
  }
}
