/** Constant expressions over the integral kinds: the operators, the promotions,
    and the evaluator that resolves names along a path and bounds its depth. */
module ConstExpr {
  import opened Wire
  import Text

  const MAX_EXPR_DEPTH: nat := 256

  const I8_MIN := -0x80
  const I8_MAX := 0x7f
  const I64_MIN := -0x8000_0000_0000_0000
  const I64_MAX := 0x7fff_ffff_ffff_ffff

  type i8 = v: int | I8_MIN <= v <= I8_MAX witness 0
  type i64 = v: int | I64_MIN <= v <= I64_MAX witness 0

  /** A value, or the report of an error. */
  datatype Outcome<+T> = Done(value: T) | Fail {
    predicate IsFailure() {
      Fail?
    }

    function PropagateFailure<U>(): Outcome<U>
      requires Fail?
    {
      Fail
    }

    function Extract(): T
      requires Done?
    {
      value
    }
  }

  datatype BinaryOp =
    | LogicOr | LogicAnd
    | BitOr | BitXor | BitAnd
    | Eq | Ne | Le | Ge | Lt | Gt
    | Shl | Shr
    | Add | Sub | Mul | Div | Rem

  /** Operators whose result is a truth value. */
  predicate Truth(op: BinaryOp) {
    op.LogicOr? || op.LogicAnd? || op.Eq? || op.Ne? || op.Le? || op.Ge? || op.Lt? || op.Gt?
  }

  datatype UnaryOp = Minus | Complement | LogicNot | Plus

  /** `ValueType`, without floats, characters, strings and arrays. A reference is an enum
      member with its value; its text is how it renders. */
  datatype Expr =
    | Name(name: string)
    | Bool(b: bool)
    | Byte(i8: i8)
    | Int32(i32: i32)
    | Int64(i64: i64)
    | Reference(text: string, value: i64)
    | Binary(lhs: Expr, op: BinaryOp, rhs: Expr)
    | Unary(uop: UnaryOp, arg: Expr)

  predicate IsValue(e: Expr) {
    !e.Binary? && !e.Unary?
  }

  type Value = e: Expr | IsValue(e) witness Bool(false)

  // ----- machine arithmetic -----

  function Pow2(n: nat): (p: int)
    ensures p >= 1
  {
    if n == 0 then 1 else 2 * Pow2(n - 1)
  }

  function Wrap64(v: int): (r: i64)
  {
    (v - I64_MIN) % 0x1_0000_0000_0000_0000 + I64_MIN
  }

  /** Division that truncates toward zero. */
  function TruncDiv(a: int, b: int): (q: int)
    requires b != 0
  {
    if a >= 0 then if b > 0 then a / b else -(a / -b)
    else if b > 0 then -(-a / b) else -a / -b
  }

  function TruncRem(a: int, b: int): (r: int)
    requires b != 0
  {
    a - b * TruncDiv(a, b)
  }

  function CombineBits(op: BinaryOp, x: bool, y: bool): bool {
    match op
    case BitOr => x || y
    case BitXor => x != y
    case _ => x && y
  }

  /** A bitwise operation on two's-complement words of `width` bits, bit by bit from below. */
  function BitOp(op: BinaryOp, width: nat, x: int, y: int): (r: int)
    requires width > 0
  {
    var bit := if CombineBits(op, x % 2 == 1, y % 2 == 1) then 1 else 0;
    if width == 1 then -bit else bit + 2 * BitOp(op, width - 1, x / 2, y / 2)
  }

  /** `leading_zeros` of a non-negative number in a word of `width` bits. */
  function BitLength(v: nat): (n: nat)
  {
    if v == 0 then 0 else 1 + BitLength(v / 2)
  }

  function LeadingZeros(v: nat, width: nat): (n: int)
  {
    width - BitLength(v)
  }

  // ----- conversions -----

  function Order(e: Expr): nat {
    match e
    case Name(_) => 1
    case Bool(_) => 2
    case Byte(_) => 3
    case Int32(_) => 4
    case Int64(_) => 5
    case Binary(_, _, _) => 12
    case Unary(_, _) => 13
    case Reference(_, _) => 18
  }

  function ToI64(v: Value): (r: Outcome<i64>)
  {
    match v
    case Name(_) => Fail
    case Bool(b) => Done(if b then 1 else 0)
    case Byte(n) => Done(n)
    case Int32(n) => Done(n)
    case Int64(n) => Done(n)
    case Reference(_, n) => Done(n)
  }

  function ToBool(v: Value): (r: Outcome<bool>)
  {
    match v
    case Name(_) => Fail
    case Bool(b) => Done(b)
    case Byte(n) => Done(n != 0)
    case Int32(n) => Done(n != 0)
    case Int64(n) => Done(n != 0)
    case Reference(_, _) => Fail
  }

  /** `convert_to`: a value outside the range of the target kind is an error. */
  function ConvertTo(v: Value, target: Value): (r: Outcome<Value>)
  {
    if Order(v) == Order(target) then Done(v)
    else
      match target
      case Byte(_) =>
        var n :- ToI64(v);
        if I8_MIN <= n <= I8_MAX then Done(Byte(n)) else Fail
      case Int32(_) =>
        var n :- ToI64(v);
        if I32_MIN <= n <= I32_MAX then Done(Int32(n)) else Fail
      case Int64(_) =>
        var n :- ToI64(v);
        Done(Int64(n))
      case Bool(_) =>
        var b :- ToBool(v);
        Done(Bool(b))
      case Reference(_, _) => Done(v)
      case Name(_) => Fail
  }

  function IntegralPromotion(v: Value): (p: Value)
  {
    if Order(v) > 4 then v else Int32(0)
  }

  function TypeConversion(l: Value, r: Value): (p: Value)
  {
    if Order(l) == Order(r) then l
    else if l.Bool? then r
    else if r.Bool? then l
    else if Order(l) > Order(r) then l
    else r
  }

  function Promoted(l: Value, r: Value): (p: Value)
    ensures p.Int32? || p.Int64? || p.Reference?
  {
    TypeConversion(IntegralPromotion(l), IntegralPromotion(r))
  }

  // ----- operators on values -----

  function UnaryMinus(v: Value): (r: Outcome<Value>)
  {
    match v
    case Bool(_) => Done(v)
    case Byte(n) => if n == I8_MIN then Fail else Done(Byte(-n))
    case Int32(n) => if n == I32_MIN then Fail else Done(Int32(-n))
    case Int64(n) => if n == I64_MIN then Fail else Done(Int64(-n))
    case _ => Fail
  }

  function UnaryNot(v: Value): (r: Outcome<Value>)
  {
    match v
    case Bool(b) => Done(Bool(!b))
    case Byte(n) => Done(Byte(-1 - n))
    case Int32(n) => Done(Int32(-1 - n))
    case Int64(n) => Done(Int64(-1 - n))
    case _ => Fail
  }

  function LogicalNot(v: Value): (r: Outcome<Value>)
  {
    var b :- ToBool(v);
    Done(Bool(!b))
  }

  function FoldUnary(op: UnaryOp, v: Value): (r: Outcome<Value>)
  {
    match op
    case Minus => UnaryMinus(v)
    case Complement => UnaryNot(v)
    case LogicNot => LogicalNot(v)
    case Plus => Done(v)
  }

  /** The checked `i64` operation of one arithmetic operator. */
  function CheckedI64(op: BinaryOp, a: i64, b: i64): (r: Outcome<i64>)
  {
    if (op.Div? || op.Rem?) && b == 0 then Fail
    else if op.Rem? && a == I64_MIN && b == -1 then Fail
    else
      var v := match op
               case Add => a + b
               case Sub => a - b
               case Mul => a * b
               case Div => TruncDiv(a, b)
               case _ => if b == 0 then 0 else TruncRem(a, b);
      if I64_MIN <= v <= I64_MAX then Done(v) else Fail
  }

  function FoldArithmetic(op: BinaryOp, l: Value, r: Value, p: Value): (v: Outcome<Value>)
    requires p.Int32? || p.Int64? || p.Reference?
    ensures v.Done? ==> if p.Int32? then v.value.Int32? else v.value.Int64?
  {
    var l' :- ConvertTo(l, p);
    var r' :- ConvertTo(r, p);
    var a :- ToI64(l');
    var b :- ToI64(r');
    var n :- CheckedI64(op, a, b);
    if !p.Int32? then Done(Int64(n))
    else if n > I32_MAX || n < I32_MIN || (op.Rem? && a == I32_MIN && b == -1) then Fail
    else Done(Int32(n))
  }

  function FoldBits(op: BinaryOp, l: Value, r: Value, p: Value): (v: Outcome<Value>)
    requires p.Int32? || p.Int64? || p.Reference?
    ensures v.Done? ==> if p.Int32? then v.value.Int32? else v.value.Int64?
  {
    var a :- ToI64(l);
    var b :- ToI64(r);
    var n := BitOp(op, 64, a, b);
    Done(if p.Int32? then Int32(Wrap32(n)) else Int64(Wrap64(n)))
  }

  /** `partial_cmp` on the left operand's kind; `None` when it has no ordering. */
  datatype Ordering = Less | Equal | Greater | Incomparable

  function Compare(a: int, b: int): Ordering {
    if a < b then Less else if a == b then Equal else Greater
  }

  /** An unresolved name is compared as text; it is only ever compared with a reference. */
  function CompareText(a: string, b: string): Ordering {
    if a == b then Equal else if Text.LexLe(a, b) then Less else Greater
  }

  function PartialCmp(l: Value, r: Value): Ordering {
    var n := ToI64(r);
    match l
    case Int32(v) => if n.Done? then Compare(v, Wrap32(n.value)) else Incomparable
    case Int64(v) => if n.Done? then Compare(v, n.value) else Incomparable
    case Byte(v) => if n.Done? then Compare(v, (n.value + 0x80) % 0x100 - 0x80) else Incomparable
    case Bool(b) =>
      var c := ToBool(r);
      if c.Done? then Compare(if b then 1 else 0, if c.value then 1 else 0) else Incomparable
    case Name(n) => if r.Reference? then CompareText(n, r.text) else Incomparable
    case _ => Incomparable
  }

  function FoldCompare(op: BinaryOp, l: Value, r: Value, p: Value): (v: Outcome<Value>)
    ensures v.Done? ==> v.value.Bool?
  {
    var l' :- ConvertTo(l, p);
    var r' :- ConvertTo(r, p);
    var o := PartialCmp(l', r');
    Done(Bool(match op
              case Eq => o.Equal?
              case Ne => !o.Equal?
              case Le => o.Less? || o.Equal?
              case Ge => o.Greater? || o.Equal?
              case Lt => o.Less?
              case _ => o.Greater?))
  }

  function FoldShift(op: BinaryOp, l: Value, r: Value, p: Value): (v: Outcome<Value>)
    requires p.Int32? || p.Int64? || p.Reference?
    ensures v.Done? ==> if p.Int32? then v.value.Int32? else v.value.Int64?
  {
    var a :- ToI64(l);
    var amountOrBack :- ToI64(r);
    var raw: int := amountOrBack;
    var left := if raw < 0 then !op.Shl? else op.Shl?;
    var amount: nat := if raw < 0 then -raw else raw;
    var bits := if p.Int32? then 32 else 64;
    if amount >= bits then Fail
    else if a < 0 then Fail
    else if left && amount > LeadingZeros(if bits == 64 then a else a % 0x1_0000_0000, bits) then Fail
    else
      var n := if left then Wrap64(a * Pow2(amount)) else a / Pow2(amount);
      Done(if p.Int32? then Int32(Wrap32(n)) else Int64(Wrap64(n)))
  }

  function FoldBinary(op: BinaryOp, l: Value, r: Value): (v: Outcome<Value>)
    ensures v.Done? ==> v.value.Bool? || v.value.Int32? || v.value.Int64?
  {
    var p := Promoted(l, r);
    match op
    case LogicOr =>
      var a :- ToBool(l);
      if a then Done(Bool(true)) else var b :- ToBool(r); Done(Bool(b))
    case LogicAnd =>
      var a :- ToBool(l);
      if !a then Done(Bool(false)) else var b :- ToBool(r); Done(Bool(b))
    case BitOr | BitXor | BitAnd => FoldBits(op, l, r, p)
    case Eq | Ne | Le | Ge | Lt | Gt => FoldCompare(op, l, r, p)
    case Shl | Shr => FoldShift(op, l, r, p)
    case Add | Sub | Mul | Div | Rem => FoldArithmetic(op, l, r, p)
  }

  // ----- the evaluator -----

  type Env = map<string, Expr>

  /** `calculate_with_visited`: `visited` holds the names on the path to this expression. */
  function Calc(env: Env, e: Expr, visited: set<string>, depth: nat): (r: Outcome<Value>)
    decreases MAX_EXPR_DEPTH + 1 - depth
  {
    if depth > MAX_EXPR_DEPTH then Fail
    else
      match e
      case Unary(op, a) =>
        var v :- Calc(env, a, visited, depth + 1);
        FoldUnary(op, v)
      case Binary(l, op, r) =>
        var a :- Calc(env, l, visited, depth + 1);
        var b :- Calc(env, r, visited, depth + 1);
        FoldBinary(op, a, b)
      case Name(n) =>
        if n in visited then Fail
        else if n in env then Calc(env, env[n], visited + {n}, depth + 1)
        else Done(e)
      case _ => Done(e)
  }

  function Calculate(env: Env, e: Expr): (r: Outcome<Value>)
  {
    Calc(env, e, {}, 0)
  }
}
