/** The literal value algebra of the interpreter: the two-variant
    `LiteralType`, its partial arithmetic (`+ - * /` and unary `-`) and its
    two coercions, to a truth value and to a 64-bit integer.

    Rust's integer operators panic on overflow in a debug build; that panic
    is modelled as the `Overflow` failure, so an arithmetic result is defined
    exactly when the mathematical result fits in an i64. */
module Literals {
  import opened Wrappers

  const I64_MIN: int := -0x8000_0000_0000_0000
  const I64_MAX: int := 0x7FFF_FFFF_FFFF_FFFF

  /** Rust's `i64`. */
  type i64 = x: int | I64_MIN <= x <= I64_MAX

  predicate InI64(x: int) {
    I64_MIN <= x <= I64_MAX
  }

  datatype LiteralType = Int(i: i64) | Bool(b: bool)

  /** Why an arithmetic operation panics. */
  datatype ArithError =
    | Overflow        // "attempt to add/subtract/multiply/negate/divide with overflow"
    | MultiplyBool    // "Can't multiply a bool"
    | DivideBool      // "Can't divide a bool"
    | DivideByZero    // "attempt to divide by zero"

  /** `b as i64`. */
  function BoolAsI64(b: bool): i64 {
    if b then 1 else 0
  }

  /** A checked i64 result: the value as an `Int`, or `Overflow`. */
  function Checked(x: int): (r: Result<LiteralType, ArithError>)
    ensures r.Success? <==> InI64(x)
    ensures r.Success? ==> r.value == Int(x)
    ensures r.Failure? ==> r.error == Overflow
  {
    if InI64(x) then Success(Int(x)) else Failure(Overflow)
  }

  /*** Coercions ***/

  /** `From<LiteralType> for bool`: the truthiness of a literal. */
  function Truthy(lit: LiteralType): (r: bool)
    ensures lit.Bool? ==> (r <==> lit.b)
    ensures r <==> ToI64(lit) != 0
  {
    match lit
    case Bool(b) => b
    case Int(i) => i != 0
  }

  /** `From<LiteralType> for i64`: the numeric value of a literal. */
  function ToI64(lit: LiteralType): (r: i64)
    ensures lit.Bool? ==> r == (if lit.b then 1 else 0)
    ensures lit.Int? ==> Int(r) == lit
  {
    match lit
    case Bool(b) => BoolAsI64(b)
    case Int(i) => i
  }

  /*** Addition: `i64 + LiteralType`, `bool + LiteralType`, `LiteralType + LiteralType` ***/

  function AddToI64(x: i64, other: LiteralType): Result<LiteralType, ArithError> {
    match other
    case Int(a) => Checked(x + a)
    case Bool(b) => Checked(x + BoolAsI64(b))
  }

  function AddToBool(x: bool, other: LiteralType): Result<LiteralType, ArithError> {
    match other
    case Int(a) => Checked(BoolAsI64(x) + a)
    case Bool(b) => Checked(BoolAsI64(x) + BoolAsI64(b))
  }

  /** Both operands are coerced to numbers; the sum is always an `Int`. */
  function Add(l: LiteralType, r: LiteralType): (res: Result<LiteralType, ArithError>)
    ensures res.Success? <==> InI64(ToI64(l) + ToI64(r))
    ensures res.Success? ==> res.value == Int(ToI64(l) + ToI64(r))
    ensures res.Failure? ==> res.error == Overflow
  {
    match l
    case Int(i) => AddToI64(i, r)
    case Bool(b) => AddToBool(b, r)
  }

  /*** Subtraction ***/

  function SubFromI64(x: i64, other: LiteralType): Result<LiteralType, ArithError> {
    match other
    case Int(a) => Checked(x - a)
    case Bool(b) => Checked(x - BoolAsI64(b))
  }

  function SubFromBool(x: bool, other: LiteralType): Result<LiteralType, ArithError> {
    match other
    case Int(a) => Checked(BoolAsI64(x) - a)
    case Bool(b) => Checked(BoolAsI64(x) - BoolAsI64(b))
  }

  /** Both operands are coerced to numbers; left minus right, always an `Int`. */
  function Sub(l: LiteralType, r: LiteralType): (res: Result<LiteralType, ArithError>)
    ensures res.Success? <==> InI64(ToI64(l) - ToI64(r))
    ensures res.Success? ==> res.value == Int(ToI64(l) - ToI64(r))
    ensures res.Failure? ==> res.error == Overflow
  {
    match l
    case Int(i) => SubFromI64(i, r)
    case Bool(b) => SubFromBool(b, r)
  }

  /*** Multiplication: only `Int * Int` ***/

  function MulI64(x: i64, other: LiteralType): Result<LiteralType, ArithError> {
    match other
    case Int(a) => Checked(x * a)
    case Bool(_) => Failure(MultiplyBool)
  }

  function Mul(l: LiteralType, r: LiteralType): (res: Result<LiteralType, ArithError>)
    ensures res.Success? <==> l.Int? && r.Int? && InI64(l.i * r.i)
    ensures res.Success? ==> res.value == Int(l.i * r.i)
    ensures (l.Bool? || r.Bool?) ==> res == Failure(MultiplyBool)
    ensures l.Int? && r.Int? && !InI64(l.i * r.i) ==> res == Failure(Overflow)
  {
    match l
    case Int(i) => MulI64(i, r)
    case Bool(_) => Failure(MultiplyBool)
  }

  /*** Division: only `Int / Int`, truncating toward zero ***/

  function Abs(x: int): nat {
    if x < 0 then -x else x
  }

  /** Rust's `/` on integers: the quotient rounded toward zero.
      (Dafny's own `/` is Euclidean and differs for negative operands.) */
  function TruncDiv(a: int, b: int): (q: int)
    requires b != 0
    ensures Abs(a - q * b) < Abs(b)
    ensures a - q * b == 0 || (a - q * b < 0 <==> a < 0)
  {
    var m := Abs(a) / Abs(b);
    if (a < 0) == (b < 0) then m else -m
  }

  function DivI64(x: i64, other: LiteralType): Result<LiteralType, ArithError> {
    match other
    case Int(a) =>
      if a == 0 then Failure(DivideByZero) else Checked(TruncDiv(x, a))
    case Bool(_) => Failure(DivideBool)
  }

  function Div(l: LiteralType, r: LiteralType): (res: Result<LiteralType, ArithError>)
    ensures (l.Bool? || r.Bool?) ==> res == Failure(DivideBool)
    ensures l.Int? && r.Int? && r.i == 0 ==> res == Failure(DivideByZero)
    ensures l == Int(I64_MIN) && r == Int(-1) ==> res == Failure(Overflow)
    ensures res.Success? <==> l.Int? && r.Int? && r.i != 0 && !(l.i == I64_MIN && r.i == -1)
    ensures res.Success? ==> res.value.Int?
    ensures res.Success? ==>
      var rem := l.i - res.value.i * r.i;
      && Abs(rem) < Abs(r.i)
      && (rem == 0 || (rem < 0 <==> l.i < 0))
  {
    match l
    case Int(i) => DivI64(i, r)
    case Bool(_) => Failure(DivideBool)
  }

  /*** Negation ***/

  /** Unary minus; a `Bool` is negated as 0 or 1, so the result is always an `Int`. */
  function Neg(x: LiteralType): (res: Result<LiteralType, ArithError>)
    ensures res.Success? <==> ToI64(x) != I64_MIN
    ensures res.Success? ==> res.value == Int(-ToI64(x))
    ensures res.Failure? ==> res.error == Overflow
  {
    match x
    case Bool(b) => Success(Int(-BoolAsI64(b)))
    case Int(i) => Checked(-(i as int))
  }

  /*** Laws relating the operations ***/

  /** Addition is commutative on every cell of the grid, errors included. */
  lemma AddCommutes(l: LiteralType, r: LiteralType)
    ensures Add(l, r) == Add(r, l)
  {
  }

  /** Subtracting is adding the negation, whenever the negation exists. */
  lemma SubIsAddNeg(l: LiteralType, r: LiteralType)
    requires Neg(r).Success?
    ensures Sub(l, r) == Add(l, Neg(r).value)
  {
  }

  /** The two coercions agree: a literal is true exactly when its numeric
      value, taken as an `Int`, is true; and adding the `Int` zero converts a
      literal to that numeric value. */
  lemma CoercionsAgree(lit: LiteralType)
    ensures Truthy(Int(ToI64(lit))) == Truthy(lit)
    ensures Add(lit, Int(0)) == Success(Int(ToI64(lit)))
    ensures Add(Int(0), lit) == Success(Int(ToI64(lit)))
  {
  }

  /** Negating twice gives back the numeric value; a `Bool` comes back as
      an `Int`. */
  lemma NegTwice(x: LiteralType)
    requires Neg(x).Success?
    ensures Neg(Neg(x).value) == Success(Int(ToI64(x)))
  {
  }

  /** Division undoes a multiplication that did not overflow. */
  lemma DivUndoesMul(a: i64, b: i64)
    requires b != 0 && Mul(Int(a), Int(b)).Success?
    ensures Div(Mul(Int(a), Int(b)).value, Int(b)) == Success(Int(a))
  {
    var p := a * b;
    var q := Div(Int(p), Int(b)).value.i;
    var rem := p - q * b;
    assert rem == (a - q) * b;
    if a != q {
      MulGrows(a - q, b);
      assert false;
    }
  }

  /** A nonzero multiple of `b` is at least as large as `b`. */
  lemma MulGrows(k: int, b: int)
    requires k != 0 && b != 0
    ensures Abs(k * b) >= Abs(b)
  {
    if (k < 0) == (b < 0) {
      assert k * b == Abs(k) * Abs(b);
    } else {
      assert k * b == -(Abs(k) * Abs(b));
    }
    var m := Abs(k) - 1;
    assert Abs(k) * Abs(b) == m * Abs(b) + Abs(b);
  }
}
