/** The typed values of the expression interpreter on a machine with 32-bit longs and pointers:
    casts that refuse to lose information, promotion, comparison and arithmetic.  Floating point
    numbers are real numbers rounded to the digits of their type; their exponents have no bounds. */
module TypedValues {
  import opened Arith
  import opened Rounding

  datatype Base = Void | UChar | UShort | UInt | ULong | Float | Double

  datatype Type = Type(base: Base, ptr: bool, fun: bool)

  const T_ULONG := Type(ULong, false, false)
  const T_FLOAT := Type(Float, false, false)
  const T_DOUBLE := Type(Double, false, false)

  /** A union of machine words and floating point numbers, with the type that says which. */
  datatype Value = Num(n: nat) | Fp(r: real)

  datatype Typed = Typed(tv: Value, ty: Type)

  datatype Result<T> = Ok(value: T) | Error

  // ---- types

  /** `CEXP_BASE_TYPE_SIZE`: a pointer to void counts like one to char. */
  function BaseSize(t: Type): nat
  {
    match t.base
    case Void => if t.ptr then 1 else 0
    case UChar => 1
    case UShort => 2
    case UInt | ULong | Float => 4
    case Double => 8
  }

  /** `CEXP_TYPE_SIZE`. */
  function TypeSize(t: Type): nat { if t.ptr then 4 else BaseSize(t) }

  /** `CEXP_TYPE_FPQ` and `CEXP_TYPE_SCALARQ`. */
  predicate IsFp(t: Type) { !t.ptr && (t.base == Float || t.base == Double) }

  predicate IsScalar(t: Type) { !t.ptr && (t.base == UChar || t.base == UShort || t.base == UInt || t.base == ULong) }

  /** How many numbers a word of the type can hold. */
  function Width(t: Type): (w: nat)
    ensures w > 0
  {
    if t.ptr then W32
    else
      match t.base
      case UChar => 0x100
      case UShort => 0x1_0000
      case _ => W32
  }

  /** The digits of a significand. */
  function Digits(t: Type): (p: nat)
    ensures p > 0
  {
    if t.base == Float then 24 else 53
  }

  /** The value is one of its type. */
  ghost predicate Sane(x: Typed)
  {
    if IsFp(x.ty) then x.tv.Fp? && Held(x.tv.r, Digits(x.ty)) else x.tv.Num? && x.tv.n < Width(x.ty)
  }

  ghost predicate Numeric(x: Typed) { Sane(x) && (IsScalar(x.ty) || IsFp(x.ty)) }

  /** The number that a value stands for. */
  function Number(x: Typed): real
  {
    match x.tv
    case Num(n) => n as real
    case Fp(r) => r
  }

  /** `1 << 8*size`, for the sizes that can be smaller than another. */
  function Bits(size: nat): nat
  {
    if size == 0 then 1 else if size == 1 then 0x100 else if size == 2 then 0x1_0000 else W32
  }

  // ---- casts

  /** `fits`. */
  predicate Fits(x: Typed, t: Type)
    requires Sane(x)
  {
    if IsFp(t) && !IsFp(x.ty) && t.base == Float then
      !(!x.ty.ptr && (x.ty.base == ULong || x.ty.base == UInt)) || x.tv.n < 0x100_0000
    else if !IsFp(t) && IsFp(x.ty) then false
    else if TypeSize(t) < TypeSize(x.ty) then
      if IsFp(x.ty) then false else x.tv.n < Bits(TypeSize(t))
    else true
  }

  /** Truncation towards zero. */
  function Trunc(r: real): int
  {
    if r >= 0.0 then r.Floor else -((-r).Floor)
  }

  /** The converter of the table; there is none from floating point to pointers. */
  function Convert(x: Typed, t: Type): (r: Result<Value>)
    requires Sane(x)
  {
    if IsFp(t) then Ok(Fp(Round(Number(x), Digits(t))))
    else if IsFp(x.ty) then
      if t.ptr || t.base == Void then Error else Ok(Num(Trunc(x.tv.r) % Width(t)))
    else Ok(Num(x.tv.n % Width(t)))
  }

  /** The outcome of `cexpTypeCast`. */
  function CastOf(x: Typed, t: Type, force: bool): (r: Result<Typed>)
    requires Sane(x)
  {
    if x.ty.ptr && t.ptr then
      if !force && BaseSize(t) > BaseSize(x.ty) then Error else Ok(Typed(x.tv, t))
    else
      match Convert(x, t)
      case Error => Error
      case Ok(v) => if !force && !Fits(x, t) then Error else Ok(Typed(v, t))
  }

  lemma CastIsSane(x: Typed, t: Type, force: bool)
    requires Sane(x) && CastOf(x, t, force).Ok?
    ensures Sane(CastOf(x, t, force).value) && CastOf(x, t, force).value.ty == t
  {
    RoundedIsHeld(Number(x), Digits(t));
  }

  lemma CastIsSaneIf(x: Typed, t: Type)
    requires Sane(x)
    ensures CastOf(x, t, false).Ok? ==> Sane(CastOf(x, t, false).value) && CastOf(x, t, false).value.ty == t
  {
    if CastOf(x, t, false).Ok? {
      CastIsSane(x, t, false);
    }
  }

  /** An integer that `fits` a floating point type can be held by it; anything of 32 bits fits a double. */
  lemma FittingIsHeld(x: Typed, t: Type)
    requires Sane(x) && IsScalar(x.ty) && IsFp(t) && Fits(x, t)
    ensures HeldNat(x.tv.n, Digits(t))
  {
    Powers();
    Pow2Grows(32, 53);
    ShortIsHeld(x.tv.n, Digits(t));
  }

  /** A double holds every float. */
  lemma FloatingIsHeld(x: Typed, t: Type)
    requires Sane(x) && IsFp(x.ty) && IsFp(t) && Fits(x, t)
    ensures Held(x.tv.r, Digits(t))
  {
    HeldByMore(x.tv.r, Digits(x.ty), Digits(t));
  }

  /** A cast that is not forced and succeeds preserves the number of a value that is no pointer; and
      between scalars it succeeds exactly if the number can be held. */
  lemma CastPreserves(x: Typed, t: Type)
    requires Numeric(x)
    ensures CastOf(x, t, false).Ok? ==> Number(CastOf(x, t, false).value) == Number(x)
    ensures IsScalar(x.ty) && IsScalar(t) ==> (CastOf(x, t, false).Ok? <==> x.tv.n < Width(t))
  {
    if !IsFp(t) {
      if IsScalar(x.ty) {
        FitsMeans(x, t);
        ModSmall(x.tv.n, Width(t));
      }
    } else if Fits(x, t) {
      if IsScalar(x.ty) {
        FittingIsHeld(x, t);
        HeldInteger(x.tv.n, Digits(t));
      } else {
        FloatingIsHeld(x, t);
      }
      RoundIsExact(Number(x), Digits(t));
    }
  }

  /** A cast of an integer to a floating point type that is forced preserves the number exactly if the
      type can hold it, and gives a nearest number otherwise; one that is not forced is refused exactly
      for integers from 2^24 on that are to become a float, without need exactly for those it holds. */
  lemma IntegerToFloating(x: Typed, t: Type, h: real)
    requires Numeric(x) && IsScalar(x.ty) && IsFp(t) && Held(h, Digits(t))
    ensures CastOf(x, t, true).Ok? && Sane(CastOf(x, t, true).value)
    ensures var r := Number(CastOf(x, t, true).value);
      && (r == Number(x) <==> HeldNat(x.tv.n, Digits(t)))
      && Distance(r, Number(x)) <= Distance(h, Number(x))
    ensures CastOf(x, t, false).Error? <==> t.base == Float && x.tv.n >= 0x100_0000
    ensures CastOf(x, t, false).Error? && Number(CastOf(x, t, true).value) == Number(x)
       <==> t.base == Float && x.tv.n >= 0x100_0000 && HeldNat(x.tv.n, Digits(t))
  {
    RoundedInteger(x.tv.n, Digits(t), h);
    ForcedIsRounded(x, t);
    Refused(x, t);
  }

  lemma ForcedIsRounded(x: Typed, t: Type)
    requires Sane(x) && x.tv.Num? && IsFp(t)
    ensures CastOf(x, t, true) == Ok(Typed(Fp(Round(x.tv.n as real, Digits(t))), t))
  {
  }

  lemma Refused(x: Typed, t: Type)
    requires Numeric(x) && IsScalar(x.ty) && IsFp(t)
    ensures CastOf(x, t, false).Error? <==> t.base == Float && x.tv.n >= 0x100_0000
  {
  }

  /** `n` is the integer part of a number: less than 1 closer to zero, and not on the other side of it. */
  predicate IsTruncated(n: int, r: real)
  {
    && (r >= 0.0 ==> n >= 0 && n as real <= r < n as real + 1.0)
    && (r <= 0.0 ==> n <= 0 && -n as real <= -r < -n as real + 1.0)
  }

  lemma TruncIs(r: real, n: int)
    requires IsTruncated(n, r)
    ensures Trunc(r) == n
  {
  }

  /** A forced cast of a floating point number to an integer type drops the fraction, and then what the
      type has no room for; a number that the type can hold only loses its fraction. */
  lemma FloatingToInteger(x: Typed, t: Type, n: int)
    requires Numeric(x) && IsFp(x.ty) && IsScalar(t) && IsTruncated(n, x.tv.r)
    ensures CastOf(x, t, true) ==
      Ok(Typed(Num(n % (if t.base == UChar then 0x100 else if t.base == UShort then 0x1_0000 else 0x1_0000_0000)), t))
    ensures 0 <= n < (if t.base == UChar then 0x100 else if t.base == UShort then 0x1_0000 else 0x1_0000_0000) ==>
      CastOf(x, t, true) == Ok(Typed(Num(n), t))
    ensures CastOf(x, t, false).Error?
  {
    TruncIs(x.tv.r, n);
    if 0 <= n < Width(t) {
      ModSmall(n, Width(t));
    }
  }

  /** Exactly one integer is the integer part. */
  lemma TruncatedIsUnique(r: real) returns (n: int)
    ensures IsTruncated(n, r) && forall k: int :: IsTruncated(k, r) ==> k == n
  {
    n := Trunc(r);
    forall k: int | IsTruncated(k, r) ensures k == n {
      TruncIs(r, k);
    }
  }

  /** An odd number that is too long cannot be held. */
  lemma OddIsNotHeld(n: nat, p: nat)
    requires n % 2 == 1 && n >= Pow2(p)
    ensures !HeldNat(n, p)
  {
    if HeldNat(n, p) {
      var m: nat, e: nat :| IsNatParts(n, p, m, e);
      EvenOrShort(n, p, m, e);
    }
  }

  lemma EvenOrShort(n: nat, p: nat, m: nat, e: nat)
    requires IsNatParts(n, p, m, e)
    ensures n % 2 == 0 || n < Pow2(p)
  {
    if e > 0 {
      Doubled(m, Pow2(e - 1));
      TwiceIsEven(m * Pow2(e - 1));
    }
  }

  lemma TwiceIsEven(x: int)
    ensures 2 * x % 2 == 0
  {
  }

  /** `fits` refuses 2^24, which a float holds; the next integer is the first that it must refuse. */
  lemma TwoToThe24IsRefused()
    ensures var x := Typed(Num(0x100_0000), T_ULONG);
      CastOf(x, T_FLOAT, false).Error? && Number(CastOf(x, T_FLOAT, true).value) == Number(x)
    ensures var x := Typed(Num(0x100_0001), T_ULONG);
      CastOf(x, T_FLOAT, false).Error? && Number(CastOf(x, T_FLOAT, true).value) != Number(x)
  {
    Powers();
    assert IsNatParts(0x100_0000, 24, 1, 24);
    OddIsNotHeld(0x100_0001, 24);
    assert IsParts(0.0, 24, 0, 0);
    IntegerToFloating(Typed(Num(0x100_0000), T_ULONG), T_FLOAT, 0.0);
    IntegerToFloating(Typed(Num(0x100_0001), T_ULONG), T_FLOAT, 0.0);
  }

  /** Between scalars, and into pointers and void, `fits` implies that the number can be held. */
  lemma FitsMeans(x: Typed, t: Type)
    requires Sane(x) && IsScalar(x.ty) && !IsFp(t)
    ensures Fits(x, t) ==> x.tv.n < Width(t)
    ensures IsScalar(t) && x.tv.n < Width(t) ==> Fits(x, t)
  {
  }

  // ---- operators

  datatype Op = OLt | OLe | OEq | ONe | OGe | OGt | OAdd | OSub | OMul | ODiv | OMod | OShL | OShR | OAnd | OXor | OOr

  predicate Comparison(op: Op) { op.OLt? || op.OLe? || op.OEq? || op.ONe? || op.OGe? || op.OGt? }

  /** Exact comparison of two numbers. */
  predicate Holds(a: real, op: Op, b: real)
    requires Comparison(op)
  {
    match op
    case OLt => a < b
    case OLe => a <= b
    case OEq => a == b
    case ONe => a != b
    case OGe => a >= b
    case OGt => a > b
  }

  function Truth(b: bool): Typed { Typed(Num(if b then 1 else 0), T_ULONG) }

  /** The outcome of `compare`. */
  function CompareOf(x: Typed, y: Typed, op: Op): (r: Result<Typed>)
    requires Sane(x) && Sane(y) && Comparison(op)
  {
    var f := IsFp(x.ty) || IsFp(y.ty);
    if f && (x.ty.ptr || y.ty.ptr) then Error
    else
      var t := if f then T_DOUBLE else T_ULONG;
      match CastOf(x, t, false)
      case Error => Error
      case Ok(a) =>
        match CastOf(y, t, false)
        case Error => Error
        case Ok(b) => Ok(Truth(Holds(Number(a), op, Number(b))))
  }

  /** Any number becomes a double, and any integer a long. */
  lemma CommonType(x: Typed, t: Type)
    requires Numeric(x) && (t == T_DOUBLE || (t == T_ULONG && IsScalar(x.ty)))
    ensures CastOf(x, t, false).Ok? && Number(CastOf(x, t, false).value) == Number(x)
  {
    CastPreserves(x, t);
  }

  /** Comparison of scalars and floating point numbers of any types never fails and is exact. */
  lemma CompareIsExact(x: Typed, y: Typed, op: Op)
    requires Numeric(x) && Numeric(y) && Comparison(op)
    ensures CompareOf(x, y, op) == Ok(Truth(Holds(Number(x), op, Number(y))))
  {
    var t := if IsFp(x.ty) || IsFp(y.ty) then T_DOUBLE else T_ULONG;
    CommonType(x, t);
    CommonType(y, t);
  }

  /** Is the second operand the one that the first is promoted to? */
  predicate SecondIsBig(x: Typed, y: Typed)
  {
    if IsFp(x.ty) != IsFp(y.ty) then IsFp(y.ty) else BaseSize(x.ty) <= BaseSize(y.ty)
  }

  /** The outcome of `cexpTypePromote`. */
  function PromoteOf(x: Typed, y: Typed): (r: Result<(Typed, Typed)>)
    requires Sane(x) && Sane(y)
  {
    if x.ty.ptr || y.ty.ptr then Error
    else if SecondIsBig(x, y) then
      match CastOf(x, y.ty, false)
      case Error => Error
      case Ok(a) => Ok((a, y))
    else
      match CastOf(y, x.ty, false)
      case Error => Error
      case Ok(b) => Ok((x, b))
  }

  /** Promotion gives both operands the type of one of them and changes no number; it fails exactly when
      a float meets an integer from 2^24 on, whether a float could hold that or not. */
  lemma PromotePreserves(x: Typed, y: Typed)
    requires Numeric(x) && Numeric(y)
    ensures PromoteOf(x, y).Ok? ==>
      var (a, b) := PromoteOf(x, y).value;
      && Numeric(a) && Numeric(b) && a.ty == b.ty && (a.ty == x.ty || a.ty == y.ty)
      && Number(a) == Number(x) && Number(b) == Number(y)
    ensures PromoteOf(x, y).Error? <==>
      || (x.ty.base == Float && (y.ty.base == UInt || y.ty.base == ULong) && y.tv.n >= 0x100_0000)
      || (y.ty.base == Float && (x.ty.base == UInt || x.ty.base == ULong) && x.tv.n >= 0x100_0000)
  {
    CastPreserves(x, y.ty);
    CastPreserves(y, x.ty);
    CastIsSaneIf(x, y.ty);
    CastIsSaneIf(y, x.ty);
    PromoteFails(x, y);
  }

  lemma PromoteFails(x: Typed, y: Typed)
    requires Numeric(x) && Numeric(y)
    ensures PromoteOf(x, y).Error? <==>
      || (x.ty.base == Float && (y.ty.base == UInt || y.ty.base == ULong) && y.tv.n >= 0x100_0000)
      || (y.ty.base == Float && (x.ty.base == UInt || x.ty.base == ULong) && x.tv.n >= 0x100_0000)
  {
    CastFails(x, y.ty);
    CastFails(y, x.ty);
  }

  /** A cast that is not forced fails from a wider to a narrower floating point type, and for integers
      that are too large. */
  lemma CastFails(x: Typed, t: Type)
    requires Numeric(x) && (IsScalar(t) || IsFp(t))
    ensures CastOf(x, t, false).Error? <==>
      if IsFp(x.ty) then IsScalar(t) || (t.base == Float && x.ty.base == Double)
      else if IsScalar(t) then x.tv.n >= Width(t)
      else t.base == Float && (x.ty.base == UInt || x.ty.base == ULong) && x.tv.n >= 0x100_0000
  {
    if IsScalar(x.ty) && IsScalar(t) {
      FitsMeans(x, t);
    }
  }

  /** Bit by bit: and, exclusive or, or. */
  function Bitwise(op: Op, x: nat, y: nat, bits: nat): (r: nat)
    requires op.OAnd? || op.OXor? || op.OOr?
  {
    if bits == 0 then 0
    else
      var a, b := x % 2 == 1, y % 2 == 1;
      var c := match op case OAnd => a && b case OXor => a != b case _ => a || b;
      (if c then 1 else 0) + 2 * Bitwise(op, x / 2, y / 2, bits - 1)
  }

  predicate Bit(x: nat, k: nat)
  {
    if k == 0 then x % 2 == 1 else Bit(x / 2, k - 1)
  }

  /** Every bit of the result is the operation on the bits of the operands. */
  lemma {:induction false} BitwiseBits(op: Op, x: nat, y: nat, bits: nat, k: nat)
    requires (op.OAnd? || op.OXor? || op.OOr?) && k < bits
    ensures Bit(Bitwise(op, x, y, bits), k)
       <==> if op.OAnd? then Bit(x, k) && Bit(y, k)
            else if op.OXor? then Bit(x, k) != Bit(y, k) else Bit(x, k) || Bit(y, k)
  {
    var r := Bitwise(op, x, y, bits);
    assert r / 2 == Bitwise(op, x / 2, y / 2, bits - 1);
    if k > 0 {
      BitwiseBits(op, x / 2, y / 2, bits - 1, k - 1);
    }
  }

  /** What the processor does not define: division by zero, and shifts by the width or more. */
  predicate Defined(op: Op, y: nat)
  {
    (op.ODiv? || op.OMod? ==> y != 0) && (op.OShL? || op.OShR? ==> y < 32)
  }

  /** Integer arithmetic without bounds. */
  function Exact(x: nat, y: nat, op: Op): int
    requires !Comparison(op) && Defined(op, y)
  {
    match op
    case OAdd => x + y
    case OSub => x - y
    case OMul => x * y
    case ODiv => x / y
    case OMod => x % y
    case OShL => x * Pow2(y)
    case OShR => x / Pow2(y)
    case OAnd | OXor | OOr => Bitwise(op, x, y, 32)
  }

  /** The scalar part of `binop`: in unsigned longs, then back to the type of the operands. */
  function ScalarOf(x: Typed, y: Typed, op: Op): (r: Result<Typed>)
    requires Sane(x) && Sane(y) && x.ty == y.ty && IsScalar(x.ty) && !Comparison(op) && Defined(op, y.tv.n)
  {
    CastOf(Typed(Num(Exact(x.tv.n, y.tv.n, op) % W32), T_ULONG), x.ty, true)
  }

  /** Scalar operators are integer arithmetic modulo the width of the operand type. */
  lemma ScalarIsModular(x: Typed, y: Typed, op: Op)
    requires Sane(x) && Sane(y) && x.ty == y.ty && IsScalar(x.ty) && !Comparison(op) && Defined(op, y.tv.n)
    ensures ScalarOf(x, y, op) == Ok(Typed(Num(Exact(x.tv.n, y.tv.n, op) % Width(x.ty)), x.ty))
  {
    ModOfMod(Exact(x.tv.n, y.tv.n, op), x.ty);
  }

  lemma ModOfMod(v: int, t: Type)
    requires IsScalar(t)
    ensures v % W32 % Width(t) == v % Width(t)
  {
    var q := v / W32;
    assert v == q * W32 + v % W32;
    var k := W32 / Width(t);
    assert W32 == k * Width(t);
    assert q * W32 == (q * k) * Width(t);
    var w, r := Width(t), v % W32;
    assert r == (r / w) * w + r % w;
    assert v == (q * k + r / w) * w + r % w;
    ModUnique(v, w, q * k + r / w, r % w);
  }

  /** Arithmetic on real numbers; other operators are errors. */
  function ExactFp(x: real, y: real, op: Op): Result<real>
    requires op.ODiv? ==> y != 0.0
  {
    match op
    case OAdd => Ok(x + y)
    case OSub => Ok(x - y)
    case OMul => Ok(x * y)
    case ODiv => Ok(x / y)
    case _ => Error
  }

  /** The floating point part of `binop`. */
  function FpOf(x: Typed, y: Typed, op: Op): Result<Typed>
    requires Sane(x) && Sane(y) && x.ty == y.ty && IsFp(x.ty) && (op.ODiv? ==> y.tv.r != 0.0)
  {
    match ExactFp(x.tv.r, y.tv.r, op)
    case Ok(r) => Ok(Typed(Fp(Round(r, Digits(x.ty))), x.ty))
    case Error => Error
  }

  /** The result is one of the type, and none of the type is closer to the real number. */
  lemma FpIsNearest(x: Typed, y: Typed, op: Op, h: real)
    requires Sane(x) && Sane(y) && x.ty == y.ty && IsFp(x.ty) && (op.ODiv? ==> y.tv.r != 0.0)
    requires Held(h, Digits(x.ty)) && FpOf(x, y, op).Ok?
    ensures op.OAdd? || op.OSub? || op.OMul? || op.ODiv?
    ensures var a, b, r := x.tv.r, y.tv.r, FpOf(x, y, op).value;
      var exact := if op.OAdd? then a + b else if op.OSub? then a - b else if op.OMul? then a * b else a / b;
      && Sane(r) && r.ty == x.ty && Distance(r.tv.r, exact) <= Distance(h, exact)
      && (r.tv.r == exact <==> Held(exact, Digits(x.ty)))
  {
    var exact := ExactFp(x.tv.r, y.tv.r, op).value;
    RoundIsNearest(exact, Digits(x.ty), h);
    RoundIsExact(exact, Digits(x.ty));
  }

  /** The difference of two pointers, in elements. */
  function DifferenceOf(x: Typed, y: Typed, op: Op): Result<Typed>
    requires Sane(x) && Sane(y) && x.ty.ptr && y.ty.ptr
  {
    if x.ty != y.ty || op != OSub then Error
    else
      var diff, s := (x.tv.n - y.tv.n) % W32, BaseSize(x.ty);
      if diff % s != 0 then Error else Ok(Typed(Num(diff / s), T_ULONG))
  }

  /** The same when the result overwrites the first operand: its type is gone before its size is asked
      for. */
  function OverwrittenDifference(x: Typed, y: Typed, op: Op): Result<Typed>
    requires Sane(x) && Sane(y) && x.ty.ptr && y.ty.ptr
  {
    if x.ty != y.ty || op != OSub then Error
    else
      var diff, s := (x.tv.n - y.tv.n) % W32, BaseSize(T_ULONG);
      if diff % s != 0 then Error else Ok(Typed(Num(diff / s), T_ULONG))
  }

  /** `p -= q` is right exactly if the elements have the size of a long, the pointers are equal, or both
      ways of counting find the distance misaligned. */
  lemma OverwrittenDifferenceIsRight(x: Typed, y: Typed)
    requires Sane(x) && Sane(y) && x.ty.ptr && x.ty == y.ty
    ensures OverwrittenDifference(x, y, OSub) == DifferenceOf(x, y, OSub) <==>
      var diff, s := (x.tv.n - y.tv.n) % W32, BaseSize(x.ty);
      s == 4 || diff == 0 || (diff % s != 0 && diff % 4 != 0)
  {
  }

  /** Two pointers to characters that are 4 apart: `p -= q` gives 1. */
  lemma CharactersCountAsLongs()
    ensures var t := Type(UChar, true, false);
      && DifferenceOf(Typed(Num(12), t), Typed(Num(8), t), OSub) == Ok(Typed(Num(4), T_ULONG))
      && OverwrittenDifference(Typed(Num(12), t), Typed(Num(8), t), OSub) == Ok(Typed(Num(1), T_ULONG))
  {
  }

  /** A pointer moved by a number of elements. */
  function MovedOf(p: Typed, inc: Typed, op: Op): Result<Typed>
    requires Sane(p) && Sane(inc) && p.ty.ptr && !inc.ty.ptr
  {
    if op != OAdd && op != OSub then Error
    else
      match CastOf(inc, T_ULONG, false)
      case Error => Error
      case Ok(v) =>
        if v.tv.Num? then
          var step := v.tv.n * BaseSize(p.ty);
          Ok(Typed(Num((if op == OSub then p.tv.n - step else p.tv.n + step) % W32), p.ty))
        else Error
  }

  /** Operands a caller may pass: pointers, or scalar and floating point values on which the
      operator is defined once they have been promoted. */
  ghost predicate Operands(x: Typed, y: Typed, op: Op)
  {
    && (Numeric(x) || (Sane(x) && x.ty.ptr)) && (Numeric(y) || (Sane(y) && y.ty.ptr))
    && (!x.ty.ptr && !y.ty.ptr && !Comparison(op) && PromoteOf(x, y).Ok? ==>
          var (a, b) := PromoteOf(x, y).value;
          if b.tv.Num? then Defined(op, b.tv.n) else op.ODiv? ==> b.tv.r != 0.0)
  }

  /** The outcome of `cexpTVBinOp`. */
  function BinOpOf(x: Typed, y: Typed, op: Op): Result<Typed>
    requires Operands(x, y, op)
  {
    if Comparison(op) then CompareOf(x, y, op)
    else if x.ty.ptr && y.ty.ptr then DifferenceOf(x, y, op)
    else if x.ty.ptr then MovedOf(x, y, op)
    else if y.ty.ptr then (if op == OSub then Error else MovedOf(y, x, op))
    else
      match PromoteOf(x, y)
      case Error => Error
      case Ok(v) =>
        PromotePreserves(x, y);
        if IsScalar(v.0.ty) then ScalarOf(v.0, v.1, op) else FpOf(v.0, v.1, op)
  }

  /** Adding to a pointer and subtracting the pointer again gives the increment exactly if it does
      not wrap around the address space. */
  lemma AddThenSubtract(p: Typed, n: nat)
    requires Sane(p) && p.ty.ptr && n < W32
    ensures MovedOf(p, Typed(Num(n), T_ULONG), OAdd).Ok?
    ensures DifferenceOf(MovedOf(p, Typed(Num(n), T_ULONG), OAdd).value, p, OSub) == Ok(Typed(Num(n), T_ULONG))
       <==> n * BaseSize(p.ty) < W32
  {
    var s, q := BaseSize(p.ty), MovedOf(p, Typed(Num(n), T_ULONG), OAdd).value;
    ModSmall(n, W32);
    assert q.tv.n == (p.tv.n + n * s) % W32;
    var diff := (q.tv.n - p.tv.n) % W32;
    assert diff == (n * s) % W32 by {
      ModSum(p.tv.n + n * s, 0 - p.tv.n, W32);
    }
    if n * s < W32 {
      ModSmall(n * s, W32);
      ModUnique(n * s, s, n, 0);
      assert (n * s) / s == n by {
        DivUnique(n * s, s, n, 0);
      }
    } else if diff % s == 0 {
      TooSmall(diff, s, n);
    }
  }

  lemma TooSmall(diff: nat, s: nat, n: nat)
    requires s > 0 && diff < n * s
    ensures diff / s != n
  {
    DivMod(diff, s);
  }

  /** Moving a pointer there and back leaves it where it was, whatever wraps. */
  lemma ThereAndBack(p: Typed, n: nat)
    requires Sane(p) && p.ty.ptr && n < W32
    ensures MovedOf(p, Typed(Num(n), T_ULONG), OAdd).Ok?
    ensures MovedOf(MovedOf(p, Typed(Num(n), T_ULONG), OAdd).value, Typed(Num(n), T_ULONG), OSub) == Ok(p)
  {
    var step := n * BaseSize(p.ty);
    ModSmall(n, W32);
    ModSum(p.tv.n + step, 0 - step, W32);
    ModSmall(p.tv.n, W32);
  }

  /** On scalars of any two types the whole operator is integer arithmetic up to the width of the promoted
      type; it never fails. */
  lemma BinOpIsArithmetic(x: Typed, y: Typed, op: Op)
    requires Numeric(x) && Numeric(y) && Operands(x, y, op) && !Comparison(op)
    requires IsScalar(x.ty) && IsScalar(y.ty)
    ensures var ty := if SecondIsBig(x, y) then y.ty else x.ty;
      Defined(op, y.tv.n) && BinOpOf(x, y, op) == Ok(Typed(Num(Exact(x.tv.n, y.tv.n, op) % Width(ty)), ty))
  {
    PromotePreserves(x, y);
    var (a, b) := PromoteOf(x, y).value;
    assert a.tv.n == x.tv.n && b.tv.n == y.tv.n;
    ScalarIsModular(a, b, op);
  }

  // ---- the values in place

  class TypedVal {
    var tv: Value
    var ty: Type

    constructor (x: Typed)
      ensures View() == x
    {
      tv, ty := x.tv, x.ty;
    }

    function View(): Typed
      reads this
    {
      Typed(tv, ty)
    }
  }

  /** `cexpTypeCast`: overwrites value and type; on an error the value stays as it was. */
  method TypeCast(v: TypedVal, t: Type, force: bool) returns (ok: bool)
    requires Sane(v.View())
    modifies v
    ensures ok == CastOf(old(v.View()), t, force).Ok?
    ensures v.View() == if ok then CastOf(old(v.View()), t, force).value else old(v.View())
  {
    if v.ty.ptr && t.ptr {
      if !force && BaseSize(t) > BaseSize(v.ty) {
        return false;
      }
      v.ty := t;
      return true;
    }
    var c := Convert(v.View(), t);
    if c.Error? {
      return false;
    }
    if !force && !Fits(v.View(), t) {
      return false;
    }
    v.tv, v.ty := c.value, t;
    return true;
  }

  /** `cexpTypePromote`. */
  method TypePromote(a: TypedVal, b: TypedVal) returns (ok: bool)
    requires a != b && Sane(a.View()) && Sane(b.View())
    modifies a, b
    ensures ok == PromoteOf(old(a.View()), old(b.View())).Ok?
    ensures ok ==> (a.View(), b.View()) == PromoteOf(old(a.View()), old(b.View())).value
  {
    if a.ty.ptr || b.ty.ptr {
      return false;
    }
    var small, big := a, b;
    if IsFp(a.ty) != IsFp(b.ty) {
      if !IsFp(b.ty) {
        small, big := b, a;
      }
    } else if BaseSize(a.ty) > BaseSize(b.ty) {
      small, big := b, a;
    }
    ok := TypeCast(small, big.ty, false);
  }

  /** `compare`, with copies of the operands. */
  method Compare(y: TypedVal, x1: TypedVal, x2: TypedVal, op: Op) returns (ok: bool)
    requires y != x1 && y != x2 && Sane(x1.View()) && Sane(x2.View()) && Comparison(op)
    modifies y
    ensures ok == CompareOf(x1.View(), x2.View(), op).Ok?
    ensures ok ==> y.View() == CompareOf(x1.View(), x2.View(), op).value
  {
    var f := IsFp(x1.ty) || IsFp(x2.ty);
    if f && (x1.ty.ptr || x2.ty.ptr) {
      return false;
    }
    y.ty := T_ULONG;
    var xx1 := new TypedVal(x1.View());
    var xx2 := new TypedVal(x2.View());
    ok := TypeCast(xx1, if f then T_DOUBLE else T_ULONG, false);
    if ok {
      ok := TypeCast(xx2, if f then T_DOUBLE else T_ULONG, false);
    }
    if ok {
      y.tv := Num(if Holds(Number(xx1.View()), op, Number(xx2.View())) then 1 else 0);
    }
  }

  /** The operators on unsigned longs. */
  method LongOp(x: nat, y: nat, op: Op) returns (r: nat)
    requires !Comparison(op) && Defined(op, y)
    ensures r == Exact(x, y, op) % W32
  {
    match op {
      case OAdd => r := (x + y) % W32;
      case OSub => r := (x - y) % W32;
      case OMul => r := x * y % W32;
      case ODiv => r := x / y % W32;
      case OMod => r := x % y % W32;
      case OShL => r := x * Pow2(y) % W32;
      case OShR => r := x / Pow2(y) % W32;
      case OAnd | OXor | OOr => r := Bitwise(op, x, y, 32) % W32;
    }
  }

  /** The operators on floating point values, before rounding. */
  method RealOp(x: real, y: real, op: Op) returns (ok: bool, r: real)
    requires op.ODiv? ==> y != 0.0
    ensures ok == ExactFp(x, y, op).Ok? && (ok ==> r == ExactFp(x, y, op).value)
  {
    ok, r := true, 0.0;
    match op {
      case OAdd => r := x + y;
      case OSub => r := x - y;
      case OMul => r := x * y;
      case ODiv => r := x / y;
      case _ => ok := false;
    }
  }

  /** `binop`: both operands are of the same type and may be overwritten. */
  method BinOp(y: TypedVal, x1: TypedVal, x2: TypedVal, op: Op) returns (ok: bool)
    requires y != x1 && y != x2 && x1 != x2 && Numeric(x1.View()) && Numeric(x2.View()) && x1.ty == x2.ty
    requires !Comparison(op) && if IsScalar(x1.ty) then Defined(op, x2.tv.n) else op.ODiv? ==> x2.tv.r != 0.0
    modifies y, x1, x2
    ensures var r := if IsScalar(old(x1.ty)) then ScalarOf(old(x1.View()), old(x2.View()), op)
                     else FpOf(old(x1.View()), old(x2.View()), op);
      ok == r.Ok? && (ok ==> y.View() == r.value)
  {
    if IsScalar(x1.ty) {
      var res := x1.ty;
      CastPreserves(x1.View(), T_ULONG);
      CastPreserves(x2.View(), T_ULONG);
      ok := TypeCast(x1, T_ULONG, false);
      ok := TypeCast(x2, T_ULONG, false);
      var n := LongOp(x1.tv.n, x2.tv.n, op);
      y.tv, y.ty := Num(n), T_ULONG;
      ok := TypeCast(y, res, true);
      return;
    }
    y.ty := x1.ty;
    var r;
    ok, r := RealOp(x1.tv.r, x2.tv.r, op);
    if ok {
      y.tv := Fp(Round(r, Digits(y.ty)));
    }
  }

  /** `cexpTVBinOp`.  The result may overwrite an operand, as it does for `+=` and its kin; comparisons are
      never asked for that way. */
  method TVBinOp(y: TypedVal, x1: TypedVal, x2: TypedVal, op: Op) returns (ok: bool)
    requires Operands(x1.View(), x2.View(), op) && (Comparison(op) ==> y != x1 && y != x2)
    modifies y
    ensures var a, b := old(x1.View()), old(x2.View());
      var r := if y == x1 && a.ty.ptr && b.ty.ptr then OverwrittenDifference(a, b, op) else BinOpOf(a, b, op);
      ok == r.Ok? && (ok ==> y.View() == r.value)
  {
    if Comparison(op) {
      ok := Compare(y, x1, x2, op);
      return;
    }
    if x1.ty.ptr && x2.ty.ptr {
      ok := SubtractPointers(y, x1, x2, op);
      return;
    }
    if x1.ty.ptr || x2.ty.ptr {
      if !x1.ty.ptr && op == OSub {
        return false;
      }
      ok := MovePointer(y, if x1.ty.ptr then x1 else x2, if x1.ty.ptr then x2 else x1, op);
      return;
    }
    ok := PromoteAndApply(y, x1, x2, op);
  }

  /** The difference of two pointers in `cexpTVBinOp`. */
  method SubtractPointers(y: TypedVal, x1: TypedVal, x2: TypedVal, op: Op) returns (ok: bool)
    requires Sane(x1.View()) && Sane(x2.View()) && x1.ty.ptr && x2.ty.ptr
    modifies y
    ensures var a, b := old(x1.View()), old(x2.View());
      var r := if y == x1 then OverwrittenDifference(a, b, op) else DifferenceOf(a, b, op);
      ok == r.Ok? && (ok ==> y.View() == r.value)
  {
    if x1.ty != x2.ty || op != OSub {
      return false;
    }
    y.ty := T_ULONG;
    var diff := (x1.tv.n - x2.tv.n) % W32;
    var s := BaseSize(x1.ty);
    if diff % s != 0 {
      return false;
    }
    y.tv := Num(diff / s);
    return true;
  }

  /** "Normal" arithmetic: copies of the operands are promoted. */
  method PromoteAndApply(y: TypedVal, x1: TypedVal, x2: TypedVal, op: Op) returns (ok: bool)
    requires Operands(x1.View(), x2.View(), op) && !Comparison(op) && !x1.ty.ptr && !x2.ty.ptr
    modifies y
    ensures var r := BinOpOf(old(x1.View()), old(x2.View()), op);
      ok == r.Ok? && (ok ==> y.View() == r.value)
  {
    PromotePreserves(x1.View(), x2.View());
    var v := new TypedVal(x1.View());
    var w := new TypedVal(x2.View());
    ok := TypePromote(v, w);
    if ok {
      ok := BinOp(y, v, w, op);
    }
  }

  /** The pointer arithmetic of `cexpTVBinOp`. */
  method MovePointer(y: TypedVal, p: TypedVal, inc: TypedVal, op: Op) returns (ok: bool)
    requires Sane(p.View()) && p.ty.ptr && Numeric(inc.View()) && !Comparison(op)
    modifies y
    ensures ok == MovedOf(old(p.View()), old(inc.View()), op).Ok?
    ensures ok ==> y.View() == MovedOf(old(p.View()), old(inc.View()), op).value
  {
    if op != OAdd && op != OSub {
      return false;
    }
    var v := new TypedVal(inc.View());
    CastIsSaneIf(inc.View(), T_ULONG);
    ok := TypeCast(v, T_ULONG, false);
    if !ok {
      return false;
    }
    var step := v.tv.n * BaseSize(p.ty);
    y.tv, y.ty := Num((if op == OSub then p.tv.n - step else p.tv.n + step) % W32), p.ty;
    return true;
  }
}
