/** What the operators on typed values give, in numbers: results and types of comparisons, arithmetic,
    pointer steps and differences, with the sizes of the types written out. */
module TypedResults {
  import opened Arith
  import opened Rounding
  import opened TypedValues

  /** Elements of `char` and `void` pointers have 1 byte. */
  function Elem(b: Base): nat
  {
    match b
    case Void | UChar => 1
    case UShort => 2
    case UInt | ULong | Float => 4
    case Double => 8
  }

  function Room(b: Base): nat
  {
    match b
    case UChar => 0x100
    case UShort => 0x1_0000
    case _ => 0x1_0000_0000
  }

  // ---- comparison

  /** A comparison of numbers of any types is 1 if it holds and 0 if it does not, as an `unsigned long`. */
  lemma ComparesNumbers(x: Typed, y: Typed, op: Op)
    requires Numeric(x) && Numeric(y) && Comparison(op)
    ensures BinOpOf(x, y, op).Ok?
    ensures var a, b, r := Number(x), Number(y), BinOpOf(x, y, op).value;
      && r.ty == Type(ULong, false, false) && (r.tv == Num(0) || r.tv == Num(1))
      && (op.OLt? ==> (r.tv == Num(1) <==> a < b)) && (op.OLe? ==> (r.tv == Num(1) <==> a <= b))
      && (op.OEq? ==> (r.tv == Num(1) <==> a == b)) && (op.ONe? ==> (r.tv == Num(1) <==> a != b))
      && (op.OGe? ==> (r.tv == Num(1) <==> a >= b)) && (op.OGt? ==> (r.tv == Num(1) <==> a > b))
  {
    CompareIsExact(x, y, op);
  }

  /** Pointers are compared as addresses, also with integers; with floating point numbers not at all. */
  lemma ComparesAddresses(x: Typed, y: Typed, op: Op)
    requires Sane(x) && Sane(y) && Comparison(op) && x.ty.ptr && (y.ty.ptr || Numeric(y))
    ensures CompareOf(x, y, op).Ok? <==> !IsFp(y.ty)
    ensures !IsFp(y.ty) ==> CompareOf(x, y, op) == Ok(Truth(Holds(x.tv.n as real, op, y.tv.n as real)))
  {
    if !IsFp(y.ty) {
      ModSmall(x.tv.n, W32);
      ModSmall(y.tv.n, W32);
      AddressAsLong(x);
      AddressAsLong(y);
    }
  }

  lemma AddressAsLong(x: Typed)
    requires Sane(x) && !IsFp(x.ty) && (x.ty.ptr || IsScalar(x.ty))
    ensures CastOf(x, T_ULONG, false) == Ok(Typed(x.tv, T_ULONG))
  {
    ModSmall(x.tv.n, W32);
  }

  // ---- arithmetic

  /** The type both operands get: a floating point type if there is one, the larger of two, and that of
      the second operand if they are of one size. */
  function Common(x: Base, y: Base): Base
  {
    if x == Double || y == Double then Double
    else if x == Float || y == Float then Float
    else if Elem(x) <= Elem(y) then y else x
  }

  lemma PromotesTo(x: Typed, y: Typed)
    requires Numeric(x) && Numeric(y) && PromoteOf(x, y).Ok?
    ensures PromoteOf(x, y).value.0.ty.base == PromoteOf(x, y).value.1.ty.base == Common(x.ty.base, y.ty.base)
  {
    PromotePreserves(x, y);
    PromoteFails(x, y);
  }

  lemma PromotedWidth(x: Typed, y: Typed)
    requires IsScalar(x.ty) && IsScalar(y.ty)
    ensures var ty := if SecondIsBig(x, y) then y.ty else x.ty;
      ty.base == Common(x.ty.base, y.ty.base) && Width(ty) == Room(Common(x.ty.base, y.ty.base))
  {
  }

  /** Each operator on scalars is what its sign says, up to the size of the common type. */
  lemma ScalarOperators(x: Typed, y: Typed, op: Op)
    requires Numeric(x) && Numeric(y) && IsScalar(x.ty) && IsScalar(y.ty) && !Comparison(op) && Operands(x, y, op)
    ensures BinOpOf(x, y, op).Ok? && BinOpOf(x, y, op).value.ty.base == Common(x.ty.base, y.ty.base)
    ensures var a, b, w, v := x.tv.n, y.tv.n, Room(Common(x.ty.base, y.ty.base)), BinOpOf(x, y, op).value.tv;
      && (op.OAdd? ==> v == Num((a + b) % w)) && (op.OSub? ==> v == Num((a - b) % w))
      && (op.OMul? ==> v == Num(a * b % w))
      && (op.ODiv? ==> b != 0 && v == Num(a / b % w)) && (op.OMod? ==> b != 0 && v == Num(a % b % w))
      && (op.OShL? ==> b < 32 && v == Num(a * Pow2(b) % w)) && (op.OShR? ==> b < 32 && v == Num(a / Pow2(b) % w))
  {
    BinOpIsArithmetic(x, y, op);
    PromotedWidth(x, y);
  }

  lemma {:induction false} SameBits(r: nat, s: nat, bits: nat)
    requires r < Pow2(bits) && s < Pow2(bits) && forall k :: 0 <= k < bits ==> (Bit(r, k) <==> Bit(s, k))
    ensures r == s
  {
    if bits > 0 {
      assert Bit(r, 0) <==> Bit(s, 0);
      forall k | 0 <= k < bits - 1 ensures Bit(r / 2, k) <==> Bit(s / 2, k) {
        assert Bit(r, k + 1) <==> Bit(s, k + 1);
      }
      SameBits(r / 2, s / 2, bits - 1);
    }
  }

  lemma {:induction false} BitwiseIsShort(op: Op, x: nat, y: nat, bits: nat)
    requires op.OAnd? || op.OXor? || op.OOr?
    ensures Bitwise(op, x, y, bits) < Pow2(bits)
  {
    if bits > 0 {
      BitwiseIsShort(op, x / 2, y / 2, bits - 1);
    }
  }

  predicate BitIs(op: Op, x: nat, y: nat, v: nat, k: nat)
  {
    Bit(v, k) <==> if op.OAnd? then Bit(x, k) && Bit(y, k)
                   else if op.OXor? then Bit(x, k) != Bit(y, k) else Bit(x, k) || Bit(y, k)
  }

  lemma OnlyOneHasTheBits(op: Op, x: nat, y: nat, v: nat, bits: nat)
    requires (op.OAnd? || op.OXor? || op.OOr?) && v < Pow2(bits) && forall k :: 0 <= k < bits ==> BitIs(op, x, y, v, k)
    ensures Bitwise(op, x, y, bits) == v
  {
    BitwiseIsShort(op, x, y, bits);
    forall k | 0 <= k < bits ensures Bit(Bitwise(op, x, y, bits), k) <==> Bit(v, k) {
      BitwiseBits(op, x, y, bits, k);
      assert BitIs(op, x, y, v, k);
    }
    SameBits(Bitwise(op, x, y, bits), v, bits);
  }

  lemma BitsOfResult(x: Typed, y: Typed, op: Op)
    requires Numeric(x) && Numeric(y) && IsScalar(x.ty) && IsScalar(y.ty) && (op.OAnd? || op.OXor? || op.OOr?)
    requires Operands(x, y, op)
    ensures BinOpOf(x, y, op).Ok?
    ensures BinOpOf(x, y, op).value.tv == Num(Bitwise(op, x.tv.n, y.tv.n, 32) % Room(Common(x.ty.base, y.ty.base)))
  {
    BinOpIsArithmetic(x, y, op);
    PromotedWidth(x, y);
  }

  /** And, exclusive or and or work bit by bit: a number of 32 bits that has the bits they say is the one
      the result is made of. */
  lemma BitOperators(x: Typed, y: Typed, op: Op, v: nat)
    requires Numeric(x) && Numeric(y) && IsScalar(x.ty) && IsScalar(y.ty) && (op.OAnd? || op.OXor? || op.OOr?)
    requires Operands(x, y, op) && v < 0x1_0000_0000 && forall k :: 0 <= k < 32 ==> BitIs(op, x.tv.n, y.tv.n, v, k)
    ensures BinOpOf(x, y, op).Ok?
    ensures BinOpOf(x, y, op).value.tv == Num(v % Room(Common(x.ty.base, y.ty.base)))
  {
    BitsOfResult(x, y, op);
    Powers();
    OnlyOneHasTheBits(op, x.tv.n, y.tv.n, v, 32);
  }

  // ---- pointers

  /** Adding and subtracting an integer moves a pointer by elements, in either order of the operands for a
      sum; nothing else can be done with a pointer and a number. */
  lemma PointerSteps(p: Typed, n: Typed, op: Op)
    requires Sane(p) && p.ty.ptr && Numeric(n) && !Comparison(op)
    ensures IsScalar(n.ty) ==>
      var step := n.tv.n * Elem(p.ty.base);
      && (op.OAdd? ==> BinOpOf(p, n, op) == Ok(Typed(Num((p.tv.n + step) % 0x1_0000_0000), p.ty)))
      && (op.OSub? ==> BinOpOf(p, n, op) == Ok(Typed(Num((p.tv.n - step) % 0x1_0000_0000), p.ty)))
    ensures op.OAdd? ==> BinOpOf(n, p, op) == BinOpOf(p, n, op)
    ensures !(op.OAdd? || op.OSub?) || IsFp(n.ty) ==> BinOpOf(p, n, op).Error?
    ensures !op.OAdd? || IsFp(n.ty) ==> BinOpOf(n, p, op).Error?
  {
    if IsScalar(n.ty) {
      AddressAsLong(n);
    }
  }

  /** The difference of pointers of one type counts elements, unless it is no whole number of them. */
  lemma PointerDifferences(p: Typed, q: Typed, op: Op)
    requires Sane(p) && Sane(q) && p.ty.ptr && q.ty.ptr && !Comparison(op)
    ensures BinOpOf(p, q, op).Ok? <==>
      op.OSub? && p.ty == q.ty && (p.tv.n - q.tv.n) % 0x1_0000_0000 % Elem(p.ty.base) == 0
    ensures BinOpOf(p, q, op).Ok? ==>
      && BinOpOf(p, q, op).value.ty == T_ULONG && BinOpOf(p, q, op).value.tv.Num?
      && BinOpOf(p, q, op).value.tv.n * Elem(p.ty.base) == (p.tv.n - q.tv.n) % 0x1_0000_0000
  {
    if op.OSub? && p.ty == q.ty {
      DivMod((p.tv.n - q.tv.n) % W32, Elem(p.ty.base));
    }
  }

  /** Pointers keep their address under a cast to a pointer, which is refused exactly if it is not forced and
      the new elements are larger. */
  lemma PointerCasts(x: Typed, t: Type, force: bool)
    requires Sane(x) && x.ty.ptr && t.ptr
    ensures CastOf(x, t, force) ==
      if force || Elem(t.base) <= Elem(x.ty.base) then Ok(Typed(x.tv, t)) else Error
  {
  }

  lemma NotHeldIsRounded(n: nat, p: nat)
    requires p > 0 && !HeldNat(n, p)
    ensures Round(n as real, p) != n as real
  {
    HeldInteger(n, p);
    RoundIsExact(n as real, p);
  }

  lemma ForcedOrNot(x: Typed)
    requires Sane(x) && x.ty.ptr
    ensures CastOf(x, T_FLOAT, false) == Ok(Typed(Fp(Round(x.tv.n as real, 24)), T_FLOAT))
  {
  }

  /** `fits` looks at integers only: an address turns into a float without complaint although a float cannot
      hold it. */
  lemma PointerLosesDigits(t: Type)
    requires t.ptr
    ensures CastOf(Typed(Num(0x100_0001), t), T_FLOAT, false).Ok?
    ensures Number(CastOf(Typed(Num(0x100_0001), t), T_FLOAT, false).value) != 0x100_0001 as real
  {
    Powers();
    OddIsNotHeld(0x100_0001, 24);
    NotHeldIsRounded(0x100_0001, 24);
    ForcedOrNot(Typed(Num(0x100_0001), t));
  }

  lemma BigPower()
    ensures Pow2(53) == 0x20_0000_0000_0000
  {
    Powers();
    EightMore(32);
    EightMore(40);
    assert Pow2(53) == 2 * Pow2(52) && Pow2(52) == 2 * Pow2(51) && Pow2(51) == 2 * Pow2(50);
    assert Pow2(50) == 2 * Pow2(49) && Pow2(49) == 2 * Pow2(48);
  }

  lemma TwiceIsHeld(n: nat, p: nat)
    requires n < Pow2(p)
    ensures Held((2 * n) as real, p)
  {
    assert Pow2(1) == 2;
    assert IsNatParts(2 * n, p, n, 1);
    HeldInteger(2 * n, p);
  }

  /** Doubles have 53 digits: 2^53 and 1 are doubles, 2^53+1 is none. */
  lemma DoublesHave53Digits()
    ensures Sane(Typed(Fp(9007199254740992.0), T_DOUBLE)) && Sane(Typed(Fp(1.0), T_DOUBLE))
    ensures !Sane(Typed(Fp(9007199254740993.0), T_DOUBLE))
  {
    BigPower();
    TwiceIsHeld(0x10_0000_0000_0000, 53);
    OddIsNotHeld(0x20_0000_0000_0001, 53);
    HeldInteger(0x20_0000_0000_0001, 53);
    ShortIsHeld(1, 53);
    HeldInteger(1, 53);
    assert 0x20_0000_0000_0001 as real == 9007199254740993.0 && (2 * 0x10_0000_0000_0000) as real == 9007199254740992.0;
  }

  /** So adding 1 to 2^53 gives something else. */
  lemma OneIsLost(x: Typed, y: Typed)
    requires Sane(x) && Sane(y) && x.ty == y.ty == T_DOUBLE && x.tv == Fp(9007199254740992.0) && y.tv == Fp(1.0)
    ensures FpOf(x, y, OAdd).Ok? && Number(FpOf(x, y, OAdd).value) != 9007199254740993.0
  {
    DoublesHave53Digits();
    FpIsNearest(x, y, OAdd, 1.0);
  }
}
