/**
 * The VM's 64-bit scalar operations (the `vm_*_i64` functions of
 * iree/vm/ops.h) and the conversions between 32- and 64-bit values.
 *
 * Operands and results are `int64`, except that conditions, comparison
 * results and the 32-bit side of a conversion are `int32`. Where C converts
 * to `uint64_t` the model calls `ToU64`; where it converts back to `int64_t`
 * it calls `ToI64`. The cases C leaves undefined (division by zero,
 * `INT64_MIN / -1`, shift amounts outside [0, 64)) are preconditions.
 */
module VmOpsI64 {
  import opened Ints
  import opened Bits
  import VmOps

  //===------------------------------------------------------------------===//
  // Conditional assignment
  //===------------------------------------------------------------------===//

  /** C's `condition ? true_value : false_value` with a 32-bit condition. */
  function SelectI64(condition: int32, trueValue: int64, falseValue: int64): (r: int64)
    ensures condition != 0 ==> r == trueValue
    ensures condition == 0 ==> r == falseValue
  {
    if condition != 0 then trueValue else falseValue
  }

  //===------------------------------------------------------------------===//
  // Native integer arithmetic
  //===------------------------------------------------------------------===//

  /** Two's-complement addition: the exact sum when it fits, otherwise the sum modulo 2^64. */
  function AddI64(lhs: int64, rhs: int64): (r: int64)
    ensures Congruent(r, lhs + rhs, TWO64)
    ensures -TWO63 <= lhs + rhs < TWO63 ==> r == lhs + rhs
  {
    ToI64(lhs + rhs)
  }

  function SubI64(lhs: int64, rhs: int64): (r: int64)
    ensures Congruent(r, lhs - rhs, TWO64)
    ensures -TWO63 <= lhs - rhs < TWO63 ==> r == lhs - rhs
  {
    ToI64(lhs - rhs)
  }

  function MulI64(lhs: int64, rhs: int64): (r: int64)
    ensures Congruent(r, lhs * rhs, TWO64)
    ensures -TWO63 <= lhs * rhs < TWO63 ==> r == lhs * rhs
  {
    ToI64(lhs * rhs)
  }

  /** Subtraction undoes addition and the converse, overflow included. */
  lemma AddSubInverseI64(a: int64, b: int64)
    ensures SubI64(AddI64(a, b), b) == a
    ensures AddI64(SubI64(a, b), b) == a
  {
    SignedAddCancel(a, b, TWO64);
  }

  /** Wrapping addition and multiplication are associative, and multiplication distributes over addition. */
  lemma RingLawsI64(a: int64, b: int64, c: int64)
    ensures AddI64(AddI64(a, b), c) == AddI64(a, AddI64(b, c))
    ensures MulI64(MulI64(a, b), c) == MulI64(a, MulI64(b, c))
    ensures MulI64(a, AddI64(b, c)) == AddI64(MulI64(a, b), MulI64(a, c))
  {
    SignedAddAssociative(a, b, c, TWO64);
    SignedMulAssociative(a, b, c, TWO64);
    SignedMulDistributes(a, b, c, TWO64);
  }

  /** C's signed `/`: the quotient rounded toward zero. */
  function DivI64S(lhs: int64, rhs: int64): (r: int64)
    requires rhs != 0 && !(lhs == INT64_MIN && rhs == -1)
    ensures Abs(r * rhs) <= Abs(lhs) < Abs(r * rhs) + Abs(rhs)
    ensures r == 0 || (r < 0 <==> (lhs < 0) != (rhs < 0))
  {
    TruncDivInRange(lhs, rhs, TWO63);
    TruncDivRem(lhs, rhs);
    TruncDiv(lhs, rhs)
  }

  /** C's signed `%`: smaller than the divisor in magnitude, zero or of the sign of the dividend. */
  function RemI64S(lhs: int64, rhs: int64): (r: int64)
    requires rhs != 0 && !(lhs == INT64_MIN && rhs == -1)
    ensures Abs(r) < Abs(rhs)
    ensures r == 0 || (r < 0 <==> lhs < 0)
  {
    TruncDivInRange(lhs, rhs, TWO63);
    TruncDivRem(lhs, rhs);
    TruncRem(lhs, rhs)
  }

  /** Signed quotient and remainder recombine to the dividend. */
  lemma DivRemI64S(lhs: int64, rhs: int64)
    requires rhs != 0 && !(lhs == INT64_MIN && rhs == -1)
    ensures lhs == DivI64S(lhs, rhs) * rhs + RemI64S(lhs, rhs)
  {
    TruncDivRem(lhs, rhs);
  }

  /** The properties of the signed quotient and remainder determine them. */
  lemma DivRemI64SUnique(lhs: int64, rhs: int64, q: int, r: int)
    requires rhs != 0 && !(lhs == INT64_MIN && rhs == -1)
    requires lhs == q * rhs + r && Abs(r) < Abs(rhs) && (r == 0 || (r < 0 <==> lhs < 0))
    ensures q == DivI64S(lhs, rhs) && r == RemI64S(lhs, rhs)
  {
    TruncDivRemUnique(lhs, rhs, q, r);
  }

  /** A non-zero `int64` is non-zero as a `uint64_t`. */
  lemma NonZeroUnsigned64(x: int64)
    requires x != 0
    ensures ToU64(x) != 0
  {
    SignedUnsignedRoundTrip64(x, 0);
  }

  /** C's `/` on both operands read as `uint64_t`: the floor of their quotient. */
  function DivI64U(lhs: int64, rhs: int64): (r: int64)
    requires rhs != 0
    ensures ToU64(r) * ToU64(rhs) <= ToU64(lhs) < (ToU64(r) + 1) * ToU64(rhs)
  {
    NonZeroUnsigned64(rhs);
    var q := ToU64(lhs) / ToU64(rhs);
    FloorDiv(ToU64(lhs), ToU64(rhs));
    DivBound(ToU64(lhs), ToU64(rhs));
    SignedUnsignedRoundTrip64(0, q);
    ToI64(q)
  }

  /** C's `%` on both operands read as `uint64_t`: below the divisor. */
  function RemI64U(lhs: int64, rhs: int64): (r: int64)
    requires rhs != 0
    ensures 0 <= ToU64(r) < ToU64(rhs)
  {
    NonZeroUnsigned64(rhs);
    var m := ToU64(lhs) % ToU64(rhs);
    SignedUnsignedRoundTrip64(0, m);
    ToI64(m)
  }

  /** Unsigned quotient and remainder recombine to the dividend, all read as `uint64_t`. */
  lemma DivRemI64U(lhs: int64, rhs: int64)
    requires rhs != 0
    ensures ToU64(lhs) == ToU64(DivI64U(lhs, rhs)) * ToU64(rhs) + ToU64(RemI64U(lhs, rhs))
  {
    NonZeroUnsigned64(rhs);
    var u, v := ToU64(lhs), ToU64(rhs);
    DivBound(u, v);
    SignedUnsignedRoundTrip64(0, u / v);
    SignedUnsignedRoundTrip64(0, u % v);
    EuclidNat(u, v);
  }

  //===------------------------------------------------------------------===//
  // Bitwise operations
  //===------------------------------------------------------------------===//

  /** Bit `i` of the two's-complement representation of `x`. */
  function BitI64(x: int64, i: nat): bool
  {
    Bit(ToU64(x), i)
  }

  /** `op` applied to the 64-bit patterns of `lhs` and `rhs`, as C's `&`, `|`, `^` do. */
  function BitwiseI64(op: BitOp, lhs: int64, rhs: int64): int64
  {
    ToI64(Bitwise(op, ToU64(lhs), ToU64(rhs), 64))
  }

  /** Reading a 64-bit pattern as `int64_t` and back as `uint64_t` gives the pattern. */
  lemma Pattern64(v: nat)
    requires v < Pow2(64)
    ensures ToU64(ToI64(v)) == v
  {
    Pow2Constants();
    SignedUnsignedRoundTrip64(0, v);
  }

  /** Each bit of the result is `op` of the operands' bits. */
  lemma BitwiseI64Bits(op: BitOp, lhs: int64, rhs: int64)
    ensures forall i: nat | i < 64 :: BitI64(BitwiseI64(op, lhs, rhs), i) == ApplyBit(op, BitI64(lhs, i), BitI64(rhs, i))
  {
    Pattern64(Bitwise(op, ToU64(lhs), ToU64(rhs), 64));
    forall i: nat | i < 64
      ensures BitI64(BitwiseI64(op, lhs, rhs), i) == ApplyBit(op, BitI64(lhs, i), BitI64(rhs, i))
    {
      BitwiseBit(op, ToU64(lhs), ToU64(rhs), 64, i);
    }
  }

  /** `~operand`: every bit inverted, which in two's complement is `-operand - 1`. */
  function NotI64(operand: int64): (r: int64)
    ensures r == -(operand as int) - 1
    ensures forall i: nat | i < 64 :: BitI64(r, i) == !BitI64(operand, i)
  {
    ComplementI64(operand);
    ToI64(Complement(ToU64(operand), 64))
  }

  lemma ComplementI64(x: int64)
    ensures ToI64(Complement(ToU64(x), 64)) == -(x as int) - 1
    ensures forall i: nat | i < 64 :: BitI64(ToI64(Complement(ToU64(x), 64)), i) == !BitI64(x, i)
  {
    var c := Complement(ToU64(x), 64);
    ComplementValue64(x);
    SignedUnique(c, -(x as int) - 1, TWO64);
    Pattern64(c);
    forall i: nat | i < 64
      ensures BitI64(ToI64(c), i) == !BitI64(x, i)
    {
      ComplementBit(ToU64(x), 64, i);
    }
  }

  lemma ComplementValue64(x: int64)
    ensures Complement(ToU64(x), 64) == TWO64 - 1 - ToU64(x)
    ensures Congruent(Complement(ToU64(x), 64), -(x as int) - 1, TWO64)
  {
    var u := ToU64(x);
    Pow2Constants();
    ComplementValue(u, 64);
    CongruentMultiple(-1, 1, TWO64);
    CongruentSub(TWO64 - 1, -1, u, x, TWO64);
  }

  function AndI64(lhs: int64, rhs: int64): (r: int64)
    ensures forall i: nat | i < 64 :: BitI64(r, i) == (BitI64(lhs, i) && BitI64(rhs, i))
  {
    BitwiseI64Bits(And, lhs, rhs);
    BitwiseI64(And, lhs, rhs)
  }

  function OrI64(lhs: int64, rhs: int64): (r: int64)
    ensures forall i: nat | i < 64 :: BitI64(r, i) == (BitI64(lhs, i) || BitI64(rhs, i))
  {
    BitwiseI64Bits(Or, lhs, rhs);
    BitwiseI64(Or, lhs, rhs)
  }

  function XorI64(lhs: int64, rhs: int64): (r: int64)
    ensures forall i: nat | i < 64 :: BitI64(r, i) == (BitI64(lhs, i) != BitI64(rhs, i))
  {
    BitwiseI64Bits(Xor, lhs, rhs);
    BitwiseI64(Xor, lhs, rhs)
  }

  /** Xor with the same value twice is the identity; and, or and xor commute. */
  lemma XorI64Twice(a: int64, b: int64)
    ensures XorI64(XorI64(a, b), b) == a
    ensures AndI64(a, b) == AndI64(b, a) && OrI64(a, b) == OrI64(b, a) && XorI64(a, b) == XorI64(b, a)
  {
    var x := Bitwise(Xor, ToU64(a), ToU64(b), 64);
    Pattern64(x);
    Pow2Constants();
    XorTwice(ToU64(a), ToU64(b), 64);
    SignedUnsignedRoundTrip64(a, 0);
    BitwiseCommutes(And, ToU64(a), ToU64(b), 64);
    BitwiseCommutes(Or, ToU64(a), ToU64(b), 64);
    BitwiseCommutes(Xor, ToU64(a), ToU64(b), 64);
  }

  /** De Morgan's law: the complement of a conjunction is the disjunction of the complements. */
  lemma DeMorganI64(a: int64, b: int64)
    ensures NotI64(AndI64(a, b)) == OrI64(NotI64(a), NotI64(b))
  {
    var ua, ub := ToU64(a), ToU64(b);
    var c := Bitwise(And, ua, ub, 64);
    Pattern64(c);
    Pattern64(Complement(ua, 64));
    Pattern64(Complement(ub, 64));
    DeMorgan(ua, ub, 64);
  }

  /** A value and its complement share no bit, and together they set every bit. */
  lemma ComplementLawsI64(a: int64)
    ensures AndI64(a, NotI64(a)) == 0
    ensures OrI64(a, NotI64(a)) == -1
  {
    var ua := ToU64(a);
    var ca := Complement(ua, 64);
    Pow2Constants();
    Pattern64(ca);
    assert ToU64(NotI64(a)) == ca;
    ComplementLaws(ua, 64);
    assert AndI64(a, NotI64(a)) == 0 by {
      assert AndI64(a, NotI64(a)) == ToI64(0);
    }
    assert OrI64(a, NotI64(a)) == -1 by {
      assert OrI64(a, NotI64(a)) == ToI64(TWO64 - 1);
      assert Congruent(TWO64 - 1, -1, TWO64);
      SignedCongruent(TWO64 - 1, -1, TWO64);
    }
  }

  //===------------------------------------------------------------------===//
  // Casting and type conversion/emulation
  //===------------------------------------------------------------------===//

  /** The low 32 bits of `operand`, read as `int32_t`: congruent modulo 2^32, the identity on the `int32` range. */
  function TruncI64I32(operand: int64): (r: int32)
    ensures Congruent(r, operand, TWO32)
    ensures -TWO31 <= operand < TWO31 ==> r == operand
  {
    LowWord(operand);
    ToI32(ToU32(ToU64(operand)))
  }

  /** Going through `uint64_t` and then `uint32_t` keeps the value modulo 2^32. */
  lemma LowWord(x: int64)
    ensures Congruent(ToI32(ToU32(ToU64(x))), x, TWO32)
    ensures -TWO31 <= x < TWO31 ==> ToI32(ToU32(ToU64(x))) == x
  {
    var u64 := ToU64(x);
    var u32 := ToU32(u64);
    CongruentNarrow(u64, x, TWO32, TWO32);
    CongruentTrans(u32, u64, x, TWO32);
    CongruentTrans(ToI32(u32), u32, x, TWO32);
    SignedCongruent(u32, x, TWO32);
  }

  /** Sign extension: the same value, now as an `int64_t`. */
  function ExtI32I64S(operand: int32): int64
  {
    operand
  }

  /** Zero extension: the `uint32_t` pattern of `operand`, in [0, 2^32 - 1]. */
  function ExtI32I64U(operand: int32): (r: int64)
    ensures 0 <= r < TWO32 && Congruent(r, operand, TWO32)
    ensures operand >= 0 ==> r == operand
  {
    ToU32(operand)
  }

  /** The two extensions agree on non-negative operands; zero extension adds 2^32 to a negative one. */
  lemma ExtI32I64SignedUnsigned(x: int32)
    ensures x >= 0 ==> ExtI32I64U(x) == ExtI32I64S(x)
    ensures x < 0 ==> ExtI32I64U(x) == ExtI32I64S(x) + TWO32
  {
    if x < 0 {
      CongruentMultiple(x, 1, TWO32);
      UnsignedUnique(x, x + TWO32, TWO32);
    }
  }

  /** Truncation undoes either extension. */
  lemma TruncExtI32I64(x: int32)
    ensures TruncI64I32(ExtI32I64S(x)) == x
    ensures TruncI64I32(ExtI32I64U(x)) == x
  {
    var e := ExtI32I64U(x);
    var t := TruncI64I32(e);
    CongruentTrans(t, e, x, TWO32);
    SignedUnique(x, t, TWO32);
  }

  /** The 64-bit add, subtract and multiply, truncated, are the 32-bit ones on the truncated operands. */
  lemma TruncArithmeticI64(a: int64, b: int64)
    ensures TruncI64I32(AddI64(a, b)) == VmOps.AddI32(TruncI64I32(a), TruncI64I32(b))
    ensures TruncI64I32(SubI64(a, b)) == VmOps.SubI32(TruncI64I32(a), TruncI64I32(b))
    ensures TruncI64I32(MulI64(a, b)) == VmOps.MulI32(TruncI64I32(a), TruncI64I32(b))
  {
    TruncAddI64(a, b);
    TruncSubI64(a, b);
    TruncMulI64(a, b);
  }

  lemma TruncAddI64(a: int64, b: int64)
    ensures TruncI64I32(AddI64(a, b)) == VmOps.AddI32(TruncI64I32(a), TruncI64I32(b))
  {
    calc {
      TruncI64I32(AddI64(a, b));
      { TruncIsToI32(AddI64(a, b)); }
      ToI32(ToI64(a + b));
      { ToI32OfToI64(a + b); }
      ToI32(a + b);
      { SignedOperands(a, b, TWO32); }
      ToI32(ToI32(a) + ToI32(b));
      { TruncIsToI32(a); TruncIsToI32(b); }
      VmOps.AddI32(TruncI64I32(a), TruncI64I32(b));
    }
  }

  lemma TruncSubI64(a: int64, b: int64)
    ensures TruncI64I32(SubI64(a, b)) == VmOps.SubI32(TruncI64I32(a), TruncI64I32(b))
  {
    calc {
      TruncI64I32(SubI64(a, b));
      { TruncIsToI32(SubI64(a, b)); }
      ToI32(ToI64(a - b));
      { ToI32OfToI64(a - b); }
      ToI32(a - b);
      { SignedOperands(a, b, TWO32); }
      ToI32(ToI32(a) - ToI32(b));
      { TruncIsToI32(a); TruncIsToI32(b); }
      VmOps.SubI32(TruncI64I32(a), TruncI64I32(b));
    }
  }

  lemma TruncMulI64(a: int64, b: int64)
    ensures TruncI64I32(MulI64(a, b)) == VmOps.MulI32(TruncI64I32(a), TruncI64I32(b))
  {
    calc {
      TruncI64I32(MulI64(a, b));
      { TruncIsToI32(MulI64(a, b)); }
      ToI32(ToI64(a * b));
      { ToI32OfToI64(a * b); }
      ToI32(a * b);
      { SignedOperands(a, b, TWO32); }
      ToI32(ToI32(a) * ToI32(b));
      { TruncIsToI32(a); TruncIsToI32(b); }
      VmOps.MulI32(TruncI64I32(a), TruncI64I32(b));
    }
  }

  /** Truncation to 32 bits is the conversion of the value to `int32_t`. */
  lemma TruncIsToI32(x: int64)
    ensures TruncI64I32(x) == ToI32(x)
  {
    SignedCongruent(TruncI64I32(x), x, TWO32);
  }

  /** Converting to `int64_t` first does not change the conversion to `int32_t`. */
  lemma ToI32OfToI64(z: int)
    ensures ToI32(ToI64(z)) == ToI32(z)
  {
    CongruentNarrow(ToI64(z), z, TWO32, TWO32);
    SignedCongruent(ToI64(z), z, TWO32);
  }

  //===------------------------------------------------------------------===//
  // Native bitwise shifts
  //===------------------------------------------------------------------===//

  /** `operand << amount` with two's-complement wrap: `operand * 2^amount` modulo 2^64. */
  function ShlI64(operand: int64, amount: int8): (r: int64)
    requires 0 <= amount < 64
    ensures Congruent(r, operand * Pow2(amount), TWO64)
    ensures -TWO63 <= operand * Pow2(amount) < TWO63 ==> r == operand * Pow2(amount)
  {
    ToI64(operand * Pow2(amount))
  }

  /** Arithmetic right shift: `operand / 2^amount` rounded toward negative infinity. */
  function ShrI64S(operand: int64, amount: int8): (r: int64)
    requires 0 <= amount < 64
    ensures r * Pow2(amount) <= operand < (r + 1) * Pow2(amount)
  {
    FloorDiv(operand, Pow2(amount));
    FloorDivBetween(operand, Pow2(amount));
    operand / Pow2(amount)
  }

  /** Logical right shift of the `uint64_t` pattern: its floor quotient by 2^amount, non-negative once `amount > 0`. */
  function ShrI64U(operand: int64, amount: int8): (r: int64)
    requires 0 <= amount < 64
    ensures ToU64(r) * Pow2(amount) <= ToU64(operand) < (ToU64(r) + 1) * Pow2(amount)
    ensures amount > 0 ==> 0 <= r
  {
    var u := ToU64(operand);
    var q := u / Pow2(amount);
    FloorDiv(u, Pow2(amount));
    FloorDivBetween(u, Pow2(amount));
    SignedUnsignedRoundTrip64(0, q);
    ToI64(q)
  }

  /** A left shift is a wrapping multiplication by 2^amount (read as `int64_t`). */
  lemma ShlIsMulI64(operand: int64, amount: int8)
    requires 0 <= amount < 64
    ensures ShlI64(operand, amount) == MulI64(operand, ToI64(Pow2(amount)))
  {
    CongruentMul(operand, operand, ToI64(Pow2(amount)), Pow2(amount), TWO64);
    SignedCongruent(operand * ToI64(Pow2(amount)), operand * Pow2(amount), TWO64);
  }

  /** On non-negative operands the arithmetic and the logical right shift agree. */
  lemma ShrI64SNonNegative(operand: int64, amount: int8)
    requires 0 <= amount < 64 && operand >= 0
    ensures ShrI64S(operand, amount) == ShrI64U(operand, amount)
  {
    FloorDivBetween(operand, Pow2(amount));
  }

  /** Shifting left and then logically right by the same amount clears the `amount` high bits. */
  lemma ShlShrUI64(operand: int64, amount: int8)
    requires 0 <= amount < 64
    ensures ToU64(ShrI64U(ShlI64(operand, amount), amount)) == ToU64(operand) % Pow2(64 - amount)
  {
    var p, q := Pow2(amount), Pow2(64 - amount);
    var u := ToU64(operand);
    Pow2Constants();
    Pow2Add(64 - amount, amount);
    ShlPattern64(operand, amount);
    MulModMul(u, p, q);
    ShrUPattern64(ShlI64(operand, amount), amount);
  }

  /** The `uint64_t` pattern of a left shift is the operand's pattern times 2^amount, modulo 2^64. */
  lemma ShlPattern64(operand: int64, amount: int8)
    requires 0 <= amount < 64
    ensures ToU64(ShlI64(operand, amount)) == (ToU64(operand) * Pow2(amount)) % TWO64
  {
    var p, u := Pow2(amount), ToU64(operand);
    CongruentMul(u, operand, p, p, TWO64);
    CongruentSym(u * p, operand * p, TWO64);
    CongruentTrans(ShlI64(operand, amount), operand * p, u * p, TWO64);
    UnsignedCongruent(ShlI64(operand, amount), u * p, TWO64);
  }

  /** The `uint64_t` pattern of a logical right shift is the operand's pattern divided by 2^amount. */
  lemma ShrUPattern64(operand: int64, amount: int8)
    requires 0 <= amount < 64
    ensures ToU64(ShrI64U(operand, amount)) == ToU64(operand) / Pow2(amount)
  {
    var q := ToU64(operand) / Pow2(amount);
    DivBound(ToU64(operand), Pow2(amount));
    SignedUnsignedRoundTrip64(0, q);
  }

  //===------------------------------------------------------------------===//
  // Comparison ops: 64-bit operands, 32-bit results
  //===------------------------------------------------------------------===//

  function CmpEqI64(lhs: int64, rhs: int64): (r: int32)
    ensures r == 0 || r == 1
    ensures r == 1 <==> lhs == rhs
  {
    if lhs == rhs then 1 else 0
  }

  function CmpNeI64(lhs: int64, rhs: int64): (r: int32)
    ensures r == 1 - CmpEqI64(lhs, rhs)
  {
    if lhs != rhs then 1 else 0
  }

  function CmpLtI64S(lhs: int64, rhs: int64): (r: int32)
    ensures r == 0 || r == 1
    ensures r == 1 <==> lhs < rhs
  {
    if lhs < rhs then 1 else 0
  }

  /**
   * Unsigned less-than on the `uint64_t` patterns. Operands of the same sign
   * compare as signed values; a negative operand reads as the larger one.
   */
  function CmpLtI64U(lhs: int64, rhs: int64): (r: int32)
    ensures r == 0 || r == 1
    ensures (lhs < 0) == (rhs < 0) ==> (r == 1 <==> lhs < rhs)
    ensures lhs < 0 <= rhs ==> r == 0
    ensures rhs < 0 <= lhs ==> r == 1
  {
    if ToU64(lhs) < ToU64(rhs) then 1 else 0
  }

  function CmpNzI64(operand: int64): (r: int32)
    ensures r == CmpNeI64(operand, 0)
  {
    if operand != 0 then 1 else 0
  }

  /** On values that fit in 32 bits, the 64-bit comparisons agree with the 32-bit ones. */
  lemma CmpAgreesI32(a: int32, b: int32)
    ensures CmpEqI64(ExtI32I64S(a), ExtI32I64S(b)) == VmOps.CmpEqI32(a, b)
    ensures CmpLtI64S(ExtI32I64S(a), ExtI32I64S(b)) == VmOps.CmpLtI32S(a, b)
    ensures CmpLtI64U(ExtI32I64U(a), ExtI32I64U(b)) == VmOps.CmpLtI32U(a, b)
  {
  }
}
