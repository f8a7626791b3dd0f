/**
 * The VM's 32-bit scalar operations (the `vm_*_i32` functions of
 * iree/vm/ops.h), with the conditional select and `vm_fail_or_ok`.
 *
 * Every operand and result is an `int32`. Where C converts to `uint32_t`
 * the model calls `ToU32`; where it converts back to `int32_t` it calls
 * `ToI32`. The cases C leaves undefined (division by zero, `INT32_MIN / -1`,
 * shift amounts outside [0, 32)) are preconditions.
 */
module VmOps {
  import opened Ints
  import opened Bits

  //===------------------------------------------------------------------===//
  // Conditional assignment
  //===------------------------------------------------------------------===//

  /** C's `condition ? true_value : false_value`: any non-zero condition is true. */
  function SelectI32(condition: int32, trueValue: int32, falseValue: int32): (r: int32)
    ensures condition != 0 ==> r == trueValue
    ensures condition == 0 ==> r == falseValue
  {
    if condition != 0 then trueValue else falseValue
  }

  /** Testing `condition == 0` instead selects the other operand. */
  lemma SelectI32Swap(condition: int32, trueValue: int32, falseValue: int32)
    ensures SelectI32(CmpEqI32(condition, 0), falseValue, trueValue) == SelectI32(condition, trueValue, falseValue)
    ensures SelectI32(CmpNzI32(condition), trueValue, falseValue) == SelectI32(condition, trueValue, falseValue)
  {
  }

  //===------------------------------------------------------------------===//
  // Native integer arithmetic
  //===------------------------------------------------------------------===//

  /** Two's-complement addition: the exact sum when it fits, otherwise the sum modulo 2^32. */
  function AddI32(lhs: int32, rhs: int32): (r: int32)
    ensures Congruent(r, lhs + rhs, TWO32)
    ensures -TWO31 <= lhs + rhs < TWO31 ==> r == lhs + rhs
  {
    ToI32(lhs + rhs)
  }

  function SubI32(lhs: int32, rhs: int32): (r: int32)
    ensures Congruent(r, lhs - rhs, TWO32)
    ensures -TWO31 <= lhs - rhs < TWO31 ==> r == lhs - rhs
  {
    ToI32(lhs - rhs)
  }

  function MulI32(lhs: int32, rhs: int32): (r: int32)
    ensures Congruent(r, lhs * rhs, TWO32)
    ensures -TWO31 <= lhs * rhs < TWO31 ==> r == lhs * rhs
  {
    ToI32(lhs * rhs)
  }

  /** Subtraction undoes addition and the converse, overflow included. */
  lemma AddSubInverseI32(a: int32, b: int32)
    ensures SubI32(AddI32(a, b), b) == a
    ensures AddI32(SubI32(a, b), b) == a
  {
    SignedAddCancel(a, b, TWO32);
  }

  /** Wrapping addition is associative. */
  lemma AddAssociativeI32(a: int32, b: int32, c: int32)
    ensures AddI32(AddI32(a, b), c) == AddI32(a, AddI32(b, c))
  {
    SignedAddAssociative(a, b, c, TWO32);
  }

  /** Wrapping multiplication is associative. */
  lemma MulAssociativeI32(a: int32, b: int32, c: int32)
    ensures MulI32(MulI32(a, b), c) == MulI32(a, MulI32(b, c))
  {
    SignedMulAssociative(a, b, c, TWO32);
  }

  /** Wrapping multiplication distributes over wrapping addition. */
  lemma MulDistributesI32(a: int32, b: int32, c: int32)
    ensures MulI32(a, AddI32(b, c)) == AddI32(MulI32(a, b), MulI32(a, c))
  {
    SignedMulDistributes(a, b, c, TWO32);
  }

  /**
   * C's signed `/`: the quotient rounded toward zero. `r * rhs` is the
   * multiple of `rhs` closest to `lhs` on the side of zero, and `r` is zero or
   * has the sign of the exact quotient.
   */
  function DivI32S(lhs: int32, rhs: int32): (r: int32)
    requires rhs != 0 && !(lhs == INT32_MIN && rhs == -1)
    ensures Abs(r * rhs) <= Abs(lhs) < Abs(r * rhs) + Abs(rhs)
    ensures r == 0 || (r < 0 <==> (lhs < 0) != (rhs < 0))
  {
    TruncDivInRange(lhs, rhs, TWO31);
    TruncDivRem(lhs, rhs);
    TruncDiv(lhs, rhs)
  }

  /** C's signed `%`: smaller than the divisor in magnitude, zero or of the sign of the dividend. */
  function RemI32S(lhs: int32, rhs: int32): (r: int32)
    requires rhs != 0 && !(lhs == INT32_MIN && rhs == -1)
    ensures Abs(r) < Abs(rhs)
    ensures r == 0 || (r < 0 <==> lhs < 0)
  {
    TruncDivInRange(lhs, rhs, TWO31);
    TruncDivRem(lhs, rhs);
    TruncRem(lhs, rhs)
  }

  /** Signed quotient and remainder recombine to the dividend. */
  lemma DivRemI32S(lhs: int32, rhs: int32)
    requires rhs != 0 && !(lhs == INT32_MIN && rhs == -1)
    ensures lhs == DivI32S(lhs, rhs) * rhs + RemI32S(lhs, rhs)
  {
    TruncDivRem(lhs, rhs);
  }

  /** The properties of the signed quotient and remainder determine them. */
  lemma DivRemI32SUnique(lhs: int32, rhs: int32, q: int, r: int)
    requires rhs != 0 && !(lhs == INT32_MIN && rhs == -1)
    requires lhs == q * rhs + r && Abs(r) < Abs(rhs) && (r == 0 || (r < 0 <==> lhs < 0))
    ensures q == DivI32S(lhs, rhs) && r == RemI32S(lhs, rhs)
  {
    TruncDivRemUnique(lhs, rhs, q, r);
  }

  /** A non-zero `int32` is non-zero as a `uint32_t`. */
  lemma NonZeroUnsigned32(x: int32)
    requires x != 0
    ensures ToU32(x) != 0
  {
    SignedUnsignedRoundTrip32(x, 0);
  }

  /** C's `/` on both operands read as `uint32_t`: the floor of their quotient. */
  function DivI32U(lhs: int32, rhs: int32): (r: int32)
    requires rhs != 0
    ensures ToU32(r) * ToU32(rhs) <= ToU32(lhs) < (ToU32(r) + 1) * ToU32(rhs)
  {
    NonZeroUnsigned32(rhs);
    var q := ToU32(lhs) / ToU32(rhs);
    FloorDiv(ToU32(lhs), ToU32(rhs));
    DivBound(ToU32(lhs), ToU32(rhs));
    SignedUnsignedRoundTrip32(0, q);
    ToI32(q)
  }

  /** C's `%` on both operands read as `uint32_t`: below the divisor; `DivRemI32U` relates it to the dividend. */
  function RemI32U(lhs: int32, rhs: int32): (r: int32)
    requires rhs != 0
    ensures 0 <= ToU32(r) < ToU32(rhs)
  {
    NonZeroUnsigned32(rhs);
    var m := ToU32(lhs) % ToU32(rhs);
    SignedUnsignedRoundTrip32(0, m);
    ToI32(m)
  }

  /** Unsigned quotient and remainder recombine to the dividend, all read as `uint32_t`. */
  lemma DivRemI32U(lhs: int32, rhs: int32)
    requires rhs != 0
    ensures ToU32(lhs) == ToU32(DivI32U(lhs, rhs)) * ToU32(rhs) + ToU32(RemI32U(lhs, rhs))
    ensures ToU32(RemI32U(lhs, rhs)) < ToU32(rhs)
  {
    NonZeroUnsigned32(rhs);
    var u, v := ToU32(lhs), ToU32(rhs);
    DivBound(u, v);
    SignedUnsignedRoundTrip32(0, u / v);
    SignedUnsignedRoundTrip32(0, u % v);
    EuclidNat(u, v);
  }

  //===------------------------------------------------------------------===//
  // Bitwise operations
  //===------------------------------------------------------------------===//

  /** Bit `i` of the two's-complement representation of `x`. */
  function BitI32(x: int32, i: nat): bool
  {
    Bit(ToU32(x), i)
  }

  /** `op` applied to the 32-bit patterns of `lhs` and `rhs`, as C's `&`, `|`, `^` do. */
  function BitwiseI32(op: BitOp, lhs: int32, rhs: int32): int32
  {
    ToI32(Bitwise(op, ToU32(lhs), ToU32(rhs), 32))
  }

  /** Reading a 32-bit pattern as `int32_t` and back as `uint32_t` gives the pattern. */
  lemma Pattern32(v: nat)
    requires v < Pow2(32)
    ensures ToU32(ToI32(v)) == v
  {
    Pow2Constants();
    SignedUnsignedRoundTrip32(0, v);
  }

  /** Each bit of the result is `op` of the operands' bits. */
  lemma BitwiseI32Bits(op: BitOp, lhs: int32, rhs: int32)
    ensures forall i: nat | i < 32 :: BitI32(BitwiseI32(op, lhs, rhs), i) == ApplyBit(op, BitI32(lhs, i), BitI32(rhs, i))
  {
    Pattern32(Bitwise(op, ToU32(lhs), ToU32(rhs), 32));
    forall i: nat | i < 32
      ensures BitI32(BitwiseI32(op, lhs, rhs), i) == ApplyBit(op, BitI32(lhs, i), BitI32(rhs, i))
    {
      BitwiseBit(op, ToU32(lhs), ToU32(rhs), 32, i);
    }
  }

  /** `~operand`: every bit inverted, which in two's complement is `-operand - 1`. */
  function NotI32(operand: int32): (r: int32)
    ensures r == -(operand as int) - 1
    ensures forall i: nat | i < 32 :: BitI32(r, i) == !BitI32(operand, i)
  {
    ComplementI32(operand);
    ToI32(Complement(ToU32(operand), 32))
  }

  lemma ComplementI32(x: int32)
    ensures ToI32(Complement(ToU32(x), 32)) == -(x as int) - 1
    ensures forall i: nat | i < 32 :: BitI32(ToI32(Complement(ToU32(x), 32)), i) == !BitI32(x, i)
  {
    var c := Complement(ToU32(x), 32);
    ComplementValue32(x);
    SignedUnique(c, -(x as int) - 1, TWO32);
    Pattern32(c);
    forall i: nat | i < 32
      ensures BitI32(ToI32(c), i) == !BitI32(x, i)
    {
      ComplementBit(ToU32(x), 32, i);
    }
  }

  lemma ComplementValue32(x: int32)
    ensures Complement(ToU32(x), 32) == TWO32 - 1 - ToU32(x)
    ensures Congruent(Complement(ToU32(x), 32), -(x as int) - 1, TWO32)
  {
    var u := ToU32(x);
    Pow2Constants();
    ComplementValue(u, 32);
    CongruentMultiple(-1, 1, TWO32);
    CongruentSub(TWO32 - 1, -1, u, x, TWO32);
  }

  function AndI32(lhs: int32, rhs: int32): (r: int32)
    ensures forall i: nat | i < 32 :: BitI32(r, i) == (BitI32(lhs, i) && BitI32(rhs, i))
  {
    BitwiseI32Bits(And, lhs, rhs);
    BitwiseI32(And, lhs, rhs)
  }

  function OrI32(lhs: int32, rhs: int32): (r: int32)
    ensures forall i: nat | i < 32 :: BitI32(r, i) == (BitI32(lhs, i) || BitI32(rhs, i))
  {
    BitwiseI32Bits(Or, lhs, rhs);
    BitwiseI32(Or, lhs, rhs)
  }

  function XorI32(lhs: int32, rhs: int32): (r: int32)
    ensures forall i: nat | i < 32 :: BitI32(r, i) == (BitI32(lhs, i) != BitI32(rhs, i))
  {
    BitwiseI32Bits(Xor, lhs, rhs);
    BitwiseI32(Xor, lhs, rhs)
  }

  /** Xor with the same value twice is the identity; and, or and xor commute. */
  lemma XorI32Twice(a: int32, b: int32)
    ensures XorI32(XorI32(a, b), b) == a
    ensures AndI32(a, b) == AndI32(b, a) && OrI32(a, b) == OrI32(b, a) && XorI32(a, b) == XorI32(b, a)
  {
    var x := Bitwise(Xor, ToU32(a), ToU32(b), 32);
    Pattern32(x);
    Pow2Constants();
    XorTwice(ToU32(a), ToU32(b), 32);
    SignedUnsignedRoundTrip32(a, 0);
    BitwiseCommutes(And, ToU32(a), ToU32(b), 32);
    BitwiseCommutes(Or, ToU32(a), ToU32(b), 32);
    BitwiseCommutes(Xor, ToU32(a), ToU32(b), 32);
  }

  /** De Morgan's law: the complement of a conjunction is the disjunction of the complements. */
  lemma DeMorganI32(a: int32, b: int32)
    ensures NotI32(AndI32(a, b)) == OrI32(NotI32(a), NotI32(b))
  {
    var ua, ub := ToU32(a), ToU32(b);
    var c := Bitwise(And, ua, ub, 32);
    Pattern32(c);
    Pattern32(Complement(ua, 32));
    Pattern32(Complement(ub, 32));
    DeMorgan(ua, ub, 32);
  }

  /** A value and its complement share no bit, and together they set every bit. */
  lemma ComplementLawsI32(a: int32)
    ensures AndI32(a, NotI32(a)) == 0
    ensures OrI32(a, NotI32(a)) == -1
  {
    var ua := ToU32(a);
    var ca := Complement(ua, 32);
    Pow2Constants();
    Pattern32(ca);
    assert ToU32(NotI32(a)) == ca;
    ComplementLaws(ua, 32);
    assert AndI32(a, NotI32(a)) == 0 by {
      assert AndI32(a, NotI32(a)) == ToI32(0);
    }
    assert OrI32(a, NotI32(a)) == -1 by {
      assert OrI32(a, NotI32(a)) == ToI32(TWO32 - 1);
      assert Congruent(TWO32 - 1, -1, TWO32);
      SignedCongruent(TWO32 - 1, -1, TWO32);
    }
  }

  //===------------------------------------------------------------------===//
  // Casting and type conversion/emulation
  //===------------------------------------------------------------------===//

  /** Congruence modulo 2^32 implies congruence modulo 2^8 and 2^16. */
  lemma Narrow32(x: int, y: int)
    requires Congruent(x, y, TWO32)
    ensures Congruent(x, y, TWO8) && Congruent(x, y, TWO16)
  {
    CongruentNarrow(x, y, TWO8, 0x100_0000);
    CongruentNarrow(x, y, TWO16, TWO16);
  }

  /** The low 8 bits of `operand`, as a value in [0, 255]. */
  function TruncI32I8(operand: int32): (r: int32)
    ensures 0 <= r < TWO8 && Congruent(r, operand, TWO8)
  {
    var u := ToU32(operand);
    Narrow32(u, operand);
    CongruentTrans(ToU8(u), u, operand, TWO8);
    ToU8(u)
  }

  /** The low 16 bits of `operand`, as a value in [0, 65535]. */
  function TruncI32I16(operand: int32): (r: int32)
    ensures 0 <= r < TWO16 && Congruent(r, operand, TWO16)
  {
    var u := ToU32(operand);
    Narrow32(u, operand);
    CongruentTrans(ToU16(u), u, operand, TWO16);
    ToU16(u)
  }

  /** The low 8 bits of `operand` read as a signed byte: in [-128, 127], the identity there. */
  function ExtI8I32S(operand: int32): (r: int32)
    ensures -TWO7 <= r < TWO7 && Congruent(r, operand, TWO8)
    ensures -TWO7 <= operand < TWO7 ==> r == operand
  {
    ToI8(operand)
  }

  /** Zero extension of the low byte: the same value as truncation to 8 bits. */
  function ExtI8I32U(operand: int32): (r: int32)
    ensures r == TruncI32I8(operand)
  {
    UnsignedUnique(operand, TruncI32I8(operand), TWO8);
    ToU8(operand)
  }

  function ExtI16I32S(operand: int32): (r: int32)
    ensures -TWO15 <= r < TWO15 && Congruent(r, operand, TWO16)
    ensures -TWO15 <= operand < TWO15 ==> r == operand
  {
    ToI16(operand)
  }

  function ExtI16I32U(operand: int32): (r: int32)
    ensures r == TruncI32I16(operand)
  {
    UnsignedUnique(operand, TruncI32I16(operand), TWO16);
    ToU16(operand)
  }

  /** Sign extension looks only at the low byte, which truncation keeps and sign extension does not change. */
  lemma ExtTruncI8(x: int32)
    ensures ExtI8I32S(TruncI32I8(x)) == ExtI8I32S(x)
    ensures TruncI32I8(ExtI8I32S(x)) == TruncI32I8(x)
  {
    var t, e := TruncI32I8(x), ExtI8I32S(x);
    assert ExtI8I32S(t) == e by {
      SignedCongruent(t, x, TWO8);
    }
    assert TruncI32I8(e) == t by {
      var t2 := TruncI32I8(e);
      CongruentTrans(t2, e, x, TWO8);
      CongruentSym(t, x, TWO8);
      CongruentTrans(t2, x, t, TWO8);
      CongruentSym(t2, t, TWO8);
      UnsignedUnique(t2, t, TWO8);
    }
  }

  /** The same for the low 16 bits. */
  lemma ExtTruncI16(x: int32)
    ensures ExtI16I32S(TruncI32I16(x)) == ExtI16I32S(x)
    ensures TruncI32I16(ExtI16I32S(x)) == TruncI32I16(x)
  {
    var t, e := TruncI32I16(x), ExtI16I32S(x);
    assert ExtI16I32S(t) == e by {
      SignedCongruent(t, x, TWO16);
    }
    assert TruncI32I16(e) == t by {
      var t2 := TruncI32I16(e);
      CongruentTrans(t2, e, x, TWO16);
      CongruentSym(t, x, TWO16);
      CongruentTrans(t2, x, t, TWO16);
      CongruentSym(t2, t, TWO16);
      UnsignedUnique(t2, t, TWO16);
    }
  }

  //===------------------------------------------------------------------===//
  // Native bitwise shifts
  //===------------------------------------------------------------------===//

  /** `operand << amount` with two's-complement wrap: `operand * 2^amount` modulo 2^32. */
  function ShlI32(operand: int32, amount: int8): (r: int32)
    requires 0 <= amount < 32
    ensures Congruent(r, operand * Pow2(amount), TWO32)
    ensures -TWO31 <= operand * Pow2(amount) < TWO31 ==> r == operand * Pow2(amount)
  {
    ToI32(operand * Pow2(amount))
  }

  /** Arithmetic right shift: `operand / 2^amount` rounded toward negative infinity. */
  function ShrI32S(operand: int32, amount: int8): (r: int32)
    requires 0 <= amount < 32
    ensures r * Pow2(amount) <= operand < (r + 1) * Pow2(amount)
  {
    FloorDiv(operand, Pow2(amount));
    FloorDivBetween(operand, Pow2(amount));
    operand / Pow2(amount)
  }

  /** Logical right shift of the `uint32_t` pattern: its floor quotient by 2^amount, non-negative once `amount > 0`. */
  function ShrI32U(operand: int32, amount: int8): (r: int32)
    requires 0 <= amount < 32
    ensures ToU32(r) * Pow2(amount) <= ToU32(operand) < (ToU32(r) + 1) * Pow2(amount)
    ensures amount > 0 ==> 0 <= r
  {
    var u := ToU32(operand);
    var q := u / Pow2(amount);
    FloorDiv(u, Pow2(amount));
    FloorDivBetween(u, Pow2(amount));
    SignedUnsignedRoundTrip32(0, q);
    ToI32(q)
  }

  /** A left shift is a wrapping multiplication by 2^amount (read as `int32_t`). */
  lemma ShlIsMulI32(operand: int32, amount: int8)
    requires 0 <= amount < 32
    ensures ShlI32(operand, amount) == MulI32(operand, ToI32(Pow2(amount)))
  {
    CongruentMul(operand, operand, ToI32(Pow2(amount)), Pow2(amount), TWO32);
    SignedCongruent(operand * ToI32(Pow2(amount)), operand * Pow2(amount), TWO32);
  }

  /** On non-negative operands the arithmetic and the logical right shift agree. */
  lemma ShrI32SNonNegative(operand: int32, amount: int8)
    requires 0 <= amount < 32 && operand >= 0
    ensures ShrI32S(operand, amount) == ShrI32U(operand, amount)
  {
    FloorDivBetween(operand, Pow2(amount));
  }

  /** Shifting left and then logically right by the same amount clears the `amount` high bits. */
  lemma ShlShrUI32(operand: int32, amount: int8)
    requires 0 <= amount < 32
    ensures ToU32(ShrI32U(ShlI32(operand, amount), amount)) == ToU32(operand) % Pow2(32 - amount)
  {
    var p, q := Pow2(amount), Pow2(32 - amount);
    var u := ToU32(operand);
    Pow2Constants();
    Pow2Add(32 - amount, amount);
    ShlPattern32(operand, amount);
    MulModMul(u, p, q);
    ShrUPattern32(ShlI32(operand, amount), amount);
  }

  /** The `uint32_t` pattern of a left shift is the operand's pattern times 2^amount, modulo 2^32. */
  lemma ShlPattern32(operand: int32, amount: int8)
    requires 0 <= amount < 32
    ensures ToU32(ShlI32(operand, amount)) == (ToU32(operand) * Pow2(amount)) % TWO32
  {
    var p, u := Pow2(amount), ToU32(operand);
    CongruentMul(u, operand, p, p, TWO32);
    CongruentSym(u * p, operand * p, TWO32);
    CongruentTrans(ShlI32(operand, amount), operand * p, u * p, TWO32);
    UnsignedCongruent(ShlI32(operand, amount), u * p, TWO32);
  }

  /** The `uint32_t` pattern of a logical right shift is the operand's pattern divided by 2^amount. */
  lemma ShrUPattern32(operand: int32, amount: int8)
    requires 0 <= amount < 32
    ensures ToU32(ShrI32U(operand, amount)) == ToU32(operand) / Pow2(amount)
  {
    var q := ToU32(operand) / Pow2(amount);
    DivBound(ToU32(operand), Pow2(amount));
    SignedUnsignedRoundTrip32(0, q);
  }

  //===------------------------------------------------------------------===//
  // Comparison ops
  //===------------------------------------------------------------------===//

  function CmpEqI32(lhs: int32, rhs: int32): (r: int32)
    ensures r == 0 || r == 1
    ensures r == 1 <==> lhs == rhs
  {
    if lhs == rhs then 1 else 0
  }

  function CmpNeI32(lhs: int32, rhs: int32): (r: int32)
    ensures r == 1 - CmpEqI32(lhs, rhs)
  {
    if lhs != rhs then 1 else 0
  }

  function CmpLtI32S(lhs: int32, rhs: int32): (r: int32)
    ensures r == 0 || r == 1
    ensures r == 1 <==> lhs < rhs
  {
    if lhs < rhs then 1 else 0
  }

  /**
   * Unsigned less-than on the `uint32_t` patterns. Operands of the same sign
   * compare as signed values; a negative operand reads as the larger one.
   */
  function CmpLtI32U(lhs: int32, rhs: int32): (r: int32)
    ensures r == 0 || r == 1
    ensures (lhs < 0) == (rhs < 0) ==> (r == 1 <==> lhs < rhs)
    ensures lhs < 0 <= rhs ==> r == 0
    ensures rhs < 0 <= lhs ==> r == 1
  {
    if ToU32(lhs) < ToU32(rhs) then 1 else 0
  }

  function CmpNzI32(operand: int32): (r: int32)
    ensures r == CmpNeI32(operand, 0)
  {
    if operand != 0 then 1 else 0
  }

  //===------------------------------------------------------------------===//
  // Control flow ops
  //===------------------------------------------------------------------===//

  /** The two status codes `vm_fail_or_ok` can produce. */
  datatype StatusCode = Ok | FailedPrecondition

  /** A zero status code is OK; any other fails with FAILED_PRECONDITION. */
  function FailOrOk(statusCode: int32): (s: StatusCode)
    ensures s == Ok <==> statusCode == 0
    ensures s == FailedPrecondition <==> CmpNzI32(statusCode) == 1
  {
    if statusCode != 0 then FailedPrecondition else Ok
  }
}
