/**
 * Fixed-width integers as the C code of the VM sees them.
 *
 * Values are mathematical integers restricted to the range of their C type
 * (`int32`, `uint32`, ...). The C conversions between those types are
 * modular reductions: `Unsigned` is C's rule for converting to an unsigned
 * type, `Signed` is the two's-complement reduction that the compilers the VM
 * targets perform when converting an out-of-range value to a signed type.
 * `TruncDiv` and `TruncRem` are C's `/` and `%` on signed operands, which
 * round toward zero (Dafny's own `/` and `%` are Euclidean).
 */
module Ints {

  const TWO7: int := 0x80
  const TWO8: int := 0x100
  const TWO15: int := 0x8000
  const TWO16: int := 0x1_0000
  const TWO31: int := 0x8000_0000
  const TWO32: int := 0x1_0000_0000
  const TWO63: int := 0x8000_0000_0000_0000
  const TWO64: int := 0x1_0000_0000_0000_0000

  type int8 = x: int | -0x80 <= x < 0x80
  type uint8 = x: int | 0 <= x < 0x100
  type int16 = x: int | -0x8000 <= x < 0x8000
  type uint16 = x: int | 0 <= x < 0x1_0000
  type int32 = x: int | -0x8000_0000 <= x < 0x8000_0000
  type uint32 = x: int | 0 <= x < 0x1_0000_0000
  type int64 = x: int | -0x8000_0000_0000_0000 <= x < 0x8000_0000_0000_0000
  type uint64 = x: int | 0 <= x < 0x1_0000_0000_0000_0000

  const INT32_MIN: int32 := -0x8000_0000
  const INT64_MIN: int64 := -0x8000_0000_0000_0000

  function Abs(x: int): nat { if x < 0 then -x else x }

  //===------------------------------------------------------------------===//
  // Powers of two
  //===------------------------------------------------------------------===//

  function Pow2(n: nat): (r: nat)
    ensures r >= 1
  {
    if n == 0 then 1 else 2 * Pow2(n - 1)
  }

  lemma {:induction false} Pow2Add(a: nat, b: nat)
    ensures Pow2(a + b) == Pow2(a) * Pow2(b)
  {
    if a > 0 {
      Pow2Add(a - 1, b);
      assert Pow2(a + b) == 2 * Pow2(a - 1 + b);
    }
  }

  lemma Pow2Constants()
    ensures Pow2(7) == TWO7 && Pow2(8) == TWO8
    ensures Pow2(15) == TWO15 && Pow2(16) == TWO16
    ensures Pow2(31) == TWO31 && Pow2(32) == TWO32
    ensures Pow2(63) == TWO63 && Pow2(64) == TWO64
  {
    Pow2Constants16();
    Pow2Add(16, 15);
    Pow2Add(16, 16);
    Pow2Add(32, 31);
    Pow2Add(32, 32);
  }

  lemma Pow2Constants16()
    ensures Pow2(7) == TWO7 && Pow2(8) == TWO8
    ensures Pow2(15) == TWO15 && Pow2(16) == TWO16
  {
    assert Pow2(7) == 0x80;
    assert Pow2(8) == 0x100;
    Pow2Add(8, 7);
    Pow2Add(8, 8);
  }

  //===------------------------------------------------------------------===//
  // Division with remainder and congruences
  //===------------------------------------------------------------------===//

  lemma MulAtLeast(k: int, m: int)
    requires k >= 1 && m > 0
    ensures k * m >= m
  {
    assert k * m == (k - 1) * m + m;
  }

  /** Euclidean quotient and remainder are the only pair with `a == q * m + r`, `0 <= r < m`. */
  lemma ModUnique(a: int, m: int, q: int, r: int)
    requires m > 0 && a == q * m + r && 0 <= r < m
    ensures a / m == q && a % m == r
  {
    var q0, r0 := a / m, a % m;
    assert a == q0 * m + r0;
    if q0 < q {
      MulAtLeast(q - q0, m);
    } else if q < q0 {
      MulAtLeast(q0 - q, m);
    }
  }

  /** `x` and `y` leave the same remainder modulo `m`. */
  predicate Congruent(x: int, y: int, m: int)
    requires m > 0
  {
    (x - y) % m == 0
  }

  lemma CongruentIffSameMod(x: int, y: int, m: int)
    requires m > 0
    ensures Congruent(x, y, m) <==> x % m == y % m
  {
    var qx, qy := x / m, y / m;
    if x % m == y % m {
      ModUnique(x - y, m, qx - qy, 0);
    } else {
      var k := (x - y) / m;
      if (x - y) % m == 0 {
        ModUnique(x, m, qy + k, y % m);
        assert false;
      }
    }
  }

  lemma CongruentSym(x: int, y: int, m: int)
    requires m > 0 && Congruent(x, y, m)
    ensures Congruent(y, x, m)
  {
    CongruentIffSameMod(x, y, m);
    CongruentIffSameMod(y, x, m);
  }

  lemma CongruentTrans(x: int, y: int, z: int, m: int)
    requires m > 0 && Congruent(x, y, m) && Congruent(y, z, m)
    ensures Congruent(x, z, m)
  {
    CongruentIffSameMod(x, y, m);
    CongruentIffSameMod(y, z, m);
    CongruentIffSameMod(x, z, m);
  }

  /** A multiple of `m` is congruent to zero. */
  lemma CongruentMultiple(x: int, k: int, m: int)
    requires m > 0
    ensures Congruent(x + k * m, x, m)
  {
    ModUnique(x + k * m - x, m, k, 0);
  }

  lemma CongruentAdd(a: int, a': int, b: int, b': int, m: int)
    requires m > 0 && Congruent(a, a', m) && Congruent(b, b', m)
    ensures Congruent(a + b, a' + b', m)
  {
    var ka, kb := (a - a') / m, (b - b') / m;
    assert a + b == a' + b' + (ka + kb) * m;
    CongruentMultiple(a' + b', ka + kb, m);
  }

  lemma CongruentSub(a: int, a': int, b: int, b': int, m: int)
    requires m > 0 && Congruent(a, a', m) && Congruent(b, b', m)
    ensures Congruent(a - b, a' - b', m)
  {
    var ka, kb := (a - a') / m, (b - b') / m;
    assert a - b == a' - b' + (ka - kb) * m;
    CongruentMultiple(a' - b', ka - kb, m);
  }

  lemma CongruentMul(a: int, a': int, b: int, b': int, m: int)
    requires m > 0 && Congruent(a, a', m) && Congruent(b, b', m)
    ensures Congruent(a * b, a' * b', m)
  {
    var ka, kb := (a - a') / m, (b - b') / m;
    assert a == a' + ka * m;
    assert b == b' + kb * m;
    var k := a' * kb + ka * b' + ka * kb * m;
    assert a * b == a' * b' + k * m;
    CongruentMultiple(a' * b', k, m);
  }

  /** Congruence modulo `m * d` implies congruence modulo `m`. */
  lemma CongruentNarrow(x: int, y: int, m: int, d: int)
    requires m > 0 && d > 0 && Congruent(x, y, m * d)
    ensures Congruent(x, y, m)
  {
    var k := (x - y) / (m * d);
    assert x - y == k * (m * d);
    assert x == y + (k * d) * m;
    CongruentMultiple(y, k * d, m);
  }

  //===------------------------------------------------------------------===//
  // Conversions (C casts) between widths
  //===------------------------------------------------------------------===//

  /** The value of `x` converted to an unsigned type with `m` values. */
  function Unsigned(x: int, m: int): (r: int)
    requires m > 0
    ensures 0 <= r < m && Congruent(r, x, m)
    ensures 0 <= x < m ==> r == x
  {
    UnsignedReduction(x, m);
    x % m
  }

  /** The value of `x` converted to a two's-complement signed type with `m` values. */
  function Signed(x: int, m: int): (r: int)
    requires m > 0 && m % 2 == 0
    ensures -(m / 2) <= r < m / 2 && Congruent(r, x, m)
    ensures -(m / 2) <= x < m / 2 ==> r == x
  {
    SignedReduction(x, m);
    var u := x % m;
    if u < m / 2 then u else u - m
  }

  /** `x % m` is congruent to `x`. */
  lemma ModCongruent(x: int, m: int)
    requires m > 0
    ensures Congruent(x % m, x, m)
  {
    ModUnique(x % m - x, m, -(x / m), 0);
  }

  /** `x % m` is congruent to `x` and is `x` itself on the unsigned range. */
  lemma UnsignedReduction(x: int, m: int)
    requires m > 0
    ensures Congruent(x % m, x, m)
    ensures 0 <= x < m ==> x % m == x
  {
    ModCongruent(x, m);
    if 0 <= x < m {
      ModUnique(x, m, 0, x);
    }
  }

  /** The two branches of `Signed`: each stays congruent to `x` and is exact on the signed range. */
  lemma SignedReduction(x: int, m: int)
    requires m > 0 && m % 2 == 0
    ensures var u := x % m;
      var r := if u < m / 2 then u else u - m;
      -(m / 2) <= r < m / 2 && Congruent(r, x, m) && (-(m / 2) <= x < m / 2 ==> r == x)
  {
    var u := x % m;
    ModCongruent(x, m);
    if x < 0 && -(m / 2) <= x {
      ModUnique(x, m, -1, x + m);
    } else if 0 <= x < m / 2 {
      ModUnique(x, m, 0, x);
    }
    if u >= m / 2 {
      ModUnique(u - m - x, m, -(x / m) - 1, 0);
    }
  }

  /** Both conversions depend only on the value modulo `m`. */
  lemma UnsignedCongruent(x: int, y: int, m: int)
    requires m > 0 && Congruent(x, y, m)
    ensures Unsigned(x, m) == Unsigned(y, m)
  {
    CongruentIffSameMod(x, y, m);
  }

  lemma SignedCongruent(x: int, y: int, m: int)
    requires m > 0 && m % 2 == 0 && Congruent(x, y, m)
    ensures Signed(x, m) == Signed(y, m)
  {
    UnsignedCongruent(x, y, m);
  }

  /** Reducing an operand of a sum or product first does not change the reduced result. */
  lemma SignedAdd(x: int, y: int, m: int)
    requires m > 0 && m % 2 == 0
    ensures Signed(Signed(x, m) + y, m) == Signed(x + y, m)
    ensures Signed(y + Signed(x, m), m) == Signed(y + x, m)
  {
    CongruentAdd(Signed(x, m), x, y, y, m);
    SignedCongruent(Signed(x, m) + y, x + y, m);
  }

  lemma SignedMul(x: int, y: int, m: int)
    requires m > 0 && m % 2 == 0
    ensures Signed(Signed(x, m) * y, m) == Signed(x * y, m)
    ensures Signed(y * Signed(x, m), m) == Signed(y * x, m)
  {
    CongruentMul(Signed(x, m), x, y, y, m);
    SignedCongruent(Signed(x, m) * y, x * y, m);
  }

  /** Reducing both operands first does not change the reduced sum, difference or product. */
  lemma SignedOperands(a: int, b: int, m: int)
    requires m > 0 && m % 2 == 0
    ensures Signed(Signed(a, m) + Signed(b, m), m) == Signed(a + b, m)
    ensures Signed(Signed(a, m) - Signed(b, m), m) == Signed(a - b, m)
    ensures Signed(Signed(a, m) * Signed(b, m), m) == Signed(a * b, m)
  {
    var sa, sb := Signed(a, m), Signed(b, m);
    CongruentAdd(sa, a, sb, b, m);
    SignedCongruent(sa + sb, a + b, m);
    CongruentSub(sa, a, sb, b, m);
    SignedCongruent(sa - sb, a - b, m);
    CongruentMul(sa, a, sb, b, m);
    SignedCongruent(sa * sb, a * b, m);
  }

  /** Subtracting what was added, or adding what was subtracted, reduces to the start. */
  lemma SignedAddCancel(a: int, b: int, m: int)
    requires m > 0 && m % 2 == 0
    ensures Signed(Signed(a + b, m) - b, m) == Signed(a, m)
    ensures Signed(Signed(a - b, m) + b, m) == Signed(a, m)
  {
    SignedAdd(a + b, -b, m);
    SignedAdd(a - b, b, m);
  }

  /** Reducing after each addition is associative. */
  lemma SignedAddAssociative(a: int, b: int, c: int, m: int)
    requires m > 0 && m % 2 == 0
    ensures Signed(Signed(a + b, m) + c, m) == Signed(a + Signed(b + c, m), m)
  {
    SignedAdd(a + b, c, m);
    SignedAdd(b + c, a, m);
  }

  /** Reducing after each multiplication is associative. */
  lemma SignedMulAssociative(a: int, b: int, c: int, m: int)
    requires m > 0 && m % 2 == 0
    ensures Signed(Signed(a * b, m) * c, m) == Signed(a * Signed(b * c, m), m)
  {
    var ab, bc := a * b, b * c;
    MulAssociative(a, b, c);
    SignedMul(ab, c, m);
    SignedMul(bc, a, m);
  }

  /** Reducing after each step, multiplication distributes over addition. */
  lemma SignedMulDistributes(a: int, b: int, c: int, m: int)
    requires m > 0 && m % 2 == 0
    ensures Signed(a * Signed(b + c, m), m) == Signed(Signed(a * b, m) + Signed(a * c, m), m)
  {
    var ab, ac := a * b, a * c;
    MulDistributes(a, b, c);
    SignedMul(b + c, a, m);
    SignedAdd(ab, Signed(ac, m), m);
    SignedAdd(ac, ab, m);
  }

  lemma MulDistributes(a: int, b: int, c: int)
    ensures a * (b + c) == a * b + a * c
  {
  }

  lemma MulAssociative(a: int, b: int, c: int)
    ensures (a * b) * c == a * (b * c)
  {
  }

  /** The signed reduction of `x` is the only value of the signed range congruent to `x`. */
  lemma SignedUnique(x: int, r: int, m: int)
    requires m > 0 && m % 2 == 0 && -(m / 2) <= r < m / 2 && Congruent(r, x, m)
    ensures Signed(x, m) == r
  {
    CongruentSym(r, x, m);
    SignedCongruent(x, r, m);
  }

  lemma UnsignedUnique(x: int, r: int, m: int)
    requires m > 0 && 0 <= r < m && Congruent(r, x, m)
    ensures Unsigned(x, m) == r
  {
    CongruentSym(r, x, m);
    UnsignedCongruent(x, r, m);
  }

  function ToU8(x: int): uint8 { Unsigned(x, TWO8) }
  function ToI8(x: int): int8 { Signed(x, TWO8) }
  function ToU16(x: int): uint16 { Unsigned(x, TWO16) }
  function ToI16(x: int): int16 { Signed(x, TWO16) }
  function ToU32(x: int): uint32 { Unsigned(x, TWO32) }
  function ToI32(x: int): int32 { Signed(x, TWO32) }
  function ToU64(x: int): uint64 { Unsigned(x, TWO64) }
  function ToI64(x: int): int64 { Signed(x, TWO64) }

  /** Reinterpreting a signed value as unsigned and back is the identity, and the converse. */
  lemma SignedUnsignedRoundTrip(x: int, u: int, m: int)
    requires m > 0 && m % 2 == 0 && -(m / 2) <= x < m / 2 && 0 <= u < m
    ensures Signed(Unsigned(x, m), m) == x
    ensures Unsigned(Signed(u, m), m) == u
  {
    SignedCongruent(Unsigned(x, m), x, m);
    UnsignedCongruent(Signed(u, m), u, m);
  }

  lemma SignedUnsignedRoundTrip32(x: int32, u: uint32)
    ensures ToI32(ToU32(x)) == x
    ensures ToU32(ToI32(u)) == u
  {
    SignedUnsignedRoundTrip(x, u, TWO32);
  }

  lemma SignedUnsignedRoundTrip64(x: int64, u: uint64)
    ensures ToI64(ToU64(x)) == x
    ensures ToU64(ToI64(u)) == u
  {
    SignedUnsignedRoundTrip(x, u, TWO64);
  }

  //===------------------------------------------------------------------===//
  // Division by a positive number: floor semantics
  //===------------------------------------------------------------------===//

  /** Dafny's `/` by a positive `p` is the floor of the exact quotient. */
  lemma FloorDiv(x: int, p: int)
    requires p > 0
    ensures (x / p) * p <= x < (x / p + 1) * p
  {
    assert x == (x / p) * p + x % p;
    assert (x / p + 1) * p == (x / p) * p + p;
  }

  /** The floor quotient by `p >= 1` lies between `x` and zero. */
  lemma FloorDivBetween(x: int, p: int)
    requires p >= 1
    ensures x >= 0 ==> 0 <= x / p <= x
    ensures x < 0 ==> x <= x / p < 0
    ensures p >= 2 && x >= 0 ==> 2 * (x / p) <= x
  {
    if x >= 0 {
      DivBound(x, p);
    } else {
      FloorDivNegative(x, p);
    }
  }

  lemma FloorDivNegative(x: int, p: int)
    requires p >= 1 && x < 0
    ensures x <= x / p < 0
  {
    var q, r := x / p, x % p;
    assert x == q * p + r && 0 <= r < p;
    if q >= 0 {
      MulNonNegative(q, p);
    }
    if q < x {
      assert (q + 1) * p == q * p + p;
      MulNonPositive(q + 1, p - 1);
    }
  }

  /**
   * Multiplying by `p` and reducing modulo `q * p` is reducing modulo `q`
   * and then multiplying; dividing by `p` afterwards undoes the multiplication.
   */
  lemma MulModMul(a: int, p: int, q: int)
    requires a >= 0 && p >= 1 && q >= 1
    ensures (a * p) % (q * p) == (a % q) * p
    ensures ((a * p) % (q * p)) / p == a % q
  {
    var k, r := a / q, a % q;
    assert a == k * q + r && 0 <= r < q;
    assert a * p == k * (q * p) + r * p;
    assert r * p < q * p by {
      assert q * p == r * p + (q - r) * p;
      MulAtLeast(q - r, p);
    }
    assert r * p >= 0;
    ModUnique(a * p, q * p, k, r * p);
    ModUnique(r * p, p, r, 0);
  }

  //===------------------------------------------------------------------===//
  // C division of signed integers: truncation toward zero
  //===------------------------------------------------------------------===//

  function TruncDiv(a: int, b: int): int
    requires b != 0
  {
    if (a < 0) == (b < 0) then Abs(a) / Abs(b) else -(Abs(a) / Abs(b))
  }

  function TruncRem(a: int, b: int): int
    requires b != 0
  {
    if a < 0 then -(Abs(a) % Abs(b)) else Abs(a) % Abs(b)
  }

  /** `TruncDiv(a, b) * b` is the largest multiple of `|b|` not above `|a|`, with the sign of `a`. */
  lemma TruncDivTimes(a: int, b: int)
    requires b != 0
    ensures TruncDiv(a, b) * b == if a < 0 then -((Abs(a) / Abs(b)) * Abs(b)) else (Abs(a) / Abs(b)) * Abs(b)
  {
    var Q: int, B: int := Abs(a) / Abs(b), Abs(b);
    if a < 0 && b < 0 {
      assert TruncDiv(a, b) == Q && b == -B;
    } else if a < 0 {
      assert TruncDiv(a, b) == -Q && b == B;
    } else if b < 0 {
      assert TruncDiv(a, b) == -Q && b == -B;
      assert (-Q) * (-B) == Q * B;
    } else {
      assert TruncDiv(a, b) == Q && b == B;
    }
  }

  /**
   * C's quotient and remainder: they recombine to the dividend, the remainder
   * is smaller than the divisor in magnitude and is zero or has the sign of the
   * dividend, and the quotient is the exact quotient rounded toward zero.
   */
  lemma TruncDivRem(a: int, b: int)
    requires b != 0
    ensures a == TruncDiv(a, b) * b + TruncRem(a, b)
    ensures Abs(TruncRem(a, b)) < Abs(b)
    ensures TruncRem(a, b) == 0 || (TruncRem(a, b) < 0 <==> a < 0)
    ensures Abs(TruncDiv(a, b) * b) <= Abs(a) < Abs(TruncDiv(a, b) * b) + Abs(b)
    ensures TruncDiv(a, b) == 0 || (TruncDiv(a, b) < 0 <==> (a < 0) != (b < 0))
  {
    var A: int, B: int := Abs(a), Abs(b);
    var Q: int, R: int := A / B, A % B;
    TruncDivTimes(a, b);
    EuclidNat(A, B);
  }

  lemma EuclidNat(A: int, B: int)
    requires A >= 0 && B > 0
    ensures A == (A / B) * B + A % B && 0 <= A % B < B
    ensures A / B >= 0 && (A / B) * B >= 0
  {
  }

  /** The properties of `TruncDivRem` determine the quotient and the remainder. */
  lemma TruncDivRemUnique(a: int, b: int, q: int, r: int)
    requires b != 0 && a == q * b + r && Abs(r) < Abs(b)
    requires r == 0 || (r < 0 <==> a < 0)
    ensures q == TruncDiv(a, b) && r == TruncRem(a, b)
  {
    if a >= 0 && b > 0 {
      assert q == TruncDiv(a, b) && r == TruncRem(a, b) by {
        assert 0 <= r < b;
        ModUnique(a, b, q, r);
      }
    } else if a >= 0 {
      assert q == TruncDiv(a, b) && r == TruncRem(a, b) by {
        assert 0 <= r < -b;
        assert (-q) * (-b) == q * b;
        ModUnique(a, -b, -q, r);
        assert TruncDiv(a, b) == -(a / -b);
      }
    } else if b > 0 {
      assert q == TruncDiv(a, b) && r == TruncRem(a, b) by {
        assert 0 <= -r < b;
        assert (-q) * b == -(q * b);
        ModUnique(-a, b, -q, -r);
        assert TruncDiv(a, b) == -(-a / b);
      }
    } else {
      assert q == TruncDiv(a, b) && r == TruncRem(a, b) by {
        assert 0 <= -r < -b;
        assert q * (-b) == -(q * b);
        ModUnique(-a, -b, q, -r);
        assert TruncDiv(a, b) == -a / -b;
      }
    }
  }

  lemma MulNonNegative(a: int, b: int)
    requires a >= 0 && b >= 0
    ensures a * b >= 0
  {
  }

  lemma MulNonPositive(a: int, b: int)
    requires a <= 0 && b >= 0
    ensures a * b <= 0
  {
    MulNonNegative(-a, b);
  }

  /** Dividing a natural number by at least one (or at least two) does not increase it (halves it). */
  lemma DivBound(A: int, B: int)
    requires A >= 0 && B >= 1
    ensures 0 <= A / B <= A
    ensures B >= 2 ==> 2 * (A / B) <= A
  {
    var Q, R := A / B, A % B;
    assert A == Q * B + R && R >= 0;
    if Q < 0 {
      MulNonPositive(Q, B);
    }
    MulNonNegative(if Q < 0 then 0 else Q, B - 1);
    assert Q * B == Q * (B - 1) + Q;
    if B >= 2 && Q >= 0 {
      MulNonNegative(Q, B - 2);
      assert Q * B == Q * (B - 2) + 2 * Q;
    }
  }

  /**
   * With both operands in a signed range of `2 * h` values, the quotient stays
   * in that range unless the dividend is the minimum and the divisor is -1.
   */
  lemma TruncDivInRange(a: int, b: int, h: int)
    requires h > 0 && -h <= a < h && -h <= b < h && b != 0
    requires !(a == -h && b == -1)
    ensures -h <= TruncDiv(a, b) < h
    ensures -h <= TruncRem(a, b) < h
  {
    DivBound(Abs(a), Abs(b));
    TruncDivRem(a, b);
  }
}
