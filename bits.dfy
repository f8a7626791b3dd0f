/**
 * Bitwise operations on the `n` low bits of natural numbers.
 *
 * C's `&`, `|`, `^` and `~` act on the binary representation of their
 * operands. Here they are defined one bit at a time on unsigned values of
 * `n` bits, which is how the VM's ops reach them: the operand is first
 * reinterpreted as `uint32_t` or `uint64_t`.
 */
module Bits {
  import opened Ints

  datatype BitOp = And | Or | Xor

  function ApplyBit(op: BitOp, x: bool, y: bool): bool
  {
    match op
    case And => x && y
    case Or => x || y
    case Xor => x != y
  }

  /** Bit `i` (counting from the least significant, bit 0) of `x`. */
  function Bit(x: nat, i: nat): bool
  {
    if i == 0 then x % 2 == 1 else Bit(x / 2, i - 1)
  }

  /** The `n` low bits of `a op b`, built from the least significant bit up. */
  function Bitwise(op: BitOp, a: nat, b: nat, n: nat): (r: nat)
    ensures r < Pow2(n)
  {
    if n == 0 then 0
    else (if ApplyBit(op, a % 2 == 1, b % 2 == 1) then 1 else 0) + 2 * Bitwise(op, a / 2, b / 2, n - 1)
  }

  /** The `n` low bits of `~a`. */
  function Complement(a: nat, n: nat): (r: nat)
    ensures r < Pow2(n)
  {
    if n == 0 then 0 else (1 - a % 2) + 2 * Complement(a / 2, n - 1)
  }

  /** Bit `i` of `a op b` is `op` applied to bit `i` of `a` and bit `i` of `b`. */
  lemma {:induction false} BitwiseBit(op: BitOp, a: nat, b: nat, n: nat, i: nat)
    requires i < n
    ensures Bit(Bitwise(op, a, b, n), i) == ApplyBit(op, Bit(a, i), Bit(b, i))
  {
    var r := Bitwise(op, a, b, n);
    var rest := Bitwise(op, a / 2, b / 2, n - 1);
    assert r % 2 == (if ApplyBit(op, a % 2 == 1, b % 2 == 1) then 1 else 0);
    assert r / 2 == rest;
    if i > 0 {
      BitwiseBit(op, a / 2, b / 2, n - 1, i - 1);
    }
  }

  /** Bit `i` of `~a` is the negation of bit `i` of `a`. */
  lemma {:induction false} ComplementBit(a: nat, n: nat, i: nat)
    requires i < n
    ensures Bit(Complement(a, n), i) == !Bit(a, i)
  {
    var r := Complement(a, n);
    assert r % 2 == 1 - a % 2;
    assert r / 2 == Complement(a / 2, n - 1);
    if i > 0 {
      ComplementBit(a / 2, n - 1, i - 1);
    }
  }

  /** On `n`-bit values, `~a` is `2^n - 1 - a`. */
  lemma {:induction false} ComplementValue(a: nat, n: nat)
    requires a < Pow2(n)
    ensures Complement(a, n) == Pow2(n) - 1 - a
  {
    if n > 0 {
      ComplementValue(a / 2, n - 1);
    }
  }

  lemma {:induction false} BitwiseCommutes(op: BitOp, a: nat, b: nat, n: nat)
    ensures Bitwise(op, a, b, n) == Bitwise(op, b, a, n)
  {
    if n > 0 {
      BitwiseCommutes(op, a / 2, b / 2, n - 1);
    }
  }

  /** Xor-ing twice with the same value gives back an `n`-bit value. */
  lemma {:induction false} XorTwice(a: nat, b: nat, n: nat)
    requires a < Pow2(n)
    ensures Bitwise(Xor, Bitwise(Xor, a, b, n), b, n) == a
  {
    if n > 0 {
      var c := Bitwise(Xor, a, b, n);
      assert c / 2 == Bitwise(Xor, a / 2, b / 2, n - 1);
      XorTwice(a / 2, b / 2, n - 1);
    }
  }

  /** `~(a & b) == ~a | ~b` on `n` bits. */
  lemma {:induction false} DeMorgan(a: nat, b: nat, n: nat)
    ensures Complement(Bitwise(And, a, b, n), n) == Bitwise(Or, Complement(a, n), Complement(b, n), n)
  {
    if n > 0 {
      var c := Bitwise(And, a, b, n);
      var ca, cb := Complement(a, n), Complement(b, n);
      assert c / 2 == Bitwise(And, a / 2, b / 2, n - 1);
      assert ca / 2 == Complement(a / 2, n - 1) && ca % 2 == 1 - a % 2;
      assert cb / 2 == Complement(b / 2, n - 1) && cb % 2 == 1 - b % 2;
      DeMorgan(a / 2, b / 2, n - 1);
    }
  }

  /** `a & ~a == 0` and `a | ~a` is all ones, on `n` bits. */
  lemma {:induction false} ComplementLaws(a: nat, n: nat)
    ensures Bitwise(And, a, Complement(a, n), n) == 0
    ensures Bitwise(Or, a, Complement(a, n), n) == Pow2(n) - 1
  {
    if n > 0 {
      var ca := Complement(a, n);
      assert ca / 2 == Complement(a / 2, n - 1) && ca % 2 == 1 - a % 2;
      ComplementLaws(a / 2, n - 1);
    }
  }
}
