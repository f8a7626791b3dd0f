# IREE VM scalar operations in Dafny

This project models the scalar operations of the IREE virtual machine, as
defined in `iree/vm/ops.h`. The bytecode interpreter and the generated C
modules use these small functions as the meaning of the VM's integer
instructions. The model covers:

- global load and store of an `i32` in the module's global byte buffer;
- conditional select;
- wrapping add, sub and mul;
- signed and unsigned division and remainder;
- not, and, or and xor;
- truncation and sign or zero extension between 8, 16, 32 and 64 bits;
- shifts;
- comparisons returning 0 or 1;
- `vm_fail_or_ok`.

The arithmetic, bitwise, shift, comparison and select ops exist for `i32` and for the `ExtI64` extension. The globals, the 8- and 16-bit casts and `vm_fail_or_ok` are 32-bit only; `ExtI64` adds just the casts between 32 and 64 bits.

Files:

- `ints.dfy` (module `Ints`): the C integer types as ranges of `int`.
  - C casts become modular reductions: `Unsigned`, and `Signed` (two's complement). The wrappers `ToU8` … `ToI64` are plain renamings of those two.
  - C's signed `/` and `%` truncate toward zero. They are `TruncDiv` and `TruncRem`.
  - It also holds the congruence algebra the proofs use.
- `bits.dfy` (module `Bits`): `&`, `|`, `^` and `~`, defined bit by bit on the `n` low bits of a natural number, with their bit-level and arithmetic laws.
- `ops_i32.dfy` (module `VmOps`): the `vm_*_i32` ops, `vm_select_i32` and `vm_fail_or_ok`.
- `ops_i64.dfy` (module `VmOpsI64`): the `vm_*_i64` ops and the 32/64-bit conversions.
- `globals.dfy` (module `VmGlobals`): the byte encoding of an `int32_t` and the global accessors.
  - `vm_global_load_i32` is a function that reads the buffer.
  - `vm_global_store_i32` is a method that modifies the buffer in place.
  - Both are proved against the sequence-level functions `LoadFrom` and `StoreInto`.

Values are Dafny integers restricted to the range of their C type. A C
conversion to an unsigned type reduces modulo 2^n. A conversion to a signed
type picks the representative in [-2^(n-1), 2^(n-1)).

The model makes these assumptions about behaviour that C leaves to the
implementation:

- Signed overflow in `+`, `-`, `*` and `<<` wraps modulo 2^n. The model assumes two's-complement wrap; C leaves it undefined.
- Converting an out-of-range value to a signed type is two's complement.
- `>>` on a negative operand is an arithmetic shift, that is floor division by 2^amount.
- Globals are stored least significant byte first.

The cases C leaves undefined are preconditions. They are:

- division or remainder by zero;
- `INT_MIN / -1` and `INT_MIN % -1`;
- shift amounts outside [0, width);
- a global access outside the buffer.

## Model

| member | source | states |
|---|---|---|
| Ints.Unsigned | iree/vm/ops.h:56-58 | conversion to an unsigned type with m values lands in [0, m), is congruent to the input modulo m, and is the identity on that range |
| Ints.Signed | iree/vm/ops.h:56-58 | conversion to a two's-complement type with m values lands in [-m/2, m/2), is congruent to the input, and is the identity on that range |
| Ints.SignedUnsignedRoundTrip32 | iree/vm/ops.h:56-58 | reinterpreting an `int32_t` as `uint32_t` and back is the identity, and so is the converse |
| Ints.SignedUnsignedRoundTrip64 | iree/vm/ops.h:161-163 | the same for `int64_t` and `uint64_t` |
| Ints.TruncDivRem | iree/vm/ops.h:53-61 | C's quotient and remainder recombine to the dividend; the remainder is smaller than the divisor in magnitude and is zero or has the dividend's sign; the quotient is rounded toward zero and is zero or has the sign of the exact quotient |
| Ints.TruncDivRemUnique | iree/vm/ops.h:53-61 | any quotient and remainder with those properties are C's |
| Ints.TruncDivInRange | iree/vm/ops.h:53-55 | with operands in a signed range, the quotient and remainder stay in it, unless the dividend is the minimum and the divisor is -1 |
| Bits.BitwiseBit | iree/vm/ops.h:68-70 | bit i of `a op b` is op applied to bit i of a and bit i of b |
| Bits.ComplementBit | iree/vm/ops.h:65-67 | bit i of `~a` is the negation of bit i of a |
| Bits.ComplementValue | iree/vm/ops.h:65-67 | on n-bit values, `~a` equals 2^n - 1 - a |
| VmOps.SelectI32 | iree/vm/ops.h:41-44 | a non-zero condition selects the true value, a zero condition the false value |
| VmOps.SelectI32Swap | iree/vm/ops.h:41-44 | selecting on `condition == 0` with the operands swapped, or on `cmp_nz(condition)`, gives the same result |
| VmOps.AddI32 | iree/vm/ops.h:50 | the sum modulo 2^32 in the `int32` range, and the exact sum when it fits |
| VmOps.SubI32 | iree/vm/ops.h:51 | the difference modulo 2^32, exact when it fits |
| VmOps.MulI32 | iree/vm/ops.h:52 | the product modulo 2^32, exact when it fits |
| VmOps.AddSubInverseI32 | iree/vm/ops.h:50-51 | sub undoes add and add undoes sub, overflow included |
| VmOps.AddAssociativeI32 | iree/vm/ops.h:50 | wrapping addition is associative |
| VmOps.MulAssociativeI32 | iree/vm/ops.h:52 | wrapping multiplication is associative |
| VmOps.MulDistributesI32 | iree/vm/ops.h:50-52 | wrapping multiplication distributes over wrapping addition |
| VmOps.DivI32S | iree/vm/ops.h:53-55 | the quotient is rounded toward zero: abs(q*rhs) <= abs(lhs) < abs(q*rhs) + abs(rhs), and q is zero or has the sign of the exact quotient |
| VmOps.RemI32S | iree/vm/ops.h:59-61 | the remainder is smaller than the divisor in magnitude and is zero or has the sign of the dividend |
| VmOps.DivRemI32S | iree/vm/ops.h:53-61 | `lhs == div_i32s(lhs, rhs) * rhs + rem_i32s(lhs, rhs)` |
| VmOps.DivRemI32SUnique | iree/vm/ops.h:53-61 | those properties determine the signed quotient and remainder |
| VmOps.NonZeroUnsigned32 | iree/vm/ops.h:56-58 | a non-zero divisor is non-zero once read as `uint32_t`, so unsigned division is defined |
| VmOps.DivI32U | iree/vm/ops.h:56-58 | read as `uint32_t`, the result is the floor of the unsigned quotient: `q*rhs <= lhs < (q+1)*rhs` |
| VmOps.RemI32U | iree/vm/ops.h:62-64 | read as `uint32_t`, the result is below the divisor |
| VmOps.DivRemI32U | iree/vm/ops.h:56-64 | read as `uint32_t`, `lhs == q*rhs + r` with `r < rhs` |
| VmOps.Pattern32 | iree/vm/ops.h:65-67 | a 32-bit pattern read as `int32_t` and back as `uint32_t` is unchanged |
| VmOps.BitwiseI32Bits | iree/vm/ops.h:68-70 | each of the 32 result bits of and, or or xor is the operation on the operands' bits |
| VmOps.NotI32 | iree/vm/ops.h:65-67 | every one of the 32 bits is inverted, and the value is `-operand - 1` |
| VmOps.ComplementI32 | iree/vm/ops.h:65-67 | complementing the `uint32_t` pattern and reading it as `int32_t` gives `-x - 1` with every bit inverted |
| VmOps.ComplementValue32 | iree/vm/ops.h:65-67 | the complemented pattern is `2^32 - 1 - pattern`, congruent to `-x - 1` |
| VmOps.AndI32 | iree/vm/ops.h:68 | each result bit is set exactly when both operand bits are |
| VmOps.OrI32 | iree/vm/ops.h:69 | each result bit is set exactly when either operand bit is |
| VmOps.XorI32 | iree/vm/ops.h:70 | each result bit is set exactly when the operand bits differ |
| VmOps.XorI32Twice | iree/vm/ops.h:68-70 | xor with the same value twice is the identity; and, or and xor commute |
| VmOps.DeMorganI32 | iree/vm/ops.h:65-69 | the complement of `a & b` is the or of `~a` and `~b` |
| VmOps.ComplementLawsI32 | iree/vm/ops.h:65-69 | `a & ~a == 0`, and the or of `a` and `~a` is -1 |
| VmOps.Narrow32 | iree/vm/ops.h:76-81 | congruence modulo 2^32 carries over to 2^8 and 2^16 |
| VmOps.TruncI32I8 | iree/vm/ops.h:76-78 | the result lies in [0, 255] and equals the operand modulo 2^8 (its low 8 bits) |
| VmOps.TruncI32I16 | iree/vm/ops.h:79-81 | the result lies in [0, 65535] and equals the operand modulo 2^16 |
| VmOps.ExtI8I32S | iree/vm/ops.h:82-84 | the result lies in [-128, 127], keeps the low 8 bits, and is the identity on that range |
| VmOps.ExtI8I32U | iree/vm/ops.h:85-87 | zero extension of the low byte equals `trunc_i32i8` |
| VmOps.ExtI16I32S | iree/vm/ops.h:88-90 | the result lies in [-32768, 32767], keeps the low 16 bits, and is the identity on that range |
| VmOps.ExtI16I32U | iree/vm/ops.h:91-93 | zero extension of the low half-word equals `trunc_i32i16` |
| VmOps.ExtTruncI8 | iree/vm/ops.h:76-87 | sign extension after truncation is sign extension; truncation after sign extension is truncation |
| VmOps.ExtTruncI16 | iree/vm/ops.h:79-93 | the same for 16 bits |
| VmOps.ShlI32 | iree/vm/ops.h:99-101 | `operand * 2^amount` modulo 2^32, exact when it fits |
| VmOps.ShrI32S | iree/vm/ops.h:102-104 | the floor of `operand / 2^amount` (an arithmetic shift) |
| VmOps.ShrI32U | iree/vm/ops.h:105-107 | read as `uint32_t`, the floor of the pattern divided by 2^amount; non-negative once amount > 0 |
| VmOps.ShlIsMulI32 | iree/vm/ops.h:99-101 | a left shift is a wrapping multiplication by 2^amount |
| VmOps.ShrI32SNonNegative | iree/vm/ops.h:102-107 | on a non-negative operand the arithmetic and the logical shift agree |
| VmOps.ShlShrUI32 | iree/vm/ops.h:99-107 | shifting left and then logically right by the same amount clears the amount high bits of the pattern |
| VmOps.ShlPattern32 | iree/vm/ops.h:99-101 | the pattern of a left shift is the operand's pattern times 2^amount, modulo 2^32 |
| VmOps.ShrUPattern32 | iree/vm/ops.h:105-107 | the pattern of a logical right shift is the operand's pattern divided by 2^amount |
| VmOps.CmpEqI32 | iree/vm/ops.h:113-115 | the result is 0 or 1, and 1 exactly when the operands are equal |
| VmOps.CmpNeI32 | iree/vm/ops.h:116-118 | `cmp_ne == 1 - cmp_eq` |
| VmOps.CmpLtI32S | iree/vm/ops.h:119-121 | 0 or 1, and 1 exactly when lhs < rhs as signed values |
| VmOps.CmpLtI32U | iree/vm/ops.h:122-124 | 0 or 1; operands of the same sign compare as signed values; a negative lhs is never below a non-negative rhs, and a non-negative lhs is always below a negative rhs |
| VmOps.CmpNzI32 | iree/vm/ops.h:125-127 | `cmp_nz(x) == cmp_ne(x, 0)` |
| VmOps.FailOrOk | iree/vm/ops.h:133-140 | a zero status code gives OK, and any other gives FAILED_PRECONDITION, exactly when `cmp_nz` is 1 |
| VmOpsI64.SelectI64 | iree/vm/ops.h:146-149 | a non-zero 32-bit condition selects the true value, a zero one the false value |
| VmOpsI64.AddI64 | iree/vm/ops.h:155 | the sum modulo 2^64 in the `int64` range, exact when it fits |
| VmOpsI64.SubI64 | iree/vm/ops.h:156 | the difference modulo 2^64, exact when it fits |
| VmOpsI64.MulI64 | iree/vm/ops.h:157 | the product modulo 2^64, exact when it fits |
| VmOpsI64.AddSubInverseI64 | iree/vm/ops.h:155-156 | sub undoes add and add undoes sub, overflow included |
| VmOpsI64.RingLawsI64 | iree/vm/ops.h:155-157 | wrapping add and mul are associative, and mul distributes over add |
| VmOpsI64.DivI64S | iree/vm/ops.h:158-160 | the quotient is rounded toward zero and is zero or has the sign of the exact quotient |
| VmOpsI64.RemI64S | iree/vm/ops.h:164-166 | the remainder is smaller than the divisor in magnitude and is zero or has the sign of the dividend |
| VmOpsI64.DivRemI64S | iree/vm/ops.h:158-166 | `lhs == div_i64s(lhs, rhs) * rhs + rem_i64s(lhs, rhs)` |
| VmOpsI64.DivRemI64SUnique | iree/vm/ops.h:158-166 | those properties determine the signed quotient and remainder |
| VmOpsI64.NonZeroUnsigned64 | iree/vm/ops.h:161-163 | a non-zero divisor is non-zero once read as `uint64_t` |
| VmOpsI64.DivI64U | iree/vm/ops.h:161-163 | read as `uint64_t`, the floor of the unsigned quotient |
| VmOpsI64.RemI64U | iree/vm/ops.h:167-169 | read as `uint64_t`, below the divisor |
| VmOpsI64.DivRemI64U | iree/vm/ops.h:161-169 | read as `uint64_t`, `lhs == q*rhs + r` |
| VmOpsI64.Pattern64 | iree/vm/ops.h:170-172 | a 64-bit pattern read as `int64_t` and back as `uint64_t` is unchanged |
| VmOpsI64.BitwiseI64Bits | iree/vm/ops.h:173-175 | each of the 64 result bits of and, or or xor is the operation on the operands' bits |
| VmOpsI64.NotI64 | iree/vm/ops.h:170-172 | every one of the 64 bits is inverted, and the value is `-operand - 1` |
| VmOpsI64.ComplementI64 | iree/vm/ops.h:170-172 | complementing the `uint64_t` pattern and reading it as `int64_t` gives `-x - 1` with every bit inverted |
| VmOpsI64.ComplementValue64 | iree/vm/ops.h:170-172 | the complemented pattern is `2^64 - 1 - pattern`, congruent to `-x - 1` |
| VmOpsI64.AndI64 | iree/vm/ops.h:173 | each result bit is set exactly when both operand bits are |
| VmOpsI64.OrI64 | iree/vm/ops.h:174 | each result bit is set exactly when either operand bit is |
| VmOpsI64.XorI64 | iree/vm/ops.h:175 | each result bit is set exactly when the operand bits differ |
| VmOpsI64.XorI64Twice | iree/vm/ops.h:173-175 | xor with the same value twice is the identity; and, or and xor commute |
| VmOpsI64.DeMorganI64 | iree/vm/ops.h:170-174 | the complement of `a & b` is the or of `~a` and `~b` |
| VmOpsI64.ComplementLawsI64 | iree/vm/ops.h:170-174 | `a & ~a == 0`, and the or of `a` and `~a` is -1 |
| VmOpsI64.TruncI64I32 | iree/vm/ops.h:181-183 | the result equals the operand modulo 2^32 (its low 32 bits) and is the identity on the `int32` range |
| VmOpsI64.LowWord | iree/vm/ops.h:181-183 | going through `uint64_t`, `uint32_t` and back to `int32_t` keeps the value modulo 2^32 |
| VmOpsI64.ExtI32I64U | iree/vm/ops.h:187-189 | the result lies in [0, 2^32 - 1], equals the operand modulo 2^32, and equals a non-negative operand |
| VmOpsI64.ExtI32I64SignedUnsigned | iree/vm/ops.h:184-189 | both extensions agree on a non-negative operand; zero extension of a negative one is its sign extension plus 2^32 |
| VmOpsI64.TruncExtI32I64 | iree/vm/ops.h:181-189 | `trunc_i64i32(ext_i32i64s(x)) == x` and `trunc_i64i32(ext_i32i64u(x)) == x` |
| VmOpsI64.TruncIsToI32 | iree/vm/ops.h:181-183 | truncation is the conversion of the value to `int32_t` |
| VmOpsI64.ToI32OfToI64 | iree/vm/ops.h:181-183 | converting to `int64_t` first does not change the conversion to `int32_t` |
| VmOpsI64.TruncArithmeticI64 | iree/vm/ops.h:155-183 | the low 32 bits of the 64-bit add, sub and mul are the 32-bit op on the low 32 bits |
| VmOpsI64.TruncAddI64 | iree/vm/ops.h:155-183 | truncating a 64-bit add gives the 32-bit add of the truncated operands |
| VmOpsI64.TruncSubI64 | iree/vm/ops.h:156-183 | the same for sub |
| VmOpsI64.TruncMulI64 | iree/vm/ops.h:157-183 | the same for mul |
| VmOpsI64.ShlI64 | iree/vm/ops.h:195-197 | `operand * 2^amount` modulo 2^64, exact when it fits |
| VmOpsI64.ShrI64S | iree/vm/ops.h:198-200 | the floor of `operand / 2^amount` |
| VmOpsI64.ShrI64U | iree/vm/ops.h:201-203 | read as `uint64_t`, the floor of the pattern divided by 2^amount; non-negative once amount > 0 |
| VmOpsI64.ShlIsMulI64 | iree/vm/ops.h:195-197 | a left shift is a wrapping multiplication by 2^amount |
| VmOpsI64.ShrI64SNonNegative | iree/vm/ops.h:198-203 | on a non-negative operand the arithmetic and the logical shift agree |
| VmOpsI64.ShlShrUI64 | iree/vm/ops.h:195-203 | shifting left and then logically right by the same amount clears the amount high bits of the pattern |
| VmOpsI64.ShlPattern64 | iree/vm/ops.h:195-197 | the pattern of a left shift is the operand's pattern times 2^amount, modulo 2^64 |
| VmOpsI64.ShrUPattern64 | iree/vm/ops.h:201-203 | the pattern of a logical right shift is the operand's pattern divided by 2^amount |
| VmOpsI64.CmpEqI64 | iree/vm/ops.h:209-211 | 0 or 1, and 1 exactly when the operands are equal |
| VmOpsI64.CmpNeI64 | iree/vm/ops.h:212-214 | `cmp_ne == 1 - cmp_eq` |
| VmOpsI64.CmpLtI64S | iree/vm/ops.h:215-217 | 0 or 1, and 1 exactly when lhs < rhs as signed values |
| VmOpsI64.CmpLtI64U | iree/vm/ops.h:218-220 | 0 or 1; operands of the same sign compare as signed values; a negative lhs is never below a non-negative rhs, and a non-negative lhs is always below a negative rhs |
| VmOpsI64.CmpNzI64 | iree/vm/ops.h:221-223 | `cmp_nz(x) == cmp_ne(x, 0)` |
| VmOpsI64.CmpAgreesI32 | iree/vm/ops.h:209-220 | on extended 32-bit operands, the 64-bit eq and signed and unsigned lt agree with the 32-bit ones |
| VmGlobals.DecodeEncodeI32 | iree/vm/ops.h:26-35 | decoding the four little-endian bytes of a value gives the value back |
| VmGlobals.EncodeDecodeI32 | iree/vm/ops.h:26-35 | encoding the value four bytes decode to gives the bytes back |
| VmGlobals.LoadFrom | iree/vm/ops.h:26-29 | the loaded value is the one whose encoding is the four bytes at the offset |
| VmGlobals.StoreInto | iree/vm/ops.h:31-35 | the four bytes at the offset become the encoding of the value; the length and every other byte are unchanged |
| VmGlobals.LoadStoreSame | iree/vm/ops.h:26-35 | a load from where a value was stored returns that value |
| VmGlobals.LoadStoreDisjoint | iree/vm/ops.h:26-35 | a store does not change a load from four bytes it does not overlap |
| VmGlobals.StoreLoad | iree/vm/ops.h:26-35 | storing the value just loaded leaves the buffer as it was |
| VmGlobals.StoreStore | iree/vm/ops.h:31-35 | a second store to the same offset overwrites the first |
| VmGlobals.GlobalLoadI32 | iree/vm/ops.h:26-29 | `vm_global_load_i32` returns the value whose encoding is the four bytes at `byte_offset` |
| VmGlobals.GlobalStoreI32 | iree/vm/ops.h:31-35 | `vm_global_store_i32` writes the encoding of the value at `byte_offset`; a load there then returns the value, and no other byte of the buffer changes |

## Left out

- Overflow of signed `+`, `-`, `*` and `<<` (`vm_add/sub/mul/shl_i32/i64`) is undefined behaviour in C. The model assumes two's-complement wrap, which an optimising C compiler need not produce, and states this as an assumption rather than a property.
- `vm_shl_i32` and `vm_shl_i64` also shift negative operands, which C leaves undefined. The model shifts their two's-complement pattern.
- `vm_shr_i32s` and `vm_shr_i64s` on a negative operand are implementation-defined in C. The model takes the arithmetic shift (floor division by 2^amount).
- `vm_div_i32u`, `vm_rem_i32u`, `vm_not_i32`, `vm_shr_i32u`, their 64-bit counterparts and the truncations compute an unsigned value that C then converts to the signed result type. The model takes that conversion to be two's complement. C leaves it implementation-defined for out-of-range values.
- Globals: the model does not express the pointer cast's alignment requirement, strict aliasing, or the atomicity of the 4-byte access.
  - Byte order is fixed to little-endian.
  - `GlobalStoreI32` writes the four bytes one at a time. Only its final state is specified, which is what a single-threaded caller can observe.
- `FailOrOk`: the `message` argument and the allocation of the status object by `iree_status_allocate` are not modelled. The model returns only the status code (OK or FAILED_PRECONDITION), so the function takes no message parameter.
- `vm_ext_i32i64s` has no member of its own with a contract. It returns its operand unchanged. `VmOpsI64.ExtI32I64SignedUnsigned`, `VmOpsI64.TruncExtI32I64` and `VmOpsI64.CmpAgreesI32` state what it does.
- The helper functions `BitI32`, `BitwiseI32`, `BitI64` and `BitwiseI64` name the bit view of a value and have no contracts of their own.
- Only `iree/vm/ops.h` is modelled.
