# bigint.c in Dafny

`bigint.c` is a 128-bit two's-complement integer library built from byte
operations only. A `BigInt` is `unsigned char[16]`, little-endian: byte 0 is
the least significant and bit 7 of byte 15 is the sign bit. The library has
eight routines, each writing into a caller-supplied `res` that may be the
same array as an operand:

- `big_val` builds a number from a `long`, sign-extended to 128 bits;
- `big_comp2` negates by `~a + 1`;
- `big_sum` adds with a carry chain;
- `big_sub` subtracts with a borrow chain;
- `big_shl`, `big_shr` and `big_sar` are the logical left shift and the
  logical and arithmetic right shifts. Each splits the count into a byte move
  and a bit pass through a temporary buffer;
- `big_mul` multiplies by shift-and-add, built from `big_sum` and `big_shl`.

The model has six modules:

- `Arith` holds powers of two and facts about Euclidean division.
- `LittleEndian` holds `Value(s)`, the number a little-endian byte string
  denotes, with `Encode` as its inverse.
- `Int128` gives the meaning of each routine as a function of its operands'
  values. `Value` is the unsigned reading and `Signed` the two's-complement
  reading. `FromValue` reduces an integer modulo 2^128. The module also proves
  the laws that the library's tests check by sampling: negation is an
  involution, addition and multiplication are commutative and associative,
  multiplication distributes, subtraction is addition of the negation, and the
  shifts behave correctly at their boundaries.
- `BigIntOps`, `BigIntShifts` and `BigIntMul` hold the routines themselves.
  Each is a method on `array<byte>` with the same loops, branches and
  temporaries as the C code.
  - Each method's postcondition is `res[..] == F(old(a[..]), ...)`, where `F`
    is the matching `Int128` function. It holds when `res` is the same array
    as an operand.
  - The loop invariants are the carry and borrow chains of the C code:
    - After byte i, the low i bytes and the carry together equal the partial
      sum. The carry or borrow stays in {0, 1}.
    - In the shifts, the bit pass keeps its carry below 2^bit_shift.
    - In `big_mul`, after bit k of b, `acc == a * (b mod 2^k) mod 2^128` and
      `sh == a * 2^k mod 2^128`.

The C operators are modelled as follows:

- `x & 0xFF` is `x % 256`, and `x >> 8` is `x / 256`.
- `x << s` is `x * Pow2(s)`, and `x >> s` is `x / Pow2(s)`.
- `t & ((1u << s) - 1u)` is `t % Pow2(s)`.
- The `|` that merges a shifted byte with the carry is `+`, because the two
  operands never share a set bit. The invariant on the carry is what shows
  this.
- `(unsigned long)val` is `val % 2^64`, C's conversion rule.
- `memcpy` is `Copy`, a 16-byte copy loop.
- `big_shl`'s `res != a` guard is kept.

Some C loop bodies are split into helper methods and step lemmas:

- `ShiftBytesLeft`, `ShiftBitsLeft`, `ShiftBytesRight` and `ShiftBitsRight`
  are the byte move and the bit pass of the shifts.
- `MulByte` is the inner loop of `big_mul`, and `MulStep` its body.
- `AddInto` and `ShiftOne` are its `big_sum`/`memcpy` and `big_shl`/`memcpy`
  pairs.

Each helper works on the same arrays in the same order as the C lines it
replaces.

## Model

| member | source | states |
|---|---|---|
| BigIntOps.Val | bigint.c:9-36 | `res` becomes `FromLong(val)`: every byte is written, the signed reading is `val`, and bytes 8..15 are all 0xFF for a negative `val` and 0x00 otherwise |
| BigIntOps.ValPrefix | bigint.c:21-25 | after byte i of the `long` loop, the low i+1 bytes hold `(unsigned long)val mod 256^(i+1)` and `temp` holds the bytes not yet written |
| BigIntOps.ValOfParts | bigint.c:21-35 | eight low bytes holding `(unsigned long)val`, followed by eight bytes of 0x00 or 0xFF according to the sign, are exactly `FromLong(val)` |
| Int128.FromLong | bigint.c:9-36 | the sign-extended number reads back as `val` when read as signed, as `val mod 2^128` when read unsigned, and its bytes 8..15 are all 0xFF for a negative `val` and 0x00 otherwise |
| Int128.SignExtension | bigint.c:27-35 | for every `long` v, bytes 8..15 of v reduced modulo 2^128 are all 0xFF when v is negative and all 0x00 otherwise |
| BigIntOps.Comp2 | bigint.c:39-49 | `res` becomes `Negated(a)`, even when `res` is `a` |
| BigIntOps.Comp2Prefix | bigint.c:43-48 | one byte of `~a + 1`: the complemented byte plus the carry keeps `Value(res[..i]) + carry * 256^i == 256^i - Value(a[..i])`, and the carry stays in {0, 1} |
| Int128.Negated | bigint.c:39-49 | the two's complement has value `(2^128 - Value(a)) mod 2^128` |
| BigIntOps.Sum | bigint.c:52-62 | `res` becomes `Plus(a, b)`, even when `res` is `a` or `b` |
| BigIntOps.SumPrefix | bigint.c:57-60 | one byte of the carry chain: the low i+1 bytes plus `carry * 256^(i+1)` equal the sum of the operands' low i+1 bytes, and the carry stays in {0, 1} |
| Int128.Plus | bigint.c:52-62 | the sum has value `(Value(a) + Value(b)) mod 2^128` |
| BigIntOps.Sub | bigint.c:65-81 | `res` becomes `Minus(a, b)`, even when `res` is `a` or `b`; the borrow stays in {0, 1} after every byte |
| BigIntOps.SubPrefix | bigint.c:69-79 | one byte of the borrow chain: the low i+1 bytes equal `a[..i+1] - b[..i+1] + borrow * 256^(i+1)` |
| Int128.Minus | bigint.c:65-81 | the difference has value `(Value(a) - Value(b)) mod 2^128` |
| BigIntShifts.Shl | bigint.c:85-119 | `res` becomes `ShiftedLeft(a, n)`: `a` itself for n <= 0, zero for n >= 128, `a * 2^n mod 2^128` otherwise; also when `res` is `a` |
| BigIntShifts.ShiftBytesLeft | bigint.c:102-105 | the byte move leaves `byte_shift` zero bytes followed by the low `16 - byte_shift` bytes of `a` |
| BigIntShifts.ShiftBitsLeft | bigint.c:108-115 | the bit pass multiplies the buffer's value by `2^bit_shift` modulo 2^128 |
| BigIntShifts.BitsLeftPrefix | bigint.c:110-114 | one byte of the left bit pass: the low i+1 bytes plus the carry times `256^(i+1)` equal the first i+1 bytes' value times `2^bit_shift`, and the carry stays below `2^bit_shift` |
| BigIntShifts.BytesLeftValue | bigint.c:102-105 | the byte move multiplies the value by `256^byte_shift` modulo 2^128 |
| BigIntShifts.ShlResult | bigint.c:95-118 | a byte move by `n / 8` followed by a bit pass by `n % 8` is the left shift by n |
| Int128.ShiftedLeft | bigint.c:85-119 | for n <= 0 the result is `a`; otherwise its value is `Value(a) * 2^n mod 2^128` |
| BigIntShifts.Shr | bigint.c:123-163 | `res` becomes `ShiftedRight(a, n)`: `a` itself for n <= 0, zero for n >= 128, `Value(a) / 2^n` otherwise; also when `res` is `a` |
| BigIntShifts.ShiftBytesRight | bigint.c:144-147 | the byte move leaves the high `16 - byte_shift` bytes of `a` followed by `byte_shift` copies of the fill byte |
| BigIntShifts.ShiftBitsRight | bigint.c:152-159 | the downward bit pass, started with carry c below `2^bit_shift`, leaves `(Value(tmp) + c * 2^128) / 2^bit_shift` |
| BigIntShifts.BitsRightPrefix | bigint.c:154-158 | one byte of the right bit pass: the new byte is below 256 (the `|` joins disjoint bits), and the bytes from i up, times `2^bit_shift`, plus the new carry, equal the old bytes from i up |
| BigIntShifts.BytesRightValue | bigint.c:144-147 | the value after the byte move is `Value(a) / 256^byte_shift` plus the fill bytes at the top |
| BigIntShifts.ShrResult | bigint.c:136-162 | a zero-filled byte move by `n / 8` followed by a bit pass by `n % 8` is the logical right shift by n |
| Int128.ShiftedRight | bigint.c:123-163 | for n <= 0 the result is `a`; otherwise its value is `Value(a) / 2^n` |
| BigIntShifts.Sar | bigint.c:167-210 | `res` becomes `ShiftedRightArith(a, n)`: `a` itself for n <= 0, 16 copies of the sign byte for n >= 128, the floor of `Signed(a) / 2^n` otherwise; also when `res` is `a` |
| BigIntShifts.SarBytesSigned | bigint.c:188-194 | a byte move filled with the sign byte divides the signed value by `256^byte_shift`, rounding down |
| BigIntShifts.SarBitsSigned | bigint.c:200-207 | a bit pass started with the carry `2^bit_shift - 1` for a negative number and 0 otherwise divides the signed value by `2^bit_shift`, rounding down |
| BigIntShifts.SarResult | bigint.c:183-209 | the sign-filled byte move followed by the bit pass is the arithmetic right shift by n |
| Int128.ShiftedRightArith | bigint.c:167-210 | for n <= 0 the result is `a`; otherwise its signed reading is the floor of `Signed(a) / 2^n` |
| BigIntMul.Mul | bigint.c:213-237 | `res` becomes `Times(a, b)`, even when `res` is `a` or `b` |
| BigIntMul.MulByte | bigint.c:222-233 | the eight bits of byte k/8 of b take `acc == a * (b mod 2^k)` and `sh == a * 2^k` (mod 2^128) to the same relations at k + 8 |
| BigIntMul.MulStep | bigint.c:224-231 | one bit of b: adding `sh` when the bit is set and then doubling `sh` takes both relations from k to k + 1 |
| BigIntMul.NextBit | bigint.c:222-232 | `bj & 1` is bit k of b, and `bj >>= 1` leaves the remaining bits of the byte |
| BigIntMul.ByteOfValue | bigint.c:222 | byte j of b is `Value(b) / 2^(8j) mod 2^8` |
| BigIntMul.AddInto | bigint.c:225-227 | `big_sum` into a temporary, then `memcpy`, leaves `Plus(acc, sh)` in `acc` and does not change `sh` |
| BigIntMul.ShiftOne | bigint.c:229-231 | `big_shl` by one into a temporary, then `memcpy`, doubles `sh` modulo 2^128 |
| BigIntMul.BitSetStep | bigint.c:224-228 | a set bit k adds `a * 2^k` to `a * (b mod 2^k)`, giving `a * (b mod 2^(k+1))` modulo 2^128 |
| BigIntMul.BitClearStep | bigint.c:224 | when bit k is clear, `a * (b mod 2^k)` is already `a * (b mod 2^(k+1))` |
| BigIntMul.DoubleStep | bigint.c:229-231 | doubling `a * 2^k mod 2^128` gives `a * 2^(k+1) mod 2^128` |
| BigIntMul.MulResult | bigint.c:236 | after all 128 bits the accumulator is `Times(a, b)` |
| Int128.Times | bigint.c:213-237 | the product has value `Value(a) * Value(b) mod 2^128` |
| BigIntOps.Copy | bigint.c:118 | `memcpy`: the destination holds the source's bytes as they were on entry |
| BigIntOps.SetAll | bigint.c:91 | every byte of the destination is set to the given byte |
| Int128.NegatedInvolutive | testebigint.c:84-92 | `comp2(comp2(a)) == a` for every a |
| Int128.NegatedZero | testebigint.c:79-82 | `comp2(0) == 0` |
| Int128.NegatedSigned | bigint.c:39-49 | read as signed, comp2 negates every value except -2^127, which is its own two's complement |
| Int128.PlusCommutative | testebigint.c:338-347 | `a + b == b + a` |
| Int128.PlusAssociative | testebigint.c:354-363 | `(a + b) + c == a + (b + c)` |
| Int128.PlusNegatedIsZero | testebigint.c:325-336 | `a + comp2(a) == 0` |
| Int128.PlusSigned | bigint.c:52-62 | the same carry chain adds the signed readings: `a + b` is `Signed(a) + Signed(b)` modulo 2^128 |
| Int128.MinusIsPlusNegated | testebigint.c:108-115 | `sub(a, b) == sum(a, comp2(b))` for every a and b |
| Int128.MinusSelf | testebigint.c:104-106 | `sub(a, a) == 0` |
| Int128.TimesCommutative | testebigint.c:349-350 | `a * b == b * a` |
| Int128.TimesAssociative | bigint.c:213-237 | `(a * b) * c == a * (b * c)` |
| Int128.TimesDistributesOverPlus | testebigint.c:366-379 | `a * (b + c) == a * b + a * c` |
| Int128.TimesSigned | testebigint.c:170-174 | multiplication needs no sign handling: `a * b` is `Signed(a) * Signed(b)` modulo 2^128 |
| Int128.ShiftedLeftBeyondWidth | bigint.c:90-93 | shl by n >= 128 gives zero |
| Int128.ShiftedLeftLowBitsZero | bigint.c:100-115 | after shl by n > 0 the n low bits are zero |
| Int128.ShiftedLeftIsTimesPow2 | testebigint.c:393-400 | for 0 <= k < 63, `shl(a, k) == mul(a, big_val(1 << k))` |
| Int128.ShiftedRightBeyondWidth | bigint.c:129-133 | shr by n >= 128 gives zero |
| Int128.ShiftedRightHighBitsZero | bigint.c:141-159 | after shr by 0 < n <= 128 the n high bits are zero |
| Int128.ShiftedRightOfLong | testebigint.c:403-408 | for a non-negative `long` x, `shr(big_val(x), k) == big_val(x >> k)` |
| Int128.ShiftedRightArithBeyondWidth | bigint.c:175-181 | sar by n >= 128 fills every byte with 0xFF when bit 7 of byte 15 is set and with 0x00 otherwise |
| Int128.ShiftedRightArithOfNonNegative | testebigint.c:217-227 | sar and shr agree on non-negative numbers for every count |
| Int128.ShiftedRightArithOfNegative | testebigint.c:229-247 | for a negative number and n > 0, sar keeps the sign bit, shr clears it, so the two differ |
| Int128.ShiftsOfZero | testebigint.c:208-215 | shl, shr and sar of zero are zero for every count |
| Int128.FromLongOfOne | testebigint.c:44-52 | `big_val(1)` is `{0x01, 0 x 15}` |
| Int128.FromLongOfMinusTwo | testebigint.c:54-63 | `big_val(-2)` is `{0xFE, 0xFF x 15}` |
| Int128.FromLongOfMinusOne | testebigint.c:65-68 | `big_val(-1)` is sixteen 0xFF bytes |
| Int128.NegatedExample | testebigint.c:74-77 | `comp2(big_val(-6)) == big_val(6)` |
| Int128.PlusExample | testebigint.c:98-102 | `sum(big_val(-5), big_val(12)) == big_val(7)` |
| Int128.TimesExample | testebigint.c:173-174 | `mul(big_val(-5), big_val(-7)) == big_val(35)` |
| Int128.ShiftedLeftOfOne | testebigint.c:121-126 | for 0 <= k < 63, `shl(big_val(1), k) == big_val(2^k)`; with k = 8 this is `0x0100` |
| Int128.ShiftedRightArithOfMinusOne | testebigint.c:134-138 | `sar(big_val(-1), n) == big_val(-1)` for every n |

## Left out

- `testebigint.c` is a test harness. Its printing (`dump_hex`), its `memcmp`
  and `assert` comparison (`expect_equal`), `main` and the `__int128` oracle
  are not modelled. Its assertions appear above only as the lemmas they
  sample.
- `bigint.h` is not part of this model. `BigInt` is taken to be
  `unsigned char[16]`.
- `long` is fixed at 64 bits, the LP64 data model. The loop over
  `sizeof(long)` bytes uses the constant `LongBytes == 8`.
- The shift count `n` is an unbounded integer rather than a 32-bit C `int`.
  The C code treats every `int` value the same way the model does.
- `memcpy` on fully overlapping buffers at bigint.c:126 and bigint.c:170 is
  undefined in C. `Copy` gives it the evident meaning: the destination keeps
  its bytes.
- The C helper buffers are locals on the stack. In the model they are fresh
  arrays, so they cannot alias the caller's arrays.
