/**
 * big_mul: shift-and-add multiplication. `acc` starts at zero and `sh` at
 * a; for each of the 128 bits of b, from the least significant, sh is added
 * into acc when the bit is set, and sh is doubled. After bit k, acc holds
 * a times the k low bits of b and sh holds a * 2^k, both modulo 2^128.
 */
module BigIntMul {
  import opened Arith
  import opened LittleEndian
  import opened Int128
  import opened BigIntOps
  import opened BigIntShifts

  /** big_mul: res = a * b modulo 2^128. */
  method Mul(res: array<byte>, a: array<byte>, b: array<byte>)
    requires res.Length == Size && a.Length == Size && b.Length == Size
    modifies res
    ensures res[..] == Times(old(a[..]), old(b[..]))
  {
    ghost var A: BigInt, B: BigInt := a[..], b[..];
    ghost var va: int, vb: int := Value(A), Value(B);
    var acc := new byte[Size];
    SetAll(acc, 0);
    var sh := new byte[Size];
    Copy(sh, a);
    ghost var k: nat := 0;
    ValueOfZeros(Size);
    ValueBelowModulus(A);
    MulStart(Value(acc[..]), Value(sh[..]), va, vb);
    for byte := 0 to Size
      modifies acc, sh
      invariant b[..] == B
      invariant k == 8 * byte
      invariant Value(acc[..]) == va * (vb % Pow2(k)) % Modulus
      invariant Value(sh[..]) == va * Pow2(k) % Modulus
    {
      ByteOfValue(B, byte);
      MulByte(acc, sh, b[byte], va, vb, k);
      k := k + 8;
    }
    MulResult(acc[..], A, B, k);
    Copy(res, acc);
  }

  /**
   * The inner loop of big_mul over the eight bits of bj, byte k / 8 of b,
   * least significant first.
   */
  method MulByte(acc: array<byte>, sh: array<byte>, bj: byte, ghost va: int, ghost vb: int, ghost k: nat)
    requires acc.Length == Size && sh.Length == Size && acc != sh
    requires bj == vb / Pow2(k) % Pow2(8)
    requires Value(acc[..]) == va * (vb % Pow2(k)) % Modulus
    requires Value(sh[..]) == va * Pow2(k) % Modulus
    modifies acc, sh
    ensures Value(acc[..]) == va * (vb % Pow2(k + 8)) % Modulus
    ensures Value(sh[..]) == va * Pow2(k + 8) % Modulus
  {
    var bits: int := bj;
    ghost var q: int := vb / Pow2(k);
    ghost var done: nat := k;
    ghost var rest: nat := 8;
    for bit := 0 to 8
      invariant done == k + bit && rest == 8 - bit
      invariant Value(acc[..]) == va * (vb % Pow2(done)) % Modulus
      invariant Value(sh[..]) == va * Pow2(done) % Modulus
      invariant q == vb / Pow2(done)
      invariant bits == q % Pow2(rest)
    {
      NextBit(vb, done, q, bits, rest);
      MulStep(acc, sh, bits % 2 == 1, va, vb, done);
      bits := bits / 2;
      q := q / 2;
      done := done + 1;
      rest := rest - 1;
    }
  }

  /** `big_sum(temp, acc, sh); memcpy(acc, temp);` */
  method AddInto(acc: array<byte>, sh: array<byte>)
    requires acc.Length == Size && sh.Length == Size && acc != sh
    modifies acc
    ensures acc[..] == Plus(old(acc[..]), sh[..])
    ensures Value(acc[..]) == (Value(old(acc[..])) + Value(sh[..])) % Modulus
    ensures sh[..] == old(sh[..])
  {
    var temp := new byte[Size];
    Sum(temp, acc, sh);
    Copy(acc, temp);
  }

  /** `big_shl(temp2, sh, 1); memcpy(sh, temp2);` */
  method ShiftOne(sh: array<byte>)
    requires sh.Length == Size
    modifies sh
    ensures sh[..] == ShiftedLeft(old(sh[..]), 1)
    ensures Value(sh[..]) == Value(old(sh[..])) * Pow2(1) % Modulus
  {
    var temp2 := new byte[Size];
    Shl(temp2, sh, 1);
    Copy(sh, temp2);
  }

  /** Before the first bit: acc == 0 == a * (b mod 2^0) and sh == a == a * 2^0. */
  lemma MulStart(acc: int, sh: int, va: int, vb: int)
    requires acc == 0 && sh == va && 0 <= va < Modulus
    ensures acc == va * (vb % Pow2(0)) % Modulus
    ensures sh == va * Pow2(0) % Modulus
  {
    DivModUnique(va, Modulus, 0, va);
  }

  /** Byte j of b is the low eight bits of b / 2^(8 j). */
  lemma ByteOfValue(b: BigInt, j: nat)
    requires j < Size
    ensures b[j] == Value(b) / Pow2(8 * j) % Pow2(8)
  {
    ValueSplit(b, j);
    ValueSuffixStep(b, j);
    Pow256IsPow2(j);
    assert Pow2(8) == 256;
    DivModUnique(Value(b[j..]), 256, Value(b[j + 1..]), b[j]);
  }

  /** bj holds the next rest bits of b, from bit k up: its bit 0 is bit k of b, and bj / 2 holds the following ones. */
  lemma NextBit(vb: int, k: nat, q: int, bj: int, rest: nat)
    requires q == vb / Pow2(k) && bj == q % Pow2(rest) && rest >= 1
    ensures (bj % 2 == 1) == (vb / Pow2(k) % 2 == 1)
    ensures bj / 2 == q / 2 % Pow2(rest - 1)
    ensures vb / Pow2(k + 1) == q / 2
  {
    LowBit(q, rest);
    ModPow2Step(vb, k);
  }

  /** Bit 0 of q's low j bits is bit 0 of q; the rest are the low j - 1 bits of q / 2. */
  lemma LowBit(q: int, j: nat)
    requires j >= 1
    ensures q % Pow2(j) % 2 == q % 2
    ensures q % Pow2(j) / 2 == q / 2 % Pow2(j - 1)
  {
    var p := Pow2(j - 1);
    assert Pow2(j) == 2 * p;
    ModOfProduct(q, 2, p);
    DivModUnique(q % (2 * p), 2, q / 2 % p, q % 2);
  }

  /**
   * The body of big_mul's inner loop, for bit k of b: `if (bj & 1)` adds sh
   * into acc, then sh is shifted left by one bit.
   */
  method MulStep(acc: array<byte>, sh: array<byte>, bitSet: bool, ghost va: int, ghost vb: int, ghost k: nat)
    requires acc.Length == Size && sh.Length == Size && acc != sh
    requires bitSet == (vb / Pow2(k) % 2 == 1)
    requires Value(acc[..]) == va * (vb % Pow2(k)) % Modulus
    requires Value(sh[..]) == va * Pow2(k) % Modulus
    modifies acc, sh
    ensures Value(acc[..]) == va * (vb % Pow2(k + 1)) % Modulus
    ensures Value(sh[..]) == va * Pow2(k + 1) % Modulus
  {
    ghost var accV, shV := Value(acc[..]), Value(sh[..]);
    if bitSet {
      AddInto(acc, sh);
      BitSetStep(accV, Value(acc[..]), shV, va, vb, k);
    } else {
      BitClearStep(accV, va, vb, k);
    }
    ShiftOne(sh);
    DoubleStep(shV, va, k);
  }

  /** Bit k of b is set: adding sh == a * 2^k to acc == a * (b mod 2^k) gives a * (b mod 2^(k + 1)). */
  lemma BitSetStep(acc: int, acc2: int, sh: int, va: int, vb: int, k: nat)
    requires acc == va * (vb % Pow2(k)) % Modulus && sh == va * Pow2(k) % Modulus
    requires vb / Pow2(k) % 2 == 1
    requires acc2 == (acc + sh) % Modulus
    ensures acc2 == va * (vb % Pow2(k + 1)) % Modulus
  {
    ModPow2Step(vb, k);
    AddStep(acc, sh, va, vb % Pow2(k), Pow2(k));
  }

  /** Bit k of b is clear: acc == a * (b mod 2^k) is already a * (b mod 2^(k + 1)). */
  lemma BitClearStep(acc: int, va: int, vb: int, k: nat)
    requires acc == va * (vb % Pow2(k)) % Modulus
    requires vb / Pow2(k) % 2 != 1
    ensures acc == va * (vb % Pow2(k + 1)) % Modulus
  {
    ModPow2Step(vb, k);
  }

  /** Adding sh == a * 2^k to acc == a * low accounts for bit k of b. */
  lemma AddStep(acc: int, sh: int, va: int, low: int, w: int)
    requires acc == va * low % Modulus && sh == va * w % Modulus
    ensures (acc + sh) % Modulus == va * (low + w) % Modulus
  {
    ModAddReduce(va * low, sh, Modulus);
    ModAddReduce(va * w, va * low, Modulus);
    assert va * low + sh == sh + va * low;
    MulDistributes(va, low, w);
    assert va * w + va * low == va * low + va * w;
  }

  /** Shifting sh == a * 2^k left by one bit gives a * 2^(k + 1). */
  lemma DoubleStep(sh: int, va: int, k: nat)
    requires sh == va * Pow2(k) % Modulus
    ensures sh * Pow2(1) % Modulus == va * Pow2(k + 1) % Modulus
  {
    Pow2Add(k, 1);
    ModMul(va * Pow2(k), Pow2(1), Modulus);
    MulAssociates(va, Pow2(k), Pow2(1));
  }

  /** After all 128 bits acc holds a * b modulo 2^128. */
  lemma MulResult(acc: seq<byte>, a: BigInt, b: BigInt, k: nat)
    requires |acc| == Size && k == Bits
    requires Value(acc) == Value(a) * (Value(b) % Pow2(k)) % Modulus
    ensures acc == Times(a, b)
  {
    ModulusIsPow2();
    ValueBelowModulus(b);
    DivModUnique(Value(b), Pow2(k), 0, Value(b));
    ValueInjective(acc, Times(a, b));
  }
}
