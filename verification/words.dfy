/** Fixed-width unsigned C integers as bounded integers, and powers of two.
    The bit operations of the C code are written out arithmetically by the
    modules that use these types. */
module Words {

  /** `uint32_t` / `unsigned int`. */
  type u32 = x: int | 0 <= x < 0x1_0000_0000

  /** `unsigned char`. */
  type u8 = x: int | 0 <= x < 0x100

  const WORD: int := 0x1_0000_0000

  /** 2^n, i.e. `1 << n`. */
  function Pow2(n: nat): (r: nat)
    ensures r >= 1
  {
    if n == 0 then 1 else 2 * Pow2(n - 1)
  }

  lemma {:induction false} Pow2Add(a: nat, b: nat)
    ensures Pow2(a + b) == Pow2(a) * Pow2(b)
  {
    if a > 0 {
      Pow2Add(a - 1, b);
      assert Pow2(a + b) == 2 * Pow2(a - 1 + b);
    }
  }

  lemma {:induction false} Pow2Monotone(a: nat, b: nat)
    requires a <= b
    ensures Pow2(a) <= Pow2(b)
  {
    if a < b {
      Pow2Monotone(a, b - 1);
    }
  }

  lemma DivMod(t: nat, z: nat)
    requires 0 < z
    ensures t == t / z * z + t % z && 0 <= t % z < z
  {
  }

  lemma {:induction false} MulMonotone(a: nat, b: nat, c: nat)
    requires b <= c
    ensures a * b <= a * c
  {
    if a > 0 {
      MulMonotone(a - 1, b, c);
      assert a * b == (a - 1) * b + b;
      assert a * c == (a - 1) * c + c;
    }
  }

  lemma MulCancelLess(a: nat, b: nat, z: nat)
    requires a * z < b * z
    ensures a < b
  {
    if a >= b {
      MulMonotone(z, b, a);
      assert false;
    }
  }

  /** A value below k * z, divided by z, is below k. */
  lemma QuotientBelow(t: nat, z: nat, k: nat)
    requires 0 < z && t < k * z
    ensures t / z < k
  {
    DivMod(t, z);
    MulCancelLess(t / z, k, z);
  }

  /** Clearing the low bits of t below a block size z: the result is a
      multiple of z, and t lies in the block it starts. */
  lemma RoundDown(t: nat, z: nat)
    requires 0 < z
    ensures (t / z * z) % z == 0
    ensures t / z * z <= t < t / z * z + z
  {
    DivMod(t, z);
    DivModUnique(t / z * z, z, t / z, 0);
  }

  /** Quotient and remainder are the only ones: t = a * z + r with r < z
      determines both. */
  lemma DivModUnique(t: nat, z: nat, a: nat, r: nat)
    requires r < z && t == a * z + r
    ensures t / z == a && t % z == r
  {
    DivMod(t, z);
    QuotientBelow(t, z, a + 1);
    MulCancelLess(a, t / z + 1, z);
  }

  /** Block j of size z, for j below k, ends inside k blocks. */
  lemma BlockInside(j: nat, z: nat, k: nat)
    requires j < k
    ensures j * z + z <= k * z
  {
    MulMonotone(z, j + 1, k);
    assert z * (j + 1) == j * z + z;
  }

  lemma Pow2Is32()
    ensures Pow2(31) == 0x8000_0000 && Pow2(32) == WORD
  {
    assert Pow2(8) == 0x100;
    assert Pow2(16) == 0x1_0000 by { Pow2Add(8, 8); }
    assert Pow2(24) == 0x100_0000 by { Pow2Add(16, 8); }
    assert Pow2(31) == 0x8000_0000 by { Pow2Add(24, 7); }
  }
}

/** Option and Result, for the error paths of the source. */
module Wrappers {

  datatype Option<+T> = None | Some(value: T)

  datatype Result<+T, +E> = Success(value: T) | Failure(error: E)
}
