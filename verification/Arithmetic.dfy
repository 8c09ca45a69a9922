/** Powers of two, shifts and bits of non-negative integers, and the few non-linear facts the
    other modules rely on. */
module Arithmetic {

  function Pow2(n: nat): (r: nat)
    ensures r > 0
  {
    if n == 0 then 1 else 2 * Pow2(n - 1)
  }

  /** `n >> k`. */
  function Shr(n: nat, k: nat): (r: nat)
    ensures r <= n
    ensures k >= 1 ==> 2 * r <= n
  {
    if k == 0 then n else Shr(n / 2, k - 1)
  }

  /** The low `k` bits of `n`. */
  function LowBits(n: nat, k: nat): (r: nat)
    ensures r < Pow2(k)
    ensures k >= 1 ==> r % 2 == n % 2
  {
    if k == 0 then 0 else n % 2 + 2 * LowBits(n / 2, k - 1)
  }

  /** Bit `i` of a non-negative integer, as `Integer::GetBit` reads it. */
  function Bit(n: nat, i: nat): (b: nat)
    ensures b <= 1
  {
    Shr(n, i) % 2
  }

  /** Number of significant bits, as `Integer::BitCount` and `BitPrecision` count them. */
  function BitCount(n: nat): (c: nat)
    ensures n < Pow2(c)
    ensures n > 0 ==> c > 0 && Pow2(c - 1) <= n
  {
    if n == 0 then 0 else 1 + BitCount(n / 2)
  }

  lemma BitBelow(n: nat, i: nat)
    ensures Bit(n, i) == if i == 0 then n % 2 else Bit(n / 2, i - 1)
  {
  }

  lemma Pow2Zero()
    ensures Pow2(0) == 1
  {}

  lemma Pow2Succ(n: nat)
    ensures Pow2(n + 1) == 2 * Pow2(n)
  {}

  lemma {:induction false} Pow2Add(a: nat, b: nat)
    ensures Pow2(a + b) == Pow2(a) * Pow2(b)
  {
    if a > 0 {
      Pow2Add(a - 1, b);
      MulAssociates(2, Pow2(a - 1), Pow2(b));
    }
  }

  lemma {:induction false} Pow2Monotone(a: nat, b: nat)
    requires a <= b
    ensures Pow2(a) <= Pow2(b)
    ensures a < b ==> 2 * Pow2(a) <= Pow2(b)
    decreases b
  {
    if a < b { Pow2Monotone(a, b - 1); }
  }

  lemma MulPastTwo(a: int, b: int)
    ensures a * (2 * b) == 2 * (a * b)
  {}

  /** Shift and low bits are quotient and remainder by a power of two. */
  lemma {:induction false} ShiftSplits(n: nat, k: nat)
    ensures n == Shr(n, k) * Pow2(k) + LowBits(n, k)
  {
    if k > 0 {
      ShiftSplits(n / 2, k - 1);
      MulPastTwo(Shr(n, k), Pow2(k - 1));
    }
  }

  lemma ShiftIsDivision(n: nat, k: nat)
    ensures Shr(n, k) == n / Pow2(k) && LowBits(n, k) == n % Pow2(k)
  {
    ShiftSplits(n, k);
    DivModUnique(n, Pow2(k), Shr(n, k), LowBits(n, k));
  }

  lemma {:induction false} ShiftShift(n: nat, a: nat, b: nat)
    ensures Shr(Shr(n, a), b) == Shr(n, a + b)
  {
    if a > 0 { ShiftShift(n / 2, a - 1, b); }
  }

  lemma ShiftOne(n: nat, a: nat)
    ensures Shr(n, a) / 2 == Shr(n, a + 1)
  {
    ShiftShift(n, a, 1);
    assert Shr(Shr(n, a), 1) == Shr(Shr(n, a) / 2, 0);
  }

  /** Adding 2^k carries exactly one into the shifted value and leaves the low bits alone. */
  lemma {:induction false} ShiftCarry(n: nat, k: nat)
    ensures Shr(n + Pow2(k), k) == Shr(n, k) + 1
  {
    if k > 0 {
      assert (n + Pow2(k)) / 2 == n / 2 + Pow2(k - 1);
      ShiftCarry(n / 2, k - 1);
    }
  }

  /** No bits are left above the bit count. */
  lemma {:induction false} ShiftBeyond(n: nat, k: nat)
    requires BitCount(n) <= k
    ensures Shr(n, k) == 0
  {
    if k > 0 { ShiftBeyond(n / 2, k - 1); }
  }

  /** The top bit survives any shift below it. */
  lemma {:induction false} ShiftBelow(n: nat, k: nat)
    requires k < BitCount(n)
    ensures Shr(n, k) > 0
  {
    if k > 0 { ShiftBelow(n / 2, k - 1); }
  }

  /** Reading bits from the top: the prefix ending at bit `i`. */
  lemma PrefixExtends(n: nat, i: nat)
    ensures Shr(n, i) == 2 * Shr(n, i + 1) + Bit(n, i)
  {
    ShiftOne(n, i);
  }

  lemma MulAssociates(a: int, b: int, c: int)
    ensures (a * b) * c == a * (b * c)
  {}

  lemma MulDistributes(a: int, b: int, c: int)
    ensures (a + b) * c == a * c + b * c
    ensures (a - b) * c == a * c - b * c
  {}

  lemma MulMonotone(a: int, b: int, c: int)
    requires a <= b && c >= 0
    ensures a * c <= b * c
  {}

  /** A multiple of `d` strictly between `-d` and `d` is zero. */
  lemma SmallMultiple(k: int, d: int)
    requires d > 0 && -d < k * d < d
    ensures k == 0
  {}

  lemma DivMod(n: nat, d: nat)
    requires d > 0
    ensures n / d >= 0 && (n / d) * d >= 0 && n == n % d + (n / d) * d
  {}

  /** Quotient and remainder are determined by the equation they satisfy. */
  lemma DivModUnique(n: int, d: int, q: int, r: int)
    requires d > 0 && 0 <= r < d && n == q * d + r
    ensures n / d == q && n % d == r
  {
    var q' := n / d;
    assert (q - q') * d == n % d - r by {
      assert n == q' * d + n % d;
      MulDistributes(q, q', d);
    }
    SmallMultiple(q - q', d);
  }
}
