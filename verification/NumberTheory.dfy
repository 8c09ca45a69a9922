/** Divisibility, greatest common divisors, congruences and Fermat's theorem. */
module NumberTheory {
  import opened Arithmetic

  ghost predicate Divides(d: int, n: int) {
    exists k: int :: Multiple(k, d, n)
  }

  ghost predicate Multiple(k: int, d: int, n: int) {
    k * d == n
  }

  /** `d` divides `a` and `b`, and every common divisor divides `d`. */
  ghost predicate IsGcd(d: int, a: int, b: int) {
    && Divides(d, a) && Divides(d, b)
    && forall c: int :: Divides(c, a) && Divides(c, b) ==> Divides(c, d)
  }

  ghost predicate Coprime(a: int, b: int) {
    forall c: int :: Divides(c, a) && Divides(c, b) ==> Divides(c, 1)
  }

  lemma DividesByWitness(d: int, n: int, k: int)
    requires k * d == n
    ensures Divides(d, n)
  {
    assert Multiple(k, d, n);
  }

  /** A divisor of two numbers divides every combination of them. */
  lemma DividesCombination(d: int, a: int, b: int, x: int, y: int)
    requires Divides(d, a) && Divides(d, b)
    ensures Divides(d, x * a + y * b)
  {
    var j :| Multiple(j, d, a);
    var k :| Multiple(k, d, b);
    assert (x * j + y * k) * d == x * a + y * b by {
      MulDistributes(x * j, y * k, d);
      MulAssociates(x, j, d);
      MulAssociates(y, k, d);
    }
    DividesByWitness(d, x * a + y * b, x * j + y * k);
  }

  lemma DividesTransitive(c: int, d: int, n: int)
    requires Divides(c, d) && Divides(d, n)
    ensures Divides(c, n)
  {
    var j :| Multiple(j, c, d);
    var k :| Multiple(k, d, n);
    MulAssociates(k, j, c);
    DividesByWitness(c, n, k * j);
  }

  lemma DividesModulo(d: int, n: int)
    requires d > 0
    ensures Divides(d, n) <==> n % d == 0
  {
    if n % d == 0 {
      DividesByWitness(d, n, n / d);
    }
    if Divides(d, n) {
      var k :| Multiple(k, d, n);
      DivModUnique(n, d, k, 0);
    }
  }

  lemma DivisorBound(d: int, n: int)
    requires Divides(d, n) && n > 0
    ensures d <= n
  {
  }

  lemma OneDivides(n: int)
    ensures Divides(1, n) && Divides(n, n) && Divides(n, 0)
  {
    DividesByWitness(1, n, n);
    DividesByWitness(n, n, 1);
    DividesByWitness(n, 0, 0);
  }

  // ----- congruence -----

  /** a ≡ b (mod m). */
  ghost predicate Congruent(a: int, b: int, m: int) {
    Divides(m, a - b)
  }

  lemma CongruentByWitness(a: int, b: int, m: int, k: int)
    requires a == b + k * m
    ensures Congruent(a, b, m)
  {
    DividesByWitness(m, a - b, k);
  }

  lemma CongruentRefl(a: int, m: int)
    ensures Congruent(a, a, m)
  {
    OneDivides(m);
  }

  lemma CongruentSym(a: int, b: int, m: int)
    requires Congruent(a, b, m)
    ensures Congruent(b, a, m)
  {
    var k :| Multiple(k, m, a - b);
    assert (-k) * m == b - a;
    DividesByWitness(m, b - a, -k);
  }

  lemma CongruentTrans(a: int, b: int, c: int, m: int)
    requires Congruent(a, b, m) && Congruent(b, c, m)
    ensures Congruent(a, c, m)
  {
    DividesCombination(m, a - b, b - c, 1, 1);
    assert 1 * (a - b) + 1 * (b - c) == a - c;
  }

  lemma CongruentMul(a: int, b: int, c: int, d: int, m: int)
    requires Congruent(a, b, m) && Congruent(c, d, m)
    ensures Congruent(a * c, b * d, m)
  {
    DividesCombination(m, a - b, c - d, c, b);
    assert c * (a - b) + b * (c - d) == a * c - b * d;
  }

  lemma CongruentAdd(a: int, b: int, c: int, d: int, m: int)
    requires Congruent(a, b, m) && Congruent(c, d, m)
    ensures Congruent(a + c, b + d, m)
  {
    DividesCombination(m, a - b, c - d, 1, 1);
    assert 1 * (a - b) + 1 * (c - d) == (a + c) - (b + d);
  }

  lemma CongruentMod(a: int, m: int)
    requires m > 0
    ensures Congruent(a, a % m, m)
  {
    DividesByWitness(m, a - a % m, a / m);
  }

  lemma CongruentIffSameResidue(a: int, b: int, m: int)
    requires m > 0
    ensures Congruent(a, b, m) <==> a % m == b % m
  {
    if Congruent(a, b, m) {
      var k :| Multiple(k, m, a - b);
      MulDistributes(k, b / m, m);
      DivModUnique(a, m, k + b / m, b % m);
    }
    if a % m == b % m {
      MulDistributes(a / m, b / m, m);
      DividesByWitness(m, a - b, a / m - b / m);
    }
  }

  // ----- powers -----

  function Pow(b: int, e: nat): int
    decreases e
  {
    if e == 0 then 1 else b * Pow(b, e - 1)
  }

  lemma {:induction false} PowAdd(b: int, m: nat, n: nat)
    ensures Pow(b, m + n) == Pow(b, m) * Pow(b, n)
    decreases m
  {
    if m > 0 {
      PowAdd(b, m - 1, n);
      MulAssociates(b, Pow(b, m - 1), Pow(b, n));
    }
  }

  lemma {:induction false} PowMul(b: int, m: nat, n: nat)
    ensures Pow(Pow(b, m), n) == Pow(b, m * n)
    decreases n
  {
    if n > 0 {
      PowMul(b, m, n - 1);
      PowAdd(b, m, m * (n - 1));
      assert m + m * (n - 1) == m * n;
    }
  }

  lemma {:induction false} PowCongruent(a: int, b: int, e: nat, m: int)
    requires Congruent(a, b, m)
    ensures Congruent(Pow(a, e), Pow(b, e), m)
    decreases e
  {
    if e == 0 {
      CongruentRefl(1, m);
    } else {
      PowCongruent(a, b, e - 1, m);
      CongruentMul(a, b, Pow(a, e - 1), Pow(b, e - 1), m);
    }
  }

  lemma {:induction false} PowOfOne(e: nat)
    ensures Pow(1, e) == 1
  {
    if e > 0 { PowOfOne(e - 1); }
  }

  // ----- primes -----

  ghost predicate IsPrime(p: int) {
    p >= 2 && forall d: int :: d >= 1 && Divides(d, p) ==> d == 1 || d == p
  }

  /** A prime that divides a product divides a factor. */
  lemma PrimeDividesFactor(p: int, a: int, b: int)
    requires IsPrime(p) && Divides(p, a * b)
    ensures Divides(p, a) || Divides(p, b)
  {
    DividesModulo(p, a);
    if a % p != 0 {
      OneDivides(p);
      DividesCombination(p, a * b, p, 1, -(a / p) * b);
      assert 1 * (a * b) + (-(a / p) * b) * p == (a % p) * b by {
        assert a == (a / p) * p + a % p;
        MulDistributes((a / p) * p, a % p, b);
        assert (-(a / p) * b) * p == -(((a / p) * p) * b);
      }
      PrimeDescent(p, a % p, b);
    }
  }

  lemma {:induction false} PrimeDescent(p: int, r: int, b: int)
    requires IsPrime(p) && 0 < r < p && Divides(p, r * b)
    ensures Divides(p, b)
    decreases r
  {
    if r > 1 {
      var q, s := p / r, p % r;
      DividesModulo(r, p);
      assert s != 0;
      OneDivides(p);
      DividesCombination(p, p, r * b, b, -q);
      assert b * p + (-q) * (r * b) == s * b by {
        assert p == q * r + s;
        MulDistributes(q * r, s, b);
        assert (q * r) * b == q * (r * b);
      }
      PrimeDescent(p, s, b);
    }
  }

  lemma SmallNotDivisible(p: int, k: int)
    requires 0 < k < p
    ensures !Divides(p, k)
  {
    if Divides(p, k) { DivisorBound(p, k); }
  }

  // ----- Fermat's theorem, by the binomial theorem -----

  function Choose(n: nat, k: nat): nat {
    if k == 0 then 1 else if n == 0 then 0 else Choose(n - 1, k - 1) + Choose(n - 1, k)
  }

  lemma {:induction false} ChooseOutside(n: nat, k: nat)
    requires k > n
    ensures Choose(n, k) == 0
  {
    if n > 0 {
      ChooseOutside(n - 1, k - 1);
      ChooseOutside(n - 1, k);
    }
  }

  lemma {:induction false} ChooseAll(n: nat)
    ensures Choose(n, n) == 1
  {
    if n > 0 {
      ChooseAll(n - 1);
      ChooseOutside(n - 1, n);
    }
  }

  lemma {:induction false} ChooseAbsorbs(n: nat, k: nat)
    requires n >= 1 && k >= 1
    ensures k * Choose(n, k) == n * Choose(n - 1, k - 1)
    decreases n
  {
    hide Choose;
    Pascal(n, k);
    if n == 1 {
      Pascal(1, k);
      if k > 1 { ChooseOutside(0, k - 1); }
      ChooseOutside(0, k);
    } else {
      Pascal(n - 1, k);
      ChooseAbsorbs(n - 1, k);
      if k > 1 {
        Pascal(n - 1, k - 1);
        ChooseAbsorbs(n - 1, k - 1);
      } else {
        Pascal(n - 2, 0);
        Pascal(n - 1, 0);
      }
      var c := if k > 1 then Choose(n - 2, k - 2) else 0;
      AbsorbArithmetic(n, k, Choose(n - 1, k - 1), Choose(n - 1, k), c, Choose(n - 2, k - 1));
    }
  }

  lemma Pascal(n: nat, k: nat)
    ensures n >= 1 && k >= 1 ==> Choose(n, k) == Choose(n - 1, k - 1) + Choose(n - 1, k)
    ensures Choose(n, 0) == 1
  {}

  lemma AbsorbArithmetic(n: int, k: int, a: int, b: int, c: int, d: int)
    requires a == c + d && (k - 1) * a == (n - 1) * c && k * b == (n - 1) * d
    ensures k * (a + b) == n * a
  {
  }

  lemma PrimeDividesChoose(p: int, k: nat)
    requires IsPrime(p) && 0 < k < p
    ensures Divides(p, Choose(p, k))
  {
    ChooseAbsorbs(p, k);
    DividesByWitness(p, k * Choose(p, k), Choose(p - 1, k - 1));
    PrimeDividesFactor(p, k, Choose(p, k));
    SmallNotDivisible(p, k);
  }

  /** The first `m` terms of the expansion of (x+1)^n. */
  function BinomialSum(n: nat, m: nat, x: int): int {
    if m == 0 then 0 else BinomialSum(n, m - 1, x) + Choose(n, m - 1) * Pow(x, m - 1)
  }

  lemma {:induction false} BinomialPascal(n: nat, m: nat, x: int)
    requires n >= 1
    ensures BinomialSum(n, m + 1, x) == x * BinomialSum(n - 1, m, x) + BinomialSum(n - 1, m + 1, x)
  {
    hide Choose;
    Pascal(n, m);
    Pascal(n - 1, m);
    if m == 0 {
      assert BinomialSum(n, 1, x) == BinomialSum(n, 0, x) + Choose(n, 0) * Pow(x, 0);
      assert BinomialSum(n - 1, 1, x) == BinomialSum(n - 1, 0, x) + Choose(n - 1, 0) * Pow(x, 0);
    } else {
      BinomialPascal(n, m - 1, x);
      PascalTerm(Choose(n - 1, m - 1), Choose(n - 1, m), BinomialSum(n - 1, m - 1, x), x, Pow(x, m - 1));
    }
  }

  lemma PascalTerm(a: int, b: int, s: int, x: int, p: int)
    ensures x * (s + a * p) == x * s + a * (x * p)
    ensures (a + b) * (x * p) == a * (x * p) + b * (x * p)
  {
    assert x * (a * p) == a * (x * p);
    MulDistributes(a, b, x * p);
  }

  lemma ZeroTerm(n: nat, m: nat, x: int)
    requires Choose(n, m) == 0
    ensures BinomialSum(n, m + 1, x) == BinomialSum(n, m, x)
  {
    assert Choose(n, m) * Pow(x, m) == 0;
  }

  lemma {:induction false} BinomialTheorem(n: nat, x: int)
    ensures BinomialSum(n, n + 1, x) == Pow(x + 1, n)
  {
    hide Choose;
    if n == 0 {
      Pascal(0, 0);
      assert BinomialSum(0, 1, x) == BinomialSum(0, 0, x) + Choose(0, 0) * Pow(x, 0);
    } else {
      BinomialTheorem(n - 1, x);
      BinomialPascal(n, n, x);
      ChooseOutside(n - 1, n);
      var s := BinomialSum(n - 1, n, x);
      assert BinomialSum(n - 1, n + 1, x) == s by { ZeroTerm(n - 1, n, x); }
      MulDistributes(x, 1, s);
    }
  }

  lemma {:induction false} BinomialModPrime(p: int, m: nat, x: int)
    requires IsPrime(p) && 1 <= m <= p
    ensures Congruent(BinomialSum(p, m, x), 1, p)
  {
    if m == 1 {
      assert BinomialSum(p, 1, x) == BinomialSum(p, 0, x) + Choose(p, 0) * Pow(x, 0) == 1;
      CongruentRefl(1, p);
    } else {
      BinomialModPrime(p, m - 1, x);
      PrimeDividesChoose(p, m - 1);
      var s, c := BinomialSum(p, m - 1, x), Choose(p, m - 1);
      DividesCombination(p, s - 1, c, 1, Pow(x, m - 1));
      assert 1 * (s - 1) + Pow(x, m - 1) * c == BinomialSum(p, m, x) - 1;
    }
  }

  /** a^p ≡ a (mod p). */
  lemma {:induction false} Fermat(p: int, a: nat)
    requires IsPrime(p)
    ensures Congruent(Pow(a, p), a, p)
  {
    if a == 0 {
      CongruentRefl(0, p);
    } else {
      Fermat(p, a - 1);
      BinomialTheorem(p, a - 1);
      BinomialModPrime(p, p, a - 1);
      ChooseAll(p);
      assert Pow(a, p) == BinomialSum(p, p, a - 1) + 1 * Pow(a - 1, p);
      CongruentAdd(BinomialSum(p, p, a - 1), 1, Pow(a - 1, p), a - 1, p);
    }
  }

  // ----- exponents modulo (p-1)(q-1) -----

  /** Adding a multiple of p-1 to a positive exponent changes nothing modulo p. */
  lemma {:induction false} PowPeriodPositive(p: int, x: nat, e: nat, k: nat)
    requires IsPrime(p) && e > 0
    ensures Congruent(Pow(x, e + k * (p - 1)), Pow(x, e), p)
    decreases k
  {
    if k == 0 {
      CongruentRefl(Pow(x, e), p);
    } else {
      var f := e + (k - 1) * (p - 1);
      MulDistributes(k, 1, p - 1);
      assert e + k * (p - 1) == (f - 1) + p;
      PowPeriodPositive(p, x, e, k - 1);
      Fermat(p, x);
      CongruentRefl(Pow(x, f - 1), p);
      CongruentMul(Pow(x, f - 1), Pow(x, f - 1), Pow(x, p), x, p);
      PowAdd(x, f - 1, p);
      assert Pow(x, f) == x * Pow(x, f - 1);
      CongruentTrans(Pow(x, e + k * (p - 1)), Pow(x, f), Pow(x, e), p);
    }
  }

  /** For a base that p does not divide, to any exponent. */
  lemma PowPeriod(p: int, x: nat, e: nat, k: nat)
    requires IsPrime(p) && (e > 0 || !Divides(p, x))
    ensures Congruent(Pow(x, e + k * (p - 1)), Pow(x, e), p)
  {
    if e > 0 {
      PowPeriodPositive(p, x, e, k);
    } else {
      PowPeriodPositive(p, x, 1, k);
      var y := Pow(x, k * (p - 1));
      assert Pow(x, 1 + k * (p - 1)) - Pow(x, 1) == x * (y - 1) by {
        assert Pow(x, 1 + k * (p - 1)) == x * y;
        assert Pow(x, 1) == x * Pow(x, 0) == x;
      }
      PrimeDividesFactor(p, x, y - 1);
    }
  }

  /** What two distinct primes divide, their product divides. */
  lemma BothPrimesDivide(p: int, q: int, n: int)
    requires IsPrime(p) && IsPrime(q) && p != q && Divides(p, n) && Divides(q, n)
    ensures Divides(p * q, n)
  {
    var k :| Multiple(k, p, n);
    PrimeDividesFactor(q, k, p);
    assert !Divides(q, p);
    var j :| Multiple(j, q, k);
    assert j * (p * q) == (j * q) * p;
    DividesByWitness(p * q, n, j);
  }

  /** Exponents may be reduced modulo (p-1)(q-1) as long as they stay positive or the base is
      coprime to both primes. */
  lemma PowReduces(p: int, q: int, phi: nat, x: nat, e: nat)
    requires IsPrime(p) && IsPrime(q) && p != q && phi == (p - 1) * (q - 1) && phi > 0
    requires e % phi > 0 || (!Divides(p, x) && !Divides(q, x))
    ensures Congruent(Pow(x, e), Pow(x, e % phi), p * q)
  {
    hide Pow, Divides, Congruent, IsPrime;
    DivMod(e, phi);
    PowPeriodProduct(p, q, x, e % phi, e / phi);
  }

  lemma PowPeriodProduct(p: int, q: int, x: nat, r: nat, k: nat)
    requires IsPrime(p) && IsPrime(q) && p != q
    requires r > 0 || (!Divides(p, x) && !Divides(q, x))
    requires k * ((p - 1) * (q - 1)) >= 0
    ensures Congruent(Pow(x, r + k * ((p - 1) * (q - 1))), Pow(x, r), p * q)
  {
    hide Pow, Divides;
    var e := r + k * ((p - 1) * (q - 1));
    MulAssociates(k, p - 1, q - 1);
    MulAssociates(k, q - 1, p - 1);
    assert (q - 1) * (p - 1) == (p - 1) * (q - 1);
    PowPeriod(p, x, r, k * (q - 1));
    PowPeriod(q, x, r, k * (p - 1));
    BothPrimesDivide(p, q, Pow(x, e) - Pow(x, r));
  }

  lemma PrimeDividesPower(p: int, x: int, e: nat)
    requires Divides(p, x) && e > 0
    ensures Divides(p, Pow(x, e))
  {
    DividesCombination(p, x, x, Pow(x, e - 1), 0);
    assert Pow(x, e - 1) * x + 0 * x == Pow(x, e);
  }

  /** When the reduced exponent vanishes and the base is not coprime, reducing is wrong. */
  lemma PowReducesBadly(p: int, q: int, x: nat, e: nat)
    requires IsPrime(p) && (Divides(p, x) || Divides(q, x)) && IsPrime(q) && e > 0
    ensures !Congruent(Pow(x, e), 1, p * q)
  {
    if Congruent(Pow(x, e), 1, p * q) {
      var d := if Divides(p, x) then p else q;
      DividesByWitness(p, p * q, q);
      DividesByWitness(q, p * q, p);
      DividesTransitive(d, p * q, Pow(x, e) - 1);
      PrimeDividesPower(d, x, e);
      DividesCombination(d, Pow(x, e), Pow(x, e) - 1, 1, -1);
      assert 1 * Pow(x, e) + (-1) * (Pow(x, e) - 1) == 1;
      DivisorBound(d, 1);
    }
  }

  // ----- exponents modulo (p-1)(p-1), for the square of a prime -----

  /** (1+u)^m ≡ 1 + mu (mod u²). */
  lemma {:induction false} PowNearOne(u: int, m: nat)
    ensures Congruent(Pow(1 + u, m), 1 + m * u, u * u)
  {
    if m == 0 {
      CongruentRefl(1, u * u);
    } else {
      var k := m - 1;
      PowNearOne(u, k);
      CongruentRefl(1 + u, u * u);
      CongruentMul(1 + u, 1 + u, Pow(1 + u, k), 1 + k * u, u * u);
      assert (1 + u) * (1 + k * u) == 1 + m * u + k * (u * u) by { ProductNearOne(u, k); }
      CongruentByWitness((1 + u) * (1 + k * u), 1 + m * u, u * u, k);
      CongruentTrans(Pow(1 + u, m), (1 + u) * (1 + k * u), 1 + m * u, u * u);
    }
  }

  lemma ProductNearOne(u: int, k: int)
    ensures (1 + u) * (1 + k * u) == 1 + (k + 1) * u + k * (u * u)
  {
  }

  /** One factor p less on both sides. */
  lemma DividesSquareExactly(p: int, c: int)
    requires p != 0
    ensures Divides(p * p, p * c) <==> Divides(p, c)
  {
    if Divides(p * p, p * c) {
      var k :| Multiple(k, p * p, p * c);
      assert p * (k * p) == p * c;
      CancelFactor(p, k * p, c);
      DividesByWitness(p, c, k);
    }
    if Divides(p, c) {
      var k :| Multiple(k, p, c);
      assert k * (p * p) == p * (k * p);
      DividesByWitness(p * p, p * c, k);
    }
  }

  lemma CancelFactor(p: int, a: int, b: int)
    requires p != 0 && p * a == p * b
    ensures a == b
  {
  }

  lemma {:induction false} PrimeNotInPower(p: int, x: int, e: nat)
    requires IsPrime(p) && !Divides(p, x)
    ensures !Divides(p, Pow(x, e))
  {
    if e == 0 {
      if Divides(p, 1) { DivisorBound(p, 1); }
    } else {
      PrimeNotInPower(p, x, e - 1);
      if Divides(p, Pow(x, e)) { PrimeDividesFactor(p, x, Pow(x, e - 1)); }
    }
  }

  /** A factor that p does not divide can be cancelled modulo p². */
  lemma CancelModSquare(p: int, a: int, z: int)
    requires IsPrime(p) && !Divides(p, a)
    ensures Congruent(a * z, a, p * p) <==> Congruent(z, 1, p * p)
  {
    if Congruent(a * z, a, p * p) {
      assert a * z - a == a * (z - 1);
      DividesByWitness(p, p * p, p);
      DividesTransitive(p, p * p, a * (z - 1));
      PrimeDividesFactor(p, a, z - 1);
      var w :| Multiple(w, p, z - 1);
      assert a * (z - 1) == p * (a * w);
      DividesSquareExactly(p, a * w);
      PrimeDividesFactor(p, a, w);
      DividesSquareExactly(p, w);
      assert p * w == z - 1;
    }
    if Congruent(z, 1, p * p) {
      CongruentRefl(a, p * p);
      CongruentMul(a, a, z, 1, p * p);
    }
  }

  /** When the power by a multiple of (p-1)² is 1 modulo p². */
  lemma PowerIsOne(p: int, x: nat, k: nat)
    requires IsPrime(p) && !Divides(p, x)
    ensures Congruent(Pow(x, (p - 1) * (k * (p - 1))), 1, p * p)
       <==> Divides(p, k) || Congruent(Pow(x, p - 1), 1, p * p)
  {
    assert p >= 2;
    hide Pow, IsPrime, Divides;
    MulMonotone(0, k, p - 1);
    var y, m: nat := Pow(x, p - 1), k * (p - 1);
    PowPeriod(p, x, 0, 1);
    PowStarts(x);
    var t := MultipleOf(p, y - 1);
    PowMul(x, p - 1, m);
    PowerNearOne(p, t, m);
    PowerNearOne(p, t, 1);
    PowOnce(y);
    FactorsOfProduct(p, k, t);
  }

  lemma PowerNearOne(p: int, t: int, m: nat)
    requires p != 0
    ensures Congruent(Pow(1 + t * p, m), 1, p * p) <==> Divides(p, m * t)
  {
    hide Pow, Divides;
    var u := t * p;
    PowNearOne(u, m);
    SquareOfProduct(t, p);
    DividesByWitness(p * p, u * u, t * t);
    DividesTransitive(p * p, u * u, Pow(1 + u, m) - (1 + m * u));
    SameDistance(Pow(1 + u, m), m * u, p * p);
    RotateProduct(m, t, p);
    DividesSquareExactly(p, m * t);
  }

  lemma SquareOfProduct(t: int, p: int)
    ensures (t * t) * (p * p) == (t * p) * (t * p)
  {
    MulAssociates(t * t, p, p);
    MulAssociates(t, t, p);
    MulAssociates(t, p, t * p);
    MulAssociates(t * p, t, p);
  }

  lemma RotateProduct(m: int, t: int, p: int)
    ensures m * (t * p) == p * (m * t)
  {
    MulAssociates(m, t, p);
  }

  lemma PowOnce(x: int)
    ensures Pow(x, 1) == x
  {
    assert Pow(x, 1) == x * Pow(x, 0);
  }

  lemma PowStarts(x: int)
    ensures Pow(x, 0) == 1
  {
  }

  lemma MultipleOf(p: int, n: int) returns (t: int)
    requires Divides(p, n)
    ensures t * p == n
  {
    t :| Multiple(t, p, n);
  }

  lemma SameDistance(a: int, b: int, m: int)
    requires Congruent(a, 1 + b, m)
    ensures Congruent(a, 1, m) <==> Divides(m, b)
  {
    if Congruent(a, 1, m) {
      DividesCombination(m, a - 1, a - (1 + b), 1, -1);
      assert 1 * (a - 1) + (-1) * (a - (1 + b)) == b;
    }
    if Divides(m, b) {
      DividesCombination(m, a - (1 + b), b, 1, 1);
      assert 1 * (a - (1 + b)) + 1 * b == a - 1;
    }
  }

  lemma FactorsOfProduct(p: int, k: nat, t: int)
    requires IsPrime(p)
    ensures Divides(p, k * (p - 1) * t) <==> Divides(p, k) || Divides(p, t)
  {
    if Divides(p, k * (p - 1) * t) {
      PrimeDividesFactor(p, k * (p - 1), t);
      if Divides(p, k * (p - 1)) {
        PrimeDividesFactor(p, k, p - 1);
        SmallNotDivisible(p, p - 1);
      }
    }
    if Divides(p, k) {
      DividesCombination(p, k, k, (p - 1) * t, 0);
      assert (p - 1) * t * k + 0 * k == k * (p - 1) * t;
    }
    if Divides(p, t) {
      DividesCombination(p, t, t, k * (p - 1), 0);
      assert k * (p - 1) * t + 0 * t == k * (p - 1) * t;
    }
  }

  /** Exponents may be reduced modulo (p-1)² modulo p² exactly when p divides the quotient, or the base already has
      an order that divides p-1. */
  lemma PowReducesSquare(p: int, x: nat, phi: nat, e: nat)
    requires IsPrime(p) && !Divides(p, x) && phi == (p - 1) * (p - 1) && phi > 0
    ensures Congruent(Pow(x, e), Pow(x, e % phi), p * p)
       <==> Divides(p, e / phi) || Congruent(Pow(x, p - 1), 1, p * p)
  {
    hide Pow, IsPrime, Divides;
    var k, r := e / phi, e % phi;
    DivMod(e, phi);
    assert k * phi == (p - 1) * (k * (p - 1));
    PowAdd(x, r, (p - 1) * (k * (p - 1)));
    PrimeNotInPower(p, x, r);
    CancelModSquare(p, Pow(x, r), Pow(x, (p - 1) * (k * (p - 1))));
    PowerIsOne(p, x, k);
  }
}
