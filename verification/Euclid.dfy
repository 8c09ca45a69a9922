/** Euclid's algorithm with rotating indices (algebra.cpp, `Gcd` and `MultiplicativeInverse`),
    over the integers. */
module Euclid {
  import opened Arithmetic
  import opened NumberTheory

  /** (a, b) and (c, d) have the same common divisors. */
  ghost predicate SameDivisors(a: int, b: int, c: int, d: int) {
    forall e: int :: Divides(e, a) && Divides(e, b) <==> Divides(e, c) && Divides(e, d)
  }

  lemma DivisionKeepsDivisors(a: int, b: int, q: int, r: int)
    requires a == q * b + r
    ensures SameDivisors(b, r, a, b)
  {
    forall e: int
      ensures Divides(e, b) && Divides(e, r) <==> Divides(e, a) && Divides(e, b)
    {
      if Divides(e, b) && Divides(e, r) {
        DividesCombination(e, b, r, q, 1);
      }
      if Divides(e, a) && Divides(e, b) {
        DividesCombination(e, a, b, 1, -q);
        assert 1 * a + (-q) * b == r;
      }
    }
  }

  lemma EndOfEuclid(d: int, a: int, b: int)
    requires SameDivisors(d, 0, a, b)
    ensures IsGcd(d, a, b)
  {
    OneDivides(d);
    forall c: int | Divides(c, a) && Divides(c, b)
      ensures Divides(c, d)
    {}
  }

  function Abs(x: int): nat {
    if x < 0 then -x else x
  }

  /** The greatest common divisor, as `AbstractEuclideanDomain::Gcd` computes it, with the sign it
      comes with: negative only where an operand itself is the answer. */
  method Gcd(a: int, b: int) returns (result: int)
    ensures IsGcd(result, a, b)
    ensures result < 0 <==> (a == 0 && b < 0) || (a < 0 && b % a == 0)
  {
    hide Divides;
    var g := new int[3];
    g[0], g[1] := b, a;
    var i0, i1, i2 := 0, 1, 2;
    while g[i1] != 0
      invariant {i0, i1, i2} == {0, 1, 2}
      invariant SameDivisors(g[i0], g[i1], a, b)
      invariant || (g[i0] == b && g[i1] == a)
                || (a != 0 && g[i0] == a && g[i1] == b % a)
                || (a != 0 && g[i0] > 0 && g[i1] >= 0 && b % a != 0)
      decreases Abs(g[i1])
    {
      DivisionKeepsDivisors(g[i0], g[i1], g[i0] / g[i1], g[i0] % g[i1]);
      g[i2] := g[i0] % g[i1];
      i0, i1, i2 := i1, i2, i0;
    }
    EndOfEuclid(g[i0], a, b);
    result := g[i0];
  }

  /** g ≡ v·a (mod m). */
  ghost predicate Represents(g: int, v: int, a: int, m: int) {
    Congruent(g, v * a, m)
  }

  lemma StepRepresents(g0: int, g1: int, v0: int, v1: int, y: int, a: int, m: int)
    requires Represents(g0, v0, a, m) && Represents(g1, v1, a, m)
    ensures Represents(g0 - y * g1, v0 - v1 * y, a, m)
  {
    DividesCombination(m, g0 - v0 * a, g1 - v1 * a, 1, -y);
    assert 1 * (g0 - v0 * a) + (-y) * (g1 - v1 * a) == (g0 - y * g1) - (v0 - v1 * y) * a by {
      MulDistributes(v0, v1 * y, a);
      assert (-y) * (g1 - v1 * a) == -(y * g1) + y * (v1 * a);
      assert y * (v1 * a) == (v1 * y) * a;
    }
  }

  lemma UnitMeansCoprime(d: int, a: int, m: int)
    requires IsGcd(d, a, m)
    ensures Abs(d) == 1 <==> Coprime(a, m)
  {
    if Abs(d) == 1 {
      DividesByWitness(d, 1, d);
      forall c: int | Divides(c, a) && Divides(c, m)
        ensures Divides(c, 1)
      {
        DividesTransitive(c, d, 1);
      }
    }
    if Divides(d, 1) {
      var k :| Multiple(k, d, 1);
      UnitFactor(k, d);
    }
  }

  lemma UnitFactor(k: int, d: int)
    requires k * d == 1
    ensures Abs(d) == 1
  {
    if d > 1 {
      SmallMultiple(k, d);
    } else if d < -1 {
      assert (-k) * (-d) == 1;
      SmallMultiple(-k, -d);
    }
  }

  /** What the loop of `MultiplicativeInverse` keeps: for an operand below the modulus the divisors
      and the multipliers; for any other one, that it is in its first round or about to stop. */
  ghost predicate InverseLoop(g0: int, g1: int, v0: int, v1: int, a: int, m: nat) {
    if Abs(a) < m then
      && Abs(g1) < Abs(g0) <= m && SameDivisors(g0, g1, a, m)
      && Represents(g0, v0, a, m) && Represents(g1, v1, a, m)
    else (g0 == m && g1 == a && v0 == 0) || (g0 == a && Abs(a) > m == g1)
  }

  lemma InverseLoopStarts(a: int, m: nat)
    requires m > 0
    ensures InverseLoop(m, a, 0, 1, a, m)
  {
    OneDivides(m);
  }

  lemma InverseLoopContinues(g0: int, g1: int, v0: int, v1: int, a: int, m: nat)
    requires m > 0 && InverseLoop(g0, g1, v0, v1, a, m) && g1 % m != 0
    ensures g1 != 0
    ensures InverseLoop(g1, g0 % g1, v1, v0 - v1 * (g0 / g1), a, m)
  {
    hide Divides, Congruent;
    if g1 == 0 { DivModUnique(0, m, 0, 0); }
    if Abs(a) < m {
      DivisionKeepsDivisors(g0, g1, g0 / g1, g0 % g1);
      StepRepresents(g0, g1, v0, v1, g0 / g1, a, m);
      assert g0 - (g0 / g1) * g1 == g0 % g1;
    } else {
      SelfResidue(m, g1, a);
    }
  }

  lemma InverseLoopEnds(g0: int, g1: int, v0: int, v1: int, a: int, m: nat)
    requires m > 0 && InverseLoop(g0, g1, v0, v1, a, m) && g1 % m == 0
    ensures Abs(a) < m ==> (Abs(g0) == 1 <==> Coprime(a, m))
    ensures Abs(a) < m && Abs(g0) == 1 ==> Congruent(a * (v0 * g0), 1, m)
    ensures Abs(a) >= m && Abs(g0) == 1 ==> v0 == 0
  {
    if Abs(a) < m {
      SmallResidue(g1, m);
      EndOfEuclid(g0, a, m);
      UnitMeansCoprime(g0, a, m);
      if Abs(g0) == 1 { UnitInverts(g0, v0, a, m); }
    }
  }

  /** The answer for every operand: an inverse or zero if it is below the modulus, otherwise zero. */
  ghost predicate InverseAnswer(a: int, m: nat, result: int) {
    if Abs(a) < m && Coprime(a, m) then Congruent(a * result, 1, m) else result == 0
  }

  /** Inverse modulo `m`, as `QuotientRing::MultiplicativeInverse` computes it. The loop test
      compares modulo `m`, so for an operand whose absolute value is not below `m` the answer is always zero. */
  method MultiplicativeInverse(a: int, m: nat) returns (result: int)
    requires m > 0
    ensures InverseAnswer(a, m, result)
  {
    hide Divides, Congruent, InverseLoop, Coprime;
    var g, v := new int[3], new int[3];
    g[0], g[1] := m, a;
    v[0], v[1] := 0, 1;
    var i0, i1, i2 := 0, 1, 2;
    InverseLoopStarts(a, m);
    while g[i1] % m != 0
      invariant {i0, i1, i2} == {0, 1, 2}
      invariant InverseLoop(g[i0], g[i1], v[i0], v[i1], a, m)
      decreases Abs(g[i1])
    {
      InverseLoopContinues(g[i0], g[i1], v[i0], v[i1], a, m);
      var y := g[i0] / g[i1];
      g[i2] := g[i0] % g[i1];
      v[i2] := v[i0] - v[i1] * y;
      i0, i1, i2 := i1, i2, i0;
    }
    InverseLoopEnds(g[i0], g[i1], v[i0], v[i1], a, m);
    result := if Abs(g[i0]) == 1 then v[i0] / g[i0] else 0;
  }

  lemma SmallResidue(x: int, m: nat)
    requires Abs(x) < m && x % m == 0
    ensures x == 0
  {
    if x < 0 { DivModUnique(x, m, -1, x + m); } else { DivModUnique(x, m, 0, x); }
  }

  /** With a larger operand the first division returns the modulus itself, and the loop stops. */
  lemma SelfResidue(m: nat, g1: int, a: int)
    requires 0 < m <= Abs(a) && g1 % m != 0 && (g1 == a || g1 == m)
    ensures g1 == a && Abs(a) > m && m % g1 == m && m / g1 == 0
  {
    DivModUnique(m, m, 1, 0);
    DivModUnique(0 - m, m, -1, 0);
    SmallDividend(m, g1);
  }

  lemma SmallDividend(m: nat, g: int)
    requires g != 0
    ensures m < Abs(g) ==> m % g == m && m / g == 0
  {
    if m < g {
      DivModUnique(m, g, 0, m);
    } else if m < 0 - g {
      NegativeDivisor(m, g, m / g, m % g);
    }
  }

  /** A dividend below the divisor in size has one quotient. */
  lemma NegativeDivisor(m: nat, g: int, q: int, r: int)
    requires m < 0 - g && m == q * g + r && 0 <= r < 0 - g
    ensures q == 0 && r == m
  {
    SmallMultiple(q, 0 - g);
  }

  lemma UnitInverts(g: int, v: int, a: int, m: int)
    requires Represents(g, v, a, m) && Abs(g) == 1
    ensures Congruent(a * (v * g), 1, m)
  {
    if g == 1 {
      CongruentSym(1, v * a, m);
    } else {
      DividesCombination(m, g - v * a, g - v * a, 1, 0);
      assert a * (v * g) - 1 == g - v * a;
    }
  }

  /** Exactly when the answer can be trusted: if an inverse exists, the answer is one just for
      operands below the modulus, or modulo one. */
  lemma InverseCondition(a: int, m: nat, result: int)
    requires m > 0 && InverseAnswer(a, m, result)
    ensures (Coprime(a, m) ==> Congruent(a * result, 1, m)) <==> (Abs(a) < m || m == 1 || !Coprime(a, m))
  {
    if Abs(a) >= m && Coprime(a, m) {
      assert a * result == 0;
      CongruentIffSameResidue(0, 1, m);
      if m > 1 {
        DivModUnique(0, m, 0, 0);
        DivModUnique(1, m, 0, 1);
      } else {
        DivModUnique(0, 1, 0, 0);
        DivModUnique(1, 1, 1, 0);
      }
    }
  }

  /** 4 has the inverse 1 and -4 the inverse 2 modulo 3, but the answer for both is 0. */
  lemma UnreducedOperandFails(result: int)
    requires InverseAnswer(4, 3, result) || InverseAnswer(-4, 3, result)
    ensures Congruent(4 * 1, 1, 3) && !Congruent(4 * result, 1, 3)
    ensures Congruent(-4 * 2, 1, 3) && !Congruent(-4 * result, 1, 3)
  {
    CongruentByWitness(4, 1, 3, 1);
    CongruentByWitness(-8, 1, 3, -3);
    CongruentIffSameResidue(0, 1, 3);
  }
}
