/** The Blum Blum Shub generator and its random access (blumshub.cpp). */
module BlumBlumShubGenerator {
  import opened Arithmetic
  import opened NumberTheory

  // ----- the generator as a machine that delivers one bit per step -----

  datatype Gen = Gen(current: nat, bitsLeft: nat)

  function Square(n: nat, a: nat): nat
    requires n > 0
  {
    a * a % n
  }

  /** Bits delivered from one value of `current`. */
  function MaxBits(n: nat): (m: nat)
    requires n >= 2
    ensures m >= 1
  {
    assert BitCount(n) >= 2 by { assert Pow2(1) == 2 && Pow2(0) == 1; }
    assert BitCount(BitCount(n)) >= 2 by { assert Pow2(1) == 2 && Pow2(0) == 1; }
    BitCount(BitCount(n)) - 1
  }

  /** The number of bits is that of the bit length of the modulus, less one. */
  lemma MaxBitsIs(n: nat)
    requires n >= 2
    ensures Pow2(MaxBits(n)) <= BitCount(n) < Pow2(MaxBits(n) + 1)
    ensures Pow2(BitCount(n) - 1) <= n < Pow2(BitCount(n))
  {
    hide Pow2, BitCount;
  }

  /** The state whose `current` the next bit comes from. */
  function Refilled(n: nat, g: Gen): Gen
    requires n >= 2
  {
    if g.bitsLeft == 0 then Gen(Square(n, g.current), MaxBits(n)) else g
  }

  function NextState(n: nat, g: Gen): Gen
    requires n >= 2
  {
    Refilled(n, g).(bitsLeft := Refilled(n, g).bitsLeft - 1)
  }

  function NextBit(n: nat, g: Gen): (b: nat)
    requires n >= 2
    ensures b <= 1
  {
    Bit(Refilled(n, g).current, Refilled(n, g).bitsLeft - 1)
  }

  /** The state after `k` bits. */
  function Run(n: nat, g: Gen, k: nat): Gen
    requires n >= 2
  {
    if k == 0 then g else NextState(n, Run(n, g, k - 1))
  }

  /** Bits number from..to of the stream that starts in state `g`. */
  function Stream(n: nat, g: Gen, from: nat, to: nat): (bits: seq<nat>)
    requires n >= 2 && from <= to
    ensures |bits| == to - from
    ensures forall i :: 0 <= i < |bits| ==> bits[i] == NextBit(n, Run(n, g, from + i))
  {
    seq<nat>(to - from, i requires i >= 0 => NextBit(n, Run(n, g, from + i)))
  }

  // ----- where the sequential generator is after k bits -----

  /** The value of `current` for block `j` of a generator with initial residue `x0`. */
  function Block(n: nat, x0: nat, j: nat): nat
    requires n >= 2
  {
    Pow(x0, Pow2(j + 1)) % n
  }

  /** Block k / MaxBits, with k % MaxBits of its bits used. */
  function AtBit(n: nat, x0: nat, k: nat): Gen
    requires n >= 2
  {
    Gen(Block(n, x0, k / MaxBits(n)), MaxBits(n) - k % MaxBits(n))
  }

  lemma BlockSquares(n: nat, x0: nat, j: nat)
    requires n >= 2
    ensures Square(n, Block(n, x0, j)) == Block(n, x0, j + 1)
  {
    hide Divides;
    var y := Pow(x0, Pow2(j + 1));
    CongruentMod(y, n);
    CongruentSym(y, y % n, n);
    CongruentMul(y % n, y, y % n, y, n);
    PowAdd(x0, Pow2(j + 1), Pow2(j + 1));
    assert Pow2(j + 2) == Pow2(j + 1) + Pow2(j + 1);
    CongruentIffSameResidue((y % n) * (y % n), y * y, n);
  }

  lemma FirstBlock(n: nat, seed: nat)
    requires n >= 2
    ensures Square(n, Square(n, seed)) == Block(n, Square(n, seed), 0)
  {
    var x0 := Square(n, seed);
    assert Pow(x0, 2) == x0 * Pow(x0, 1) && Pow(x0, 1) == x0 * Pow(x0, 0);
    assert Pow2(1) == 2;
  }

  lemma DivModNext(k: nat, m: nat)
    requires m >= 1
    ensures k % m + 1 < m ==> (k + 1) / m == k / m && (k + 1) % m == k % m + 1
    ensures k % m + 1 == m ==> (k + 1) / m == k / m + 1 && (k + 1) % m == 0
  {
    DivMod(k, m);
    if k % m + 1 < m {
      DivModUnique(k + 1, m, k / m, k % m + 1);
    } else {
      MulDistributes(k / m, 1, m);
      DivModUnique(k + 1, m, k / m + 1, 0);
    }
  }

  /** After k bits the sequential generator is, up to a refill, at bit k. */
  lemma {:induction false} RunPosition(n: nat, x0: nat, k: nat)
    requires n >= 2
    ensures Refilled(n, Run(n, AtBit(n, x0, 0), k)) == AtBit(n, x0, k)
  {
    hide MaxBits, Block;
    var m := MaxBits(n);
    if k == 0 {
      DivModUnique(0, m, 0, 0);
    } else {
      RunPosition(n, x0, k - 1);
      DivModNext(k - 1, m);
      BlockSquares(n, x0, (k - 1) / m);
    }
  }

  /** Bit k from the start is a bit of x0^(2^(j+1)) mod n, where j is the block it is in; bits of a block are delivered
      from the highest of the low ones down. */
  lemma SequentialBit(n: nat, x0: nat, k: nat)
    requires n >= 2
    ensures var m := MaxBits(n);
            NextBit(n, Run(n, AtBit(n, x0, 0), k)) == Bit(Pow(x0, Pow2(k / m + 1)) % n, m - 1 - k % m)
  {
    hide MaxBits, Pow, Run, Bit;
    RunPosition(n, x0, k);
  }

  /** A refill changes nothing of what is delivered. */
  lemma {:induction false} RefillIsSilent(n: nat, g: Gen, h: Gen, k: nat)
    requires n >= 2 && Refilled(n, g) == Refilled(n, h)
    ensures Refilled(n, Run(n, g, k)) == Refilled(n, Run(n, h, k))
  {
    if k > 0 { RefillIsSilent(n, g, h, k - 1); }
  }

  lemma {:induction false} RunAdds(n: nat, g: Gen, j: nat, k: nat)
    requires n >= 2
    ensures Run(n, Run(n, g, j), k) == Run(n, g, j + k)
  {
    if k > 0 { RunAdds(n, g, j, k - 1); }
  }

  // ----- random access -----

  /** What `Seek` puts into the state for bit index `k`: the exponent 2^(block+1) is reduced
      modulo (p-1)(q-1) before the residue is raised to it. */
  function SeekState(n: nat, phi: nat, x0: nat, k: nat): Gen
    requires n >= 2 && phi > 0
  {
    Gen(Pow(x0, Pow2(k / MaxBits(n) + 1) % phi) % n, MaxBits(n) - k % MaxBits(n))
  }

  /** A caller can check it. For distinct factors: the seed shares no factor with the modulus, or (p-1)(q-1) does not
      divide the exponent. For equal ones (p-1)² is not a period of the powers: where p does not divide the seed,
      p divides the quotient of the exponent, or already the power by p-1 is 1. */
  ghost predicate SeekIsSafe(p: nat, q: nat, seed: nat, k: nat)
    requires p >= 2 && q >= 2
  {
    Factors(p, q);
    SafeExponent(p, q, seed, Pow2(k / MaxBits(p * q) + 1))
  }

  ghost predicate SafeExponent(p: nat, q: nat, seed: nat, e: nat)
    requires p >= 2 && q >= 2
  {
    Factors(p, q);
    var phi := (p - 1) * (q - 1);
    if p != q then (!Divides(p, seed) && !Divides(q, seed)) || e % phi != 0
    else if Divides(p, seed) then e % phi != 0
    else Divides(p, e / phi) || Congruent(Pow(Square(p * p, seed), p - 1), 1, p * p)
  }

  lemma Factors(p: nat, q: nat)
    requires p >= 2 && q >= 2
    ensures p * q >= 2 && (p - 1) * (q - 1) > 0
  {
    MulMonotone(2, p, q);
  }

  lemma DividesSquare(p: nat, n: nat, seed: nat)
    requires IsPrime(p) && Divides(p, n) && n >= 2
    ensures Divides(p, Square(n, seed)) <==> Divides(p, seed)
  {
    var s := seed * seed;
    DivMod(s, n);
    DividesCombination(p, n, n, s / n, 0);
    assert (s / n) * n + 0 * n == (s / n) * n;
    if Divides(p, seed) {
      DividesCombination(p, seed, seed, seed, 0);
      assert seed * seed + 0 * seed == s;
      DividesCombination(p, s, (s / n) * n, 1, -1);
      assert 1 * s + (-1) * ((s / n) * n) == s % n;
    }
    if Divides(p, s % n) {
      DividesCombination(p, s % n, (s / n) * n, 1, 1);
      assert 1 * (s % n) + 1 * ((s / n) * n) == s;
      PrimeDividesFactor(p, seed, seed);
    }
  }

  /** `Seek` lands on the state of the sequential generator exactly when it is safe. */
  lemma SeekLands(p: nat, q: nat, n: nat, phi: nat, seed: nat, k: nat)
    requires IsPrime(p) && IsPrime(q)
    requires n == p * q && n >= 2 && phi == (p - 1) * (q - 1) && phi > 0
    ensures SeekState(n, phi, Square(n, seed), k) == AtBit(n, Square(n, seed), k)
       <==> SeekIsSafe(p, q, seed, k)
  {
    if p == q {
      SeekLandsEqual(p, n, phi, seed, k);
    } else {
      SeekLandsDistinct(p, q, n, phi, seed, k);
    }
  }

  lemma SeekLandsDistinct(p: nat, q: nat, n: nat, phi: nat, seed: nat, k: nat)
    requires IsPrime(p) && IsPrime(q) && p != q
    requires n == p * q && n >= 2 && phi == (p - 1) * (q - 1) && phi > 0
    ensures SeekState(n, phi, Square(n, seed), k) == AtBit(n, Square(n, seed), k)
       <==> SeekIsSafe(p, q, seed, k)
  {
    assert p >= 2 && q >= 2;
    hide Divides, Pow, Pow2, MaxBits, IsPrime, Square;
    var x0, e := Square(n, seed), Pow2(k / MaxBits(n) + 1);
    assert Divides(p, n) && Divides(q, n) by {
      DividesByWitness(p, n, q);
      DividesByWitness(q, n, p);
    }
    DividesSquare(p, n, seed);
    DividesSquare(q, n, seed);
    CongruentIffSameResidue(Pow(x0, e), Pow(x0, e % phi), n);
    if SeekIsSafe(p, q, seed, k) {
      PowReduces(p, q, phi, x0, e);
    } else {
      PowReducesBadly(p, q, x0, e);
      assert Pow(x0, 0) == 1 by { PowStarts(x0); }
    }
  }

  lemma SeekLandsEqual(p: nat, n: nat, phi: nat, seed: nat, k: nat)
    requires IsPrime(p) && n == p * p && n >= 2 && phi == (p - 1) * (p - 1) && phi > 0
    ensures SeekState(n, phi, Square(n, seed), k) == AtBit(n, Square(n, seed), k)
       <==> SeekIsSafe(p, p, seed, k)
  {
    assert p >= 2;
    hide Divides, Pow, Pow2, MaxBits, IsPrime, Square;
    var x0, e := Square(n, seed), Pow2(k / MaxBits(n) + 1);
    DividesByWitness(p, n, p);
    DividesSquare(p, n, seed);
    CongruentIffSameResidue(Pow(x0, e), Pow(x0, e % phi), n);
    if Divides(p, seed) {
      SquareVanishes(p, n, seed);
      ZeroPower(e);
      ZeroPower(e % phi);
      DivModUnique(1, n, 0, 1);
    } else {
      PowReducesSquare(p, x0, phi, e);
    }
  }

  lemma SquareVanishes(p: nat, n: nat, seed: nat)
    requires Divides(p, seed) && n == p * p && n > 0
    ensures Square(n, seed) == 0
  {
    var t := MultipleOf(p, seed);
    SquareOfProduct(t, p);
    DivModUnique(seed * seed, n, t * t, 0);
  }

  lemma ZeroPower(e: nat)
    ensures Pow(0, e) == if e == 0 then 1 else 0
  {
  }

  /** The sequential stream from bit k on is the stream of the state at bit k. */
  lemma SequentialStream(n: nat, x0: nat, k: nat, count: nat)
    requires n >= 2
    ensures Stream(n, AtBit(n, x0, k), 0, count) == Stream(n, AtBit(n, x0, 0), k, k + count)
  {
    hide AtBit, Stream, Run, Refilled, MaxBits;
    var there, start := AtBit(n, x0, k), AtBit(n, x0, 0);
    RunPosition(n, x0, k);
    AlreadyRefilled(n, x0, k);
    forall b: nat | b < count
      ensures NextBit(n, Run(n, there, b)) == NextBit(n, Run(n, start, k + b))
    {
      RefillIsSilent(n, Run(n, start, k), there, b);
      RunAdds(n, start, k, b);
    }
    assert forall b :: 0 <= b < count ==> Stream(n, there, 0, count)[b] == NextBit(n, Run(n, there, 0 + b));
  }

  /** The stream after `Seek` to byte i is the sequential stream from bit 8i on. */
  lemma SeekedStream(p: nat, q: nat, n: nat, phi: nat, seed: nat, i: nat, count: nat)
    requires IsPrime(p) && IsPrime(q)
    requires n == p * q && n >= 2 && phi == (p - 1) * (q - 1) && phi > 0
    requires SeekIsSafe(p, q, seed, 8 * i)
    ensures Stream(n, SeekState(n, phi, Square(n, seed), 8 * i), 0, count)
         == Stream(n, AtBit(n, Square(n, seed), 0), 8 * i, 8 * i + count)
  {
    hide *;
    SeekLands(p, q, n, phi, seed, 8 * i);
    SequentialStream(n, Square(n, seed), 8 * i, count);
  }

  lemma AlreadyRefilled(n: nat, x0: nat, k: nat)
    requires n >= 2
    ensures Refilled(n, AtBit(n, x0, k)) == AtBit(n, x0, k)
  {}

  /** An odd divisor of a power of two is one. */
  lemma {:induction false} OddDivisorOfPow2(d: int, k: nat)
    requires d > 0 && d % 2 == 1 && Divides(d, Pow2(k))
    ensures d == 1
  {
    if k == 0 {
      DivisorBound(d, 1);
    } else {
      var m :| Multiple(m, d, Pow2(k));
      assert m * d == 2 * Pow2(k - 1);
      assert m % 2 == 0 by {
        if m % 2 == 1 {
          assert m * d == 2 * ((m / 2) * d) + d by {
            assert m == 2 * (m / 2) + 1;
            MulDistributes(2 * (m / 2), 1, d);
            MulAssociates(2, m / 2, d);
          }
        }
      }
      MulAssociates(2, m / 2, d);
      DividesByWitness(d, Pow2(k - 1), m / 2);
      OddDivisorOfPow2(d, k - 1);
    }
  }

  lemma HalfDivides(other: int, d: int, n: int)
    requires d % 2 == 0 && n == other * d
    ensures Divides(d / 2, n)
  {
    assert n == (2 * other) * (d / 2) by { MulAssociates(other, 2, d / 2); }
    DividesByWitness(d / 2, n, 2 * other);
  }

  /** For the primes the constructor asks for, congruent to 3 modulo 4, seeking is always safe. */
  lemma BlumPrimesAreSafe(p: nat, q: nat, seed: nat, k: nat)
    requires IsPrime(p) && IsPrime(q) && p != q && p % 4 == 3 && q % 4 == 3
    ensures SeekIsSafe(p, q, seed, k)
  {
    hide *;
    Factors(p, q);
    PhiIsNoPeriod(p, q, seed, k / MaxBits(p * q) + 1);
    SafeByExponent(p, q, seed, k);
  }

  lemma SafeByExponent(p: nat, q: nat, seed: nat, k: nat)
    requires p >= 2 && q >= 2 && p * q >= 2
    ensures SeekIsSafe(p, q, seed, k) == SafeExponent(p, q, seed, Pow2(k / MaxBits(p * q) + 1))
  {
    hide SafeExponent;
  }

  lemma PhiIsNoPeriod(p: nat, q: nat, seed: nat, k: nat)
    requires p != q && p % 4 == 3 && q % 4 == 3
    ensures SafeExponent(p, q, seed, Pow2(k))
  {
    hide *;
    Factors(p, q);
    var phi := (p - 1) * (q - 1);
    PhiDividesNoPower(p, q, phi, k);
    SafeByRemainder(p, q, seed, phi, Pow2(k));
  }

  lemma PhiDividesNoPower(p: nat, q: nat, phi: nat, k: nat)
    requires p != q && p % 4 == 3 && q % 4 == 3 && phi == (p - 1) * (q - 1) && phi > 0
    ensures Pow2(k) % phi != 0
  {
    hide Pow2, Divides;
    if p > q {
      assert phi == (q - 1) * (p - 1);
      NotAPowerOfTwo(q - 1, p - 1, k);
    } else {
      NotAPowerOfTwo(p - 1, q - 1, k);
    }
    DividesModulo(phi, Pow2(k));
  }

  lemma SafeByRemainder(p: nat, q: nat, seed: nat, phi: nat, e: nat)
    requires p >= 2 && q >= 2 && p != q && phi == (p - 1) * (q - 1) && phi > 0 && e % phi != 0
    ensures SafeExponent(p, q, seed, e)
  {
    hide Divides, Pow, Square;
  }

  lemma NotAPowerOfTwo(other: int, d: int, k: nat)
    requires d % 4 == 2 && d > 2
    ensures !Divides(other * d, Pow2(k))
  {
    if Divides(other * d, Pow2(k)) {
      HalfDivides(other, d, other * d);
      DividesTransitive(d / 2, other * d, Pow2(k));
      OddDivisorOfPow2(d / 2, k);
    }
  }

  // ----- the classes -----

  /** Eight bits, first delivered first, as the value of a byte. */
  function BitsValue(bits: seq<nat>): nat {
    if bits == [] then 0 else 2 * BitsValue(bits[..|bits| - 1]) + bits[|bits| - 1]
  }

  /** The first bit is the most significant one. */
  lemma {:induction false} BitsValueAt(bits: seq<nat>, j: nat)
    requires j < |bits| && forall i :: 0 <= i < |bits| ==> bits[i] <= 1
    ensures Bit(BitsValue(bits), |bits| - 1 - j) == bits[j]
  {
    var n := |bits| - 1;
    var v := BitsValue(bits);
    assert v / 2 == BitsValue(bits[..n]) && v % 2 == bits[n];
    hide BitsValue, Bit;
    BitBelow(v, n - j);
    if j < n { BitsValueAt(bits[..n], j); }
  }

  /** Byte `b` is byte number `i` of the stream starting in state `g`: its bit e is bit 8i+7-e of the stream. */
  ghost predicate IsByte(n: nat, g: Gen, i: nat, b: nat)
    requires n >= 2
  {
    && b < 256
    && forall e :: 0 <= e < 8 ==> Bit(b, e) == Stream(n, g, 8 * i, 8 * i + 8)[7 - e]
  }

  lemma ByteIs(n: nat, g: Gen, i: nat)
    requires n >= 2
    ensures IsByte(n, g, i, BitsValue(Stream(n, g, 8 * i, 8 * i + 8)))
  {
    hide NextBit, Run, BitsValue, Bit, MaxBits;
    var bits := Stream(n, g, 8 * i, 8 * i + 8);
    assert forall k :: 0 <= k < 8 ==> bits[k] <= 1;
    BitsValueBound(bits);
    assert Pow2(8) == 256;
    forall e | 0 <= e < 8
      ensures Bit(BitsValue(bits), e) == bits[7 - e]
    {
      BitsValueAt(bits, 7 - e);
    }
  }

  lemma {:induction false} BitsValueBound(bits: seq<nat>)
    requires forall i :: 0 <= i < |bits| ==> bits[i] <= 1
    ensures BitsValue(bits) < Pow2(|bits|)
  {
    if bits != [] { BitsValueBound(bits[..|bits| - 1]); }
  }

  /** `count` bytes of the stream starting in state `g`. */
  function StreamBytes(n: nat, g: Gen, count: nat): (bytes: seq<nat>)
    requires n >= 2
    ensures |bytes| == count
  {
    seq<nat>(count, i requires i >= 0 => BitsValue(Stream(n, g, 8 * i, 8 * i + 8)))
  }

  class PublicBlumBlumShub {
    const n: nat
    const maxBits: nat
    var current: nat
    var bitsLeft: nat

    ghost predicate Valid()
      reads this
    {
      n >= 2 && maxBits == MaxBits(n) && bitsLeft <= maxBits
    }

    function State(): Gen
      reads this
    {
      Gen(current, bitsLeft)
    }

    constructor (modulus: nat, seed: nat)
      requires modulus >= 2
      ensures Valid() && n == modulus
      ensures State() == AtBit(n, Square(n, seed), 0)
    {
      n := modulus;
      current := Square(modulus, Square(modulus, seed));
      maxBits := MaxBits(modulus);
      bitsLeft := MaxBits(modulus);
      FirstBlock(modulus, seed);
      DivModUnique(0, MaxBits(modulus), 0, 0);
    }

    method GenerateBit() returns (bit: nat)
      requires Valid()
      modifies this
      ensures Valid()
      ensures bit == NextBit(n, old(State())) && State() == NextState(n, old(State()))
    {
      if bitsLeft == 0 {
        current := Square(n, current);
        bitsLeft := maxBits;
      }
      bitsLeft := bitsLeft - 1;
      bit := Bit(current, bitsLeft);
    }

    method GenerateByte() returns (b: nat)
      requires Valid()
      modifies this
      ensures Valid() && State() == Run(n, old(State()), 8)
      ensures b == BitsValue(Stream(n, old(State()), 0, 8)) && IsByte(n, old(State()), 0, b)
    {
      hide NextBit, NextState, MaxBits, IsByte;
      ByteIs(n, State(), 0);
      b := 0;
      ghost var start := State();
      for i := 0 to 8
        invariant Valid() && State() == Run(n, start, i)
        invariant b == BitsValue(Stream(n, start, 0, i))
      {
        var bit := GenerateBit();
        assert Stream(n, start, 0, i + 1)[..i] == Stream(n, start, 0, i);
        b := 2 * b + bit;
      }
    }

    method GenerateBlock(size: nat) returns (output: seq<nat>)
      requires Valid()
      modifies this
      ensures Valid() && State() == Run(n, old(State()), 8 * size)
      ensures output == StreamBytes(n, old(State()), size)
      ensures forall i :: 0 <= i < size ==> IsByte(n, old(State()), i, output[i])
    {
      hide NextBit, NextState, MaxBits, Stream, BitsValue, Run, IsByte;
      output := [];
      ghost var start := State();
      assert Run(n, start, 0) == start by { RunZero(n, start); }
      var i := 0;
      while i < size
        invariant 0 <= i <= size && Valid() && State() == Run(n, start, 8 * i)
        invariant output == StreamBytes(n, start, i)
      {
        var b := GenerateByte();
        output := output + [b];
        StreamShift(n, start, 8 * i);
        RunAdds(n, start, 8 * i, 8);
        i := i + 1;
      }
      forall k | 0 <= k < size
        ensures IsByte(n, start, k, output[k])
      {
        ByteIs(n, start, k);
      }
    }
  }

  lemma RunZero(n: nat, g: Gen)
    requires n >= 2
    ensures Run(n, g, 0) == g
  {}

  lemma StreamShift(n: nat, g: Gen, k: nat)
    requires n >= 2
    ensures Stream(n, Run(n, g, k), 0, 8) == Stream(n, g, k, k + 8)
  {
    forall i: nat | i < 8
      ensures Run(n, Run(n, g, k), i) == Run(n, g, k + i)
    {
      RunAdds(n, g, k, i);
    }
  }

  /** The generator that knows the factors; the public generator it extends is a part of it. */
  class BlumBlumShub {
    const gen: PublicBlumBlumShub
    const p: nat
    const q: nat
    const x0: nat
    ghost const seed: nat

    ghost predicate Valid()
      reads gen
    {
      gen.Valid() && gen.n == p * q && p >= 2 && q >= 2 && x0 == Square(gen.n, seed)
    }

    constructor (p: nat, q: nat, seed: nat)
      requires p >= 2 && q >= 2
      ensures Valid() && fresh(gen) && gen.n == p * q && this.p == p && this.q == q && this.seed == seed
      ensures gen.State() == AtBit(p * q, Square(p * q, seed), 0)
    {
      Factors(p, q);
      gen := new PublicBlumBlumShub(p * q, seed);
      this.p, this.q, this.seed := p, q, seed;
      x0 := Square(p * q, seed);
    }

    /** Moves to byte `index`. */
    method Seek(index: nat)
      requires Valid()
      modifies gen
      ensures Valid() && (p - 1) * (q - 1) > 0
      ensures gen.State() == SeekState(gen.n, (p - 1) * (q - 1), x0, 8 * index)
      ensures IsPrime(p) && IsPrime(q) ==>
        (gen.State() == AtBit(gen.n, x0, 8 * index) <==> SeekIsSafe(p, q, seed, 8 * index))
    {
      hide IsPrime, SeekIsSafe, AtBit, Pow, Pow2, MaxBits;
      Factors(p, q);
      var i := 8 * index;
      var phi := (p - 1) * (q - 1);
      var e := Pow2(i / gen.maxBits + 1) % phi;
      gen.current := Pow(x0, e) % gen.n;
      gen.bitsLeft := gen.maxBits - i % gen.maxBits;
      if IsPrime(p) && IsPrime(q) {
        SeekLands(p, q, gen.n, phi, seed, i);
      }
    }
  }

  lemma SeekedBytes(p: nat, q: nat, n: nat, phi: nat, seed: nat, i: nat, count: nat)
    requires IsPrime(p) && IsPrime(q)
    requires n == p * q && n >= 2 && phi == (p - 1) * (q - 1) && phi > 0
    requires SeekIsSafe(p, q, seed, 8 * i)
    ensures StreamBytes(n, SeekState(n, phi, Square(n, seed), 8 * i), count)
         == StreamBytes(n, AtBit(n, Square(n, seed), 0), i + count)[i..]
  {
    hide SeekState, AtBit, Square, SeekIsSafe, IsPrime, BitsValue, MaxBits, Run, NextBit;
    var seeked, start := SeekState(n, phi, Square(n, seed), 8 * i), AtBit(n, Square(n, seed), 0);
    SeekedStream(p, q, n, phi, seed, i, 8 * count);
    forall b: nat | b < count
      ensures Stream(n, seeked, 8 * b, 8 * b + 8) == Stream(n, start, 8 * (i + b), 8 * (i + b) + 8)
    {
      assert Stream(n, seeked, 8 * b, 8 * b + 8) == Stream(n, seeked, 0, 8 * count)[8 * b..8 * b + 8];
      assert Stream(n, start, 8 * (i + b), 8 * (i + b) + 8)
          == Stream(n, start, 8 * i, 8 * i + 8 * count)[8 * b..8 * b + 8];
    }
  }

  /** Seeking to byte i and then generating gives what one long generation gives from byte i on. */
  method SeekThenGenerate(p: nat, q: nat, seed: nat, i: nat, count: nat)
    returns (seeked: seq<nat>, sequential: seq<nat>)
    requires IsPrime(p) && IsPrime(q) && SeekIsSafe(p, q, seed, 8 * i)
    ensures |sequential| == i + count && seeked == sequential[i..]
    ensures p * q >= 2 && forall k :: 0 <= k < i + count ==> IsOutputByte(p * q, seed, k, sequential[k])
  {
    assert p >= 2 && q >= 2;
    hide IsPrime, SeekIsSafe, AtBit, SeekState, MaxBits, Square, StreamBytes, Run, IsByte, IsOutputByte;
    Factors(p, q);
    var a := new BlumBlumShub(p, q, seed);
    var b := new BlumBlumShub(p, q, seed);
    a.Seek(i);
    seeked := a.gen.GenerateBlock(count);
    sequential := b.gen.GenerateBlock(i + count);
    SeekedBytes(p, q, p * q, (p - 1) * (q - 1), seed, i, count);
    forall k | 0 <= k < i + count
      ensures IsOutputByte(p * q, seed, k, sequential[k])
    {
      OutputByte(p * q, seed, k, sequential[k]);
    }
  }

  /** Byte `i` of the output for a seed: bit e is a bit of (seed²)^(2^(b+1)) mod n, b the block of bit 8i+7-e. */
  ghost predicate IsOutputByte(n: nat, seed: nat, i: nat, b: nat)
    requires n >= 2
  {
    && b < 256
    && forall e :: 0 <= e < 8 ==> Bit(b, e) == BitOfPower(n, seed * seed % n, 8 * i + 7 - e, MaxBits(n))
  }

  function BitOfPower(n: nat, x0: nat, k: nat, m: nat): nat
    requires n >= 2 && m > 0
  {
    Bit(Pow(x0, Pow2(k / m + 1)) % n, m - 1 - k % m)
  }

  lemma OutputByte(n: nat, seed: nat, i: nat, b: nat)
    requires n >= 2 && IsByte(n, AtBit(n, Square(n, seed), 0), i, b)
    ensures IsOutputByte(n, seed, i, b)
  {
    var x0 := Square(n, seed);
    assert x0 == seed * seed % n;
    hide AtBit, MaxBits, Run, NextBit, Pow, Pow2, Bit, Square;
    forall e | 0 <= e < 8
      ensures Bit(b, e) == BitOfPower(n, x0, 8 * i + 7 - e, MaxBits(n))
    {
      var k := 8 * i + 7 - e;
      SequentialBit(n, x0, k);
      assert Stream(n, AtBit(n, x0, 0), 8 * i, 8 * i + 8)[7 - e] == NextBit(n, Run(n, AtBit(n, x0, 0), k));
    }
  }
}
