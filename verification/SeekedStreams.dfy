/** What a generator delivers after `Seek` (blumshub.cpp), where it has not landed on the right state. */
module SeekedStreams {
  import opened Arithmetic
  import opened NumberTheory
  import opened BlumBlumShubGenerator

  /** Everything delivered after a seek to bit `k` is what the sequential generator delivers from there. */
  ghost predicate DeliversTheSame(n: nat, phi: nat, x0: nat, k: nat)
    requires n >= 2 && phi > 0
  {
    forall count: nat :: Stream(n, SeekState(n, phi, x0, k), 0, count) == Stream(n, AtBit(n, x0, 0), k, k + count)
  }

  /** The value that delivers bit number `k`, in its low MaxBits bits. */
  function LowBlock(n: nat, x0: nat, k: nat): nat
    requires n >= 2
  {
    LowBits(Block(n, x0, k / MaxBits(n)), MaxBits(n))
  }

  /** For distinct primes, or a seed they share, the bits are right exactly when the state is, or when the right value
      ends in the bits of 1: a seek that is not safe sets 1, and both values are their own squares from there on. */
  lemma BitsLand(p: nat, q: nat, n: nat, phi: nat, seed: nat, k: nat)
    requires IsPrime(p) && IsPrime(q) && (p != q || Divides(p, seed))
    requires n == p * q && n >= 2 && phi == (p - 1) * (q - 1) && phi > 0
    ensures DeliversTheSame(n, phi, Square(n, seed), k)
       <==> SeekIsSafe(p, q, seed, k) || LowBlock(n, Square(n, seed), k) == 1
  {
    assert p >= 2 && q >= 2;
    hide *;
    var x0 := Square(n, seed);
    SeekLands(p, q, n, phi, seed, k);
    if SeekIsSafe(p, q, seed, k) {
      StreamsOfSeek(n, phi, x0, k);
    } else {
      if p != q {
        UnsafeSeek(p, q, n, phi, seed, k);
      } else {
        UnsafeSeekOfZero(p, n, phi, seed, k);
      }
      ConstantStreams(n, phi, x0, k);
    }
  }

  lemma StreamsOfSeek(n: nat, phi: nat, x0: nat, k: nat)
    requires n >= 2 && phi > 0
    ensures DeliversTheSame(n, phi, x0, k) <==> SameStream(n, SeekState(n, phi, x0, k), AtBit(n, x0, k))
  {
    hide SeekState, AtBit, Stream, MaxBits;
    forall count: nat
      ensures Stream(n, AtBit(n, x0, k), 0, count) == Stream(n, AtBit(n, x0, 0), k, k + count)
    {
      SequentialStream(n, x0, k, count);
    }
  }

  ghost predicate SameStream(n: nat, g: Gen, h: Gen)
    requires n >= 2
  {
    forall count: nat :: Stream(n, g, 0, count) == Stream(n, h, 0, count)
  }

  /** An unsafe seek for distinct primes sets 1, and the right value is its own square. */
  lemma UnsafeSeek(p: nat, q: nat, n: nat, phi: nat, seed: nat, k: nat)
    requires IsPrime(p) && IsPrime(q) && p != q && !SeekIsSafe(p, q, seed, k)
    requires n == p * q && n >= 2 && phi == (p - 1) * (q - 1) && phi > 0
    ensures SeekState(n, phi, Square(n, seed), k).current == 1
    ensures Square(n, AtBit(n, Square(n, seed), k).current) == AtBit(n, Square(n, seed), k).current
  {
    assert p >= 2 && q >= 2;
    hide Divides, Pow, Pow2, MaxBits, IsPrime, Square;
    var x0, j := Square(n, seed), k / MaxBits(n);
    var e := Pow2(j + 1);
    assert e % phi == 0;
    PowStarts(x0);
    DivModUnique(1, n, 0, 1);
    BlockSquares(n, x0, j);
    assert Pow2(j + 2) == e + e by { Pow2Succ(j + 1); }
    DivMod(e, phi);
    PowPeriodProduct(p, q, x0, e, e / phi);
    CongruentIffSameResidue(Pow(x0, e + e), Pow(x0, e), n);
  }

  lemma UnsafeSeekOfZero(p: nat, n: nat, phi: nat, seed: nat, k: nat)
    requires IsPrime(p) && Divides(p, seed) && !SeekIsSafe(p, p, seed, k)
    requires n == p * p && n >= 2 && phi == (p - 1) * (p - 1) && phi > 0
    ensures SeekState(n, phi, Square(n, seed), k).current == 1
    ensures Square(n, AtBit(n, Square(n, seed), k).current) == AtBit(n, Square(n, seed), k).current
  {
    assert p >= 2;
    SquareVanishes(p, n, seed);
    hide Divides, Pow, Pow2, MaxBits, IsPrime;
    ZeroPower(0);
    ZeroPower(Pow2(k / MaxBits(n) + 1));
    DivModUnique(0, n, 0, 0);
    DivModUnique(1, n, 0, 1);
  }

  /** Two values that are their own squares deliver the same bits exactly when they have the same low ones. */
  lemma ConstantStreams(n: nat, phi: nat, x0: nat, k: nat)
    requires n >= 2 && phi > 0 && SeekState(n, phi, x0, k).current == 1
    requires Square(n, AtBit(n, x0, k).current) == AtBit(n, x0, k).current
    ensures DeliversTheSame(n, phi, x0, k) <==> LowBlock(n, x0, k) == 1
  {
    var m, y := MaxBits(n), AtBit(n, x0, k).current;
    var left := m - k % m;
    hide SeekState, AtBit, Stream, Run, MaxBits, LowBits, Square;
    StreamsOfSeek(n, phi, x0, k);
    assert SeekState(n, phi, x0, k) == Gen(1, left) && AtBit(n, x0, k) == Gen(y, left) by { StateParts(n, phi, x0, k); }
    assert Square(n, 1) == 1 by { OneIsASquare(n); }
    FixedStreams(n, 1, y, left);
    SameLowBits(1, y, m);
    OneBit(m);
    assert LowBlock(n, x0, k) == LowBits(y, m) by { BlockParts(n, x0, k); }
  }

  lemma StateParts(n: nat, phi: nat, x0: nat, k: nat)
    requires n >= 2 && phi > 0
    ensures SeekState(n, phi, x0, k).bitsLeft == AtBit(n, x0, k).bitsLeft == MaxBits(n) - k % MaxBits(n)
  {
    hide Pow, Pow2, MaxBits;
  }

  lemma BlockParts(n: nat, x0: nat, k: nat)
    requires n >= 2
    ensures LowBlock(n, x0, k) == LowBits(AtBit(n, x0, k).current, MaxBits(n))
  {
    hide MaxBits, LowBits;
  }

  lemma OneIsASquare(n: nat)
    requires n >= 2
    ensures Square(n, 1) == 1
  {
    DivModUnique(1, n, 0, 1);
  }

  lemma OneBit(m: nat)
    requires m >= 1
    ensures LowBits(1, m) == 1
  {
    LowBitsOfZero(m - 1);
  }

  lemma {:induction false} LowBitsOfZero(m: nat)
    ensures LowBits(0, m) == 0
  {
    if m > 0 { LowBitsOfZero(m - 1); }
  }

  lemma {:induction false} SameLowBits(u: nat, v: nat, m: nat)
    ensures LowBits(u, m) == LowBits(v, m) <==> forall i :: 0 <= i < m ==> Bit(u, i) == Bit(v, i)
  {
    if m > 0 {
      SameLowBits(u / 2, v / 2, m - 1);
      assert Bit(u, 0) == u % 2 && Bit(v, 0) == v % 2;
      assert forall i :: 0 <= i < m - 1 ==> Bit(u, i + 1) == Bit(u / 2, i) && Bit(v, i + 1) == Bit(v / 2, i);
      if forall i :: 0 <= i < m - 1 ==> Bit(u / 2, i) == Bit(v / 2, i) {
        assert forall i :: 0 < i < m ==> Bit(u, i) == Bit(u / 2, i - 1) && Bit(v, i) == Bit(v / 2, i - 1);
      }
    }
  }

  /** Where a state whose value is its own square is after `b` bits, up to a second refill. */
  lemma {:induction false} FixedRun(n: nat, v: nat, left: nat, b: nat)
    requires n >= 2 && Square(n, v) == v && 1 <= left <= MaxBits(n)
    ensures Run(n, Gen(v, left), b) == Gen(v, LeftAfter(MaxBits(n), left, b))
  {
    hide Square, MaxBits;
    if b > 0 { FixedRun(n, v, left, b - 1); }
  }

  function LeftAfter(m: nat, left: nat, b: nat): (l: nat)
    requires 1 <= left <= m
    ensures l <= m
    ensures b <= left ==> l == left - b
    ensures left < b <= left + m ==> l == left + m - b
  {
    if b == 0 then left
    else
      var l := LeftAfter(m, left, b - 1);
      if l == 0 then m - 1 else l - 1
  }

  lemma FixedBit(n: nat, v: nat, left: nat, b: nat)
    requires n >= 2 && Square(n, v) == v && 1 <= left <= MaxBits(n)
    ensures NextBit(n, Run(n, Gen(v, left), b)) == Bit(v, LeftAfter(MaxBits(n), left, b + 1))
  {
    hide Square, MaxBits;
    FixedRun(n, v, left, b);
  }

  lemma FixedStreams(n: nat, u: nat, v: nat, left: nat)
    requires n >= 2 && Square(n, u) == u && Square(n, v) == v && 1 <= left <= MaxBits(n)
    ensures SameStream(n, Gen(u, left), Gen(v, left)) <==> forall i :: 0 <= i < MaxBits(n) ==> Bit(u, i) == Bit(v, i)
  {
    hide Square, MaxBits, Run, NextBit, Bit;
    var m, g, h := MaxBits(n), Gen(u, left), Gen(v, left);
    if forall i :: 0 <= i < m ==> Bit(u, i) == Bit(v, i) {
      forall count: nat
        ensures Stream(n, g, 0, count) == Stream(n, h, 0, count)
      {
        forall b: nat | b < count
          ensures Stream(n, g, 0, count)[b] == Stream(n, h, 0, count)[b]
        {
          FixedBit(n, u, left, b);
          FixedBit(n, v, left, b);
          StaysBelow(m, left, b);
          assert Stream(n, g, 0, count)[b] == NextBit(n, Run(n, g, 0 + b));
        }
      }
    }
    if SameStream(n, g, h) {
      forall i | 0 <= i < m
        ensures Bit(u, i) == Bit(v, i)
      {
        var b: nat := if i < left then left - 1 - i else left + m - 1 - i;
        FixedBit(n, u, left, b);
        FixedBit(n, v, left, b);
        assert LeftAfter(m, left, b + 1) == i;
        assert Stream(n, g, 0, b + 1)[b] == Stream(n, h, 0, b + 1)[b];
      }
    }
  }

  lemma StaysBelow(m: nat, left: nat, b: nat)
    requires 1 <= left <= m
    ensures LeftAfter(m, left, b + 1) < m
  {
  }

  // ----- the misses -----

  /** Where the first bits differ, so do the streams. */
  lemma FirstBitDiffers(n: nat, phi: nat, x0: nat, k: nat)
    requires n >= 2 && phi > 0
    requires var left := MaxBits(n) - k % MaxBits(n);
             Bit(SeekState(n, phi, x0, k).current, left - 1) != Bit(AtBit(n, x0, k).current, left - 1)
    ensures Stream(n, SeekState(n, phi, x0, k), 0, 1) != Stream(n, AtBit(n, x0, 0), k, k + 1)
  {
    hide MaxBits, Pow, Bit;
    SequentialStream(n, x0, k, 1);
    assert Stream(n, SeekState(n, phi, x0, k), 0, 1)[0] != Stream(n, AtBit(n, x0, k), 0, 1)[0];
  }

  /** With equal factors a seek can miss for a seed that shares none: p = q = 3, seed 2, byte 1. The state is another
      one, and so is the first bit. */
  lemma EqualFactorsFail()
    ensures IsPrime(3) && !Divides(3, 2) && SeekState(9, 4, Square(9, 2), 8) != AtBit(9, Square(9, 2), 8)
    ensures Stream(9, SeekState(9, 4, Square(9, 2), 8), 0, 1) != Stream(9, AtBit(9, Square(9, 2), 0), 8, 9)
  {
    hide *;
    SmallPrime(3);
    DividesModulo(3, 2);
    SmallSizes();
    SmallSquares();
    SetsOne(9, 4, 4, 8);
    FourCycles();
    TopBits(7);
    StateParts(9, 4, 4, 8);
    FirstBitDiffers(9, 4, 4, 8);
  }

  lemma SmallSizes()
    ensures MaxBits(9) == MaxBits(15) == 2 && MaxBits(6) == 1 && Pow2(5) == 32
  {
    assert BitCount(4) == 3 && BitCount(3) == 2;
    assert BitCount(9) == 4 && BitCount(15) == 4 && BitCount(6) == 3;
  }

  lemma FourCycles()
    ensures AtBit(9, 4, 8).current == 7
  {
    hide Block, MaxBits, Square;
    SmallSizes();
    SmallSquares();
    FirstBlock(9, 2);
    BlockSquares(9, 4, 0);
    BlockSquares(9, 4, 1);
    BlockSquares(9, 4, 2);
    BlockSquares(9, 4, 3);
  }

  lemma SmallSquares()
    ensures Square(9, 2) == 4 && Square(15, 3) == 9 && Square(6, 3) == 3
    ensures Square(9, 4) == 7 && Square(9, 7) == 4 && Square(15, 9) == 6 == Square(15, 6)
  {
  }

  /** For these moduli, bit 8 begins block 4, and the exponent 2^5 is reduced to zero. */
  lemma SetsOne(n: nat, phi: nat, x0: nat, k: nat)
    requires n >= 2 && phi > 0 && MaxBits(n) == 2 && k == 8 && Pow2(5) == 32 && 32 % phi == 0
    ensures SeekState(n, phi, x0, k).current == 1
  {
    hide MaxBits, Pow, Pow2;
    PowStarts(x0);
    DivModUnique(1, n, 0, 1);
  }

  lemma TopBits(y: nat)
    requires y == 6 || y == 7
    ensures Bit(1, 1) == 0 && Bit(y, 1) == 1
  {
  }

  /** Small primes and a seed that shares a factor with the modulus: `Seek` to byte 1 misses, in state and bits. */
  lemma SeekCanMiss()
    ensures IsPrime(3) && IsPrime(5)
    ensures SeekState(15, 8, Square(15, 3), 8) != AtBit(15, Square(15, 3), 8)
    ensures Stream(15, SeekState(15, 8, Square(15, 3), 8), 0, 1) != Stream(15, AtBit(15, Square(15, 3), 0), 8, 9)
  {
    hide *;
    SmallPrime(3);
    SmallPrime(5);
    SmallSizes();
    SmallSquares();
    SetsOne(15, 8, 9, 8);
    NineStays();
    TopBits(6);
    StateParts(15, 8, 9, 8);
    FirstBitDiffers(15, 8, 9, 8);
  }

  lemma NineStays()
    ensures AtBit(15, 9, 8).current == 6
  {
    hide Block, MaxBits, Square;
    SmallSizes();
    SmallSquares();
    FirstBlock(15, 3);
    BlockSquares(15, 9, 0);
    BlockSquares(15, 9, 1);
    BlockSquares(15, 9, 2);
    BlockSquares(15, 9, 3);
  }

  lemma SmallPrime(p: nat)
    requires p == 2 || p == 3 || p == 5
    ensures IsPrime(p)
  {
  }

  /** For p = 2, q = 3 and seed 3 every seek misses the state, and every bit after it is right. */
  lemma MissedButRight(k: nat)
    ensures IsPrime(2) && IsPrime(3)
    ensures SeekState(6, 2, Square(6, 3), k) != AtBit(6, Square(6, 3), k)
    ensures DeliversTheSame(6, 2, Square(6, 3), k)
  {
    hide *;
    SmallPrime(2);
    SmallPrime(3);
    SmallSquares();
    ThreeDelivers(k);
    BitsLand(2, 3, 6, 2, 3, k);
  }

  lemma ThreeDelivers(k: nat)
    ensures LowBlock(6, 3, k) == 1 && SeekState(6, 2, 3, k).current == 1 && AtBit(6, 3, k).current == 3
  {
    assert MaxBits(6) == 1 && LowBits(3, 1) == 1 && Pow2(k + 1) % 2 == 0;
    hide MaxBits, Pow2, Block, LowBits;
    DivModUnique(k, 1, k, 0);
    ThreeStays(k);
  }

  lemma {:induction false} ThreeStays(j: nat)
    ensures Block(6, 3, j) == 3
  {
    hide Block;
    SmallSquares();
    if j == 0 {
      FirstBlock(6, 3);
    } else {
      ThreeStays(j - 1);
      BlockSquares(6, 3, j - 1);
    }
  }
}
