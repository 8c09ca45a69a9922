/** Two bases, two exponents, one shared doubling chain (algebra.cpp, `CascadeScalarMultiply`). */
module Cascade {
  import opened Arithmetic
  import opened Groups

  ghost predicate IsCommutativeMonoid<T(!new)>(g: Group<T>) {
    IsMonoid(g) && IsCommutative(g)
  }

  /** The two bases with the group they live in. */
  datatype Pair<!T> = Pair(g: Group<T>, x: T, y: T)

  /** a·x + b·y: the meaning of a two-base cascade. */
  function Lin<T>(p: Pair<T>, a: nat, b: nat): T {
    p.g.add(NTimes(p.g, a, p.x), NTimes(p.g, b, p.y))
  }

  lemma LinAdd<T(!new)>(p: Pair<T>, a: nat, b: nat, c: nat, d: nat)
    requires IsCommutativeMonoid(p.g)
    ensures p.g.add(Lin(p, a, b), Lin(p, c, d)) == Lin(p, a + c, b + d)
  {
    hide NTimes;
    var g := p.g;
    var xa, yb, xc, yd := NTimes(g, a, p.x), NTimes(g, b, p.y), NTimes(g, c, p.x), NTimes(g, d, p.y);
    calc {
      g.add(g.add(xa, yb), g.add(xc, yd));
      { assert Associates(g, xa, yb, g.add(xc, yd)) && Associates(g, yb, xc, yd); }
      g.add(xa, g.add(g.add(yb, xc), yd));
      { assert Commutes(g, yb, xc); }
      g.add(xa, g.add(g.add(xc, yb), yd));
      { assert Associates(g, xc, yb, yd) && Associates(g, xa, xc, g.add(yb, yd)); }
      g.add(g.add(xa, xc), g.add(yb, yd));
      { NTimesAdd(g, a, c, p.x); NTimesAdd(g, b, d, p.y); }
      Lin(p, a + c, b + d);
    }
  }

  lemma LinUnits<T(!new)>(p: Pair<T>)
    requires IsCommutativeMonoid(p.g)
    ensures Lin(p, 1, 0) == p.x && Lin(p, 0, 1) == p.y && Lin(p, 0, 0) == p.g.identity
  {
    TimesOne(p.g, p.x);
    TimesOne(p.g, p.y);
    assert Neutral(p.g, p.x) && Neutral(p.g, p.y) && Neutral(p.g, p.g.identity);
  }

  // ----- the power table -----

  /** Position of p1·x + p2·y in the flat table. */
  function Index(ts: nat, p1: nat, p2: nat): nat { p2 * ts + p1 }

  lemma IndexInRange(ts: nat, p1: nat, p2: nat)
    requires p1 < ts && p2 < ts
    ensures Index(ts, p1, p2) < ts * ts
  {
    MulMonotone(p2, ts - 1, ts);
    MulDistributes(ts, 1, ts);
  }

  lemma IndexInjective(ts: nat, p1: nat, p2: nat, q1: nat, q2: nat)
    requires p1 < ts && q1 < ts && Index(ts, p1, p2) == Index(ts, q1, q2)
    ensures p1 == q1 && p2 == q2
  {
    MulDistributes(p2, q2, ts);
    SmallMultiple(p2 - q2, ts);
  }

  /** The slot for p1·x + p2·y has been filled, and correctly. */
  ghost predicate Filled<T(!new)>(p: Pair<T>, table: seq<T>, ts: nat, p1: nat, p2: nat)
    requires p1 < ts && p2 < ts && |table| == ts * ts
  {
    IndexInRange(ts, p1, p2);
    table[Index(ts, p1, p2)] == Lin(p, p1, p2)
  }

  /** Every slot the main loop may read: those with an odd coordinate. */
  ghost predicate TableReady<T(!new)>(p: Pair<T>, table: seq<T>, ts: nat) {
    |table| == ts * ts &&
    forall p1: nat, p2: nat :: p1 < ts && p2 < ts && (p1 % 2 == 1 || p2 % 2 == 1) ==> Filled(p, table, ts, p1, p2)
  }

  /** Coordinates whose slots hold their value. */
  ghost predicate AllFilled<T(!new)>(p: Pair<T>, table: seq<T>, ts: nat, done: set<(nat, nat)>) {
    |table| == ts * ts &&
    forall c :: c in done ==> c.0 < ts && c.1 < ts && Filled(p, table, ts, c.0, c.1)
  }

  /** Stores the value of one more slot. */
  method Place<T(!new)>(p: Pair<T>, table: seq<T>, ts: nat, ghost done: set<(nat, nat)>, p1: nat, p2: nat, value: T)
    returns (table': seq<T>)
    requires AllFilled(p, table, ts, done) && p1 < ts && p2 < ts && value == Lin(p, p1, p2)
    ensures AllFilled(p, table', ts, done + {(p1, p2)})
  {
    hide Lin, Index;
    IndexInRange(ts, p1, p2);
    table' := table[Index(ts, p1, p2) := value];
    forall c | c in done + {(p1, p2)}
      ensures c.0 < ts && c.1 < ts && Filled(p, table', ts, c.0, c.1)
    {
      if c != (p1, p2) {
        assert Filled(p, table, ts, c.0, c.1);
        IndexInRange(ts, c.0, c.1);
        if Index(ts, c.0, c.1) == Index(ts, p1, p2) { IndexInjective(ts, c.0, c.1, p1, p2); }
      }
    }
  }

  /** Fills one more slot with the sum of two filled ones. */
  method Fill<T(!new)>(p: Pair<T>, table: seq<T>, ts: nat, ghost done: set<(nat, nat)>,
                       p1: nat, p2: nat, from1: nat, from2: nat, step1: nat, step2: nat)
    returns (table': seq<T>)
    requires IsCommutativeMonoid(p.g) && AllFilled(p, table, ts, done)
    requires p1 < ts && p2 < ts && p1 == from1 + step1 && p2 == from2 + step2
    requires (from1, from2) in done && (step1, step2) in done
    ensures AllFilled(p, table', ts, done + {(p1, p2)})
  {
    hide Lin, Index;
    IndexInRange(ts, from1, from2);
    IndexInRange(ts, step1, step2);
    assert Filled(p, table, ts, (from1, from2).0, (from1, from2).1);
    assert Filled(p, table, ts, (step1, step2).0, (step1, step2).1);
    LinAdd(p, from1, from2, step1, step2);
    table' := Place(p, table, ts, done, p1, p2,
                    p.g.add(table[Index(ts, from1, from2)], table[Index(ts, step1, step2)]));
  }

  /** The slots with an odd first coordinate: rows 0, 1, 2, ... of each odd column. */
  method FillOddColumns<T(!new)>(p: Pair<T>, tableIn: seq<T>, ts: nat, ghost doneIn: set<(nat, nat)>)
    returns (table: seq<T>, ghost done: set<(nat, nat)>)
    requires IsCommutativeMonoid(p.g) && AllFilled(p, tableIn, ts, doneIn)
    requires ts % 2 == 0 && {(1, 0), (2, 0), (0, 1)} <= doneIn
    ensures AllFilled(p, table, ts, done) && doneIn <= done
    ensures forall p1: nat, p2: nat :: p1 < ts && p2 < ts && p1 % 2 == 1 ==> (p1, p2) in done
  {
    hide IsCommutativeMonoid, AllFilled;
    table, done := tableIn, doneIn;
    var i := 3;
    while i < ts
      invariant i % 2 == 1 && AllFilled(p, table, ts, done) && doneIn <= done
      invariant forall p1: nat :: p1 < i && p1 < ts && p1 % 2 == 1 ==> (p1, 0) in done
    {
      table := Fill(p, table, ts, done, i, 0, i - 2, 0, 2, 0);
      done := done + {(i, 0)};
      i := i + 2;
    }
    i := 1;
    while i < ts
      invariant i % 2 == 1 && AllFilled(p, table, ts, done) && doneIn <= done
      invariant forall p1: nat :: p1 < ts && p1 % 2 == 1 ==> (p1, 0) in done
      invariant forall p1: nat, p2: nat :: p1 < i && p1 < ts && p2 < ts && p1 % 2 == 1 ==> (p1, p2) in done
    {
      var row := 1;
      while row < ts
        invariant 1 <= row <= ts && AllFilled(p, table, ts, done) && doneIn <= done
        invariant forall p1: nat :: p1 < ts && p1 % 2 == 1 ==> (p1, 0) in done
        invariant forall p1: nat, p2: nat :: p1 < i && p2 < ts && p1 % 2 == 1 ==> (p1, p2) in done
        invariant forall p2: nat :: p2 < row ==> (i, p2) in done
      {
        assert (i, row - 1) in done;
        table := Fill(p, table, ts, done, i, row, i, row - 1, 0, 1);
        done := done + {(i, row)};
        row := row + 1;
      }
      i := i + 2;
    }
  }

  /** The slots with an odd second coordinate and an even first one. */
  method FillOddRows<T(!new)>(p: Pair<T>, tableIn: seq<T>, ts: nat, ghost doneIn: set<(nat, nat)>)
    returns (table: seq<T>, ghost done: set<(nat, nat)>)
    requires IsCommutativeMonoid(p.g) && AllFilled(p, tableIn, ts, doneIn)
    requires ts % 2 == 0 && {(1, 0), (0, 2), (0, 1)} <= doneIn
    requires forall p1: nat, p2: nat :: p1 < ts && p2 < ts && p1 % 2 == 1 ==> (p1, p2) in doneIn
    ensures AllFilled(p, table, ts, done) && doneIn <= done
    ensures forall p1: nat, p2: nat :: p1 < ts && p2 < ts && p1 % 2 == 0 && p2 % 2 == 1 ==> (p1, p2) in done
  {
    hide IsCommutativeMonoid, AllFilled;
    table, done := tableIn, doneIn;
    var row := 3;
    while row < ts
      invariant row % 2 == 1 && AllFilled(p, table, ts, done) && doneIn <= done
      invariant forall p2: nat :: p2 < row && p2 < ts && p2 % 2 == 1 ==> (0, p2) in done
    {
      table := Fill(p, table, ts, done, 0, row, 0, row - 2, 0, 2);
      done := done + {(0, row)};
      row := row + 2;
    }
    row := 1;
    while row < ts
      invariant row % 2 == 1 && AllFilled(p, table, ts, done) && doneIn <= done
      invariant forall p2: nat :: p2 < ts && p2 % 2 == 1 ==> (0, p2) in done
      invariant forall p1: nat, p2: nat ::
        p1 < ts && p2 < row && p2 < ts && p1 % 2 == 0 && p2 % 2 == 1 ==> (p1, p2) in done
    {
      var j := 2;
      while j < ts
        invariant j % 2 == 0 && AllFilled(p, table, ts, done) && doneIn <= done
        invariant forall p2: nat :: p2 < ts && p2 % 2 == 1 ==> (0, p2) in done
        invariant forall p1: nat, p2: nat ::
          p1 < ts && p2 < row && p1 % 2 == 0 && p2 % 2 == 1 ==> (p1, p2) in done
        invariant forall p1: nat :: p1 < j && p1 < ts && p1 % 2 == 0 ==> (p1, row) in done
      {
        assert (j - 1, row) in doneIn;
        table := Fill(p, table, ts, done, j, row, j - 1, row, 1, 0);
        done := done + {(j, row)};
        j := j + 2;
      }
      row := row + 2;
    }
  }

  /** Builds the table. Slots with two even coordinates other than (2,0) and (0,2) keep `blank`. */
  method BuildTable<T(!new)>(p: Pair<T>, w: nat, blank: T) returns (table: seq<T>)
    requires IsCommutativeMonoid(p.g) && 1 <= w <= 3
    ensures TableReady(p, table, Pow2(w))
  {
    hide IsCommutativeMonoid, Lin, Filled;
    var tableSize := Pow2(w);
    assert Pow2(1) == 2 && Pow2(2) == 4 && Pow2(3) == 8;
    ghost var done: set<(nat, nat)> := {};
    table := seq(tableSize * tableSize, _ => blank);
    assert Lin(p, 1, 0) == p.x && Lin(p, 0, 1) == p.y by { LinUnits(p); }
    table := Place(p, table, tableSize, done, 1, 0, p.x);
    done := done + {(1, 0)};
    table := Place(p, table, tableSize, done, 0, 1, p.y);
    done := done + {(0, 1)};
    if w == 1 {
      table := Fill(p, table, tableSize, done, 1, 1, 1, 0, 0, 1);
      done := done + {(1, 1)};
    } else {
      table := Fill(p, table, tableSize, done, 2, 0, 1, 0, 1, 0);
      done := done + {(2, 0)};
      table := Fill(p, table, tableSize, done, 0, 2, 0, 1, 0, 1);
      done := done + {(0, 2)};
      table, done := FillOddColumns(p, table, tableSize, done);
      table, done := FillOddRows(p, table, tableSize, done);
    }
    forall p1: nat, p2: nat | p1 < tableSize && p2 < tableSize && (p1 % 2 == 1 || p2 % 2 == 1)
      ensures Filled(p, table, tableSize, p1, p2)
    {
      assert (p1, p2) in done;
      assert Filled(p, table, tableSize, (p1, p2).0, (p1, p2).1);
    }
  }

  // ----- the main loop -----

  lemma {:induction false} LinDouble<T(!new)>(p: Pair<T>, a: nat, b: nat)
    requires IsCommutativeMonoid(p.g)
    ensures Double(p.g, Lin(p, a, b)) == Lin(p, 2 * a, 2 * b)
  {
    LinAdd(p, a, b, a, b);
  }

  /** Doubles `count` times. */
  method DoubleTimes<T(!new)>(p: Pair<T>, start: T, count: nat, ghost a: nat, ghost b: nat) returns (r: T)
    requires IsCommutativeMonoid(p.g) && start == Lin(p, a, b)
    ensures r == Lin(p, a * Pow2(count), b * Pow2(count))
  {
    hide Lin, IsCommutativeMonoid;
    r := start;
    var left := count;
    ghost var done := 0;
    while left > 0
      invariant done + left == count
      invariant r == Lin(p, a * Pow2(done), b * Pow2(done))
    {
      LinDouble(p, a * Pow2(done), b * Pow2(done));
      MulPastTwo(a, Pow2(done));
      MulPastTwo(b, Pow2(done));
      r := Double(p.g, r);
      left, done := left - 1, done + 1;
    }
  }

  /** What the main loop has established when the bits from `n` up have been read: `a` and `b` are
      folded into the result, the last `k` bits of each prefix are pending in power1 and power2. */
  ghost predicate Progress(e1: nat, e2: nat, n: nat, k: nat, power1: nat, power2: nat, a: nat, b: nat) {
    && power1 < Pow2(k) && power2 < Pow2(k)
    && Shr(e1, n) == a * Pow2(k) + power1
    && Shr(e2, n) == b * Pow2(k) + power2
  }

  lemma ReadBit(e1: nat, e2: nat, i: nat, k: nat, power1: nat, power2: nat, a: nat, b: nat)
    requires Progress(e1, e2, i + 1, k, power1, power2, a, b)
    ensures Progress(e1, e2, i, k + 1, 2 * power1 + Bit(e1, i), 2 * power2 + Bit(e2, i), a, b)
  {
    hide Shr;
    PrefixExtends(e1, i);
    PrefixExtends(e2, i);
    MulPastTwo(a, Pow2(k));
    MulPastTwo(b, Pow2(k));
  }

  lemma AllFolded(e1: nat, e2: nat, a: nat, b: nat)
    requires Progress(e1, e2, 0, 0, 0, 0, a, b)
    ensures a == e1 && b == e2
  {
    assert Pow2(0) == 1;
  }

  lemma Folded(e1: nat, e2: nat, n: nat)
    ensures Progress(e1, e2, n, 0, 0, 0, Shr(e1, n), Shr(e2, n))
  {
    assert Pow2(0) == 1;
  }

  /** Moves the common factors of two out of the pending window: the inner halving loop. `top`
      is one on the first window, whose leading bit has no squaring of its own. */
  method Halve(power1: nat, power2: nat, squares: nat, ghost top: nat)
    returns (p1: nat, p2: nat, before: nat, after: nat)
    requires top <= 1 && power1 < Pow2(squares + top) && power2 < Pow2(squares + top)
    ensures before + after == squares
    ensures p1 * Pow2(after) == power1 && p2 * Pow2(after) == power2
    ensures p1 <= power1 && p2 <= power2
    ensures p1 == p2 == 0 <==> power1 == power2 == 0
    ensures p1 == p2 == 0 || p1 % 2 == 1 || p2 % 2 == 1
  {
    p1, p2, before, after := power1, power2, squares, 0;
    while (p1 != 0 || p2 != 0) && p1 % 2 == 0 && p2 % 2 == 0
      invariant before + after == squares
      invariant p1 * Pow2(after) == power1 && p2 * Pow2(after) == power2
      invariant p1 <= power1 && p2 <= power2
      invariant p1 < Pow2(before + top) && p2 < Pow2(before + top)
      invariant p1 == p2 == 0 <==> power1 == power2 == 0
      decreases p1 + p2
    {
      NoUnderflow(before, top, p1, p2);
      MulHalf(p1, Pow2(after));
      MulHalf(p2, Pow2(after));
      p1, p2 := p1 / 2, p2 / 2;
      before, after := before - 1, after + 1;
    }
  }

  /** Folds the pending window (power1, power2) into the result: the body of the `if` in the main
      loop. On the first window nothing is accumulated yet and a = b = 0. */
  method Combine<T(!new)>(p: Pair<T>, table: seq<T>, w: nat, result: T, first: bool,
                          power1: nat, power2: nat, squares: nat, ghost e1: nat, ghost e2: nat,
                          ghost n: nat, ghost a: nat, ghost b: nat)
    returns (r: T)
    requires IsCommutativeMonoid(p.g) && TableReady(p, table, Pow2(w))
    requires power1 < Pow2(w) && power2 < Pow2(w)
    requires Progress(e1, e2, n, if first then squares + 1 else squares, power1, power2, a, b)
    requires if first then a == b == 0 && (Shr(e1, n) > 0 || Shr(e2, n) > 0) else result == Lin(p, a, b)
    ensures r == Lin(p, Shr(e1, n), Shr(e2, n))
  {
    hide Lin, IsCommutativeMonoid, Pow2, Index, Shr;
    var p1, p2, squaresBefore, squaresAfter := Halve(power1, power2, squares, if first then 1 else 0);
    IndexInRange(Pow2(w), p1, p2);
    if first {
      assert Filled(p, table, Pow2(w), p1, p2);
      r := table[Index(Pow2(w), p1, p2)];
    } else {
      r := DoubleTimes(p, result, squaresBefore, a, b);
      if p1 != 0 || p2 != 0 {
        assert Filled(p, table, Pow2(w), p1, p2);
        LinAdd(p, a * Pow2(squaresBefore), b * Pow2(squaresBefore), p1, p2);
        r := p.g.add(r, table[Index(Pow2(w), p1, p2)]);
      }
    }
    Refactor(a, squaresBefore, squaresAfter, p1);
    Refactor(b, squaresBefore, squaresAfter, p2);
    r := DoubleTimes(p, r, squaresAfter, a * Pow2(squaresBefore) + p1, b * Pow2(squaresBefore) + p2);
  }

  lemma NoUnderflow(squares: nat, top: nat, p1: nat, p2: nat)
    requires top <= 1 && (p1 > 0 || p2 > 0) && p1 % 2 == 0 && p2 % 2 == 0
    requires p1 < Pow2(squares + top) && p2 < Pow2(squares + top)
    ensures squares >= 1
  {
    assert Pow2(1) == 2 && Pow2(0) == 1;
  }

  lemma MulHalf(p: nat, q: nat)
    requires p % 2 == 0
    ensures (p / 2) * (2 * q) == p * q
  {
    MulAssociates(p / 2, 2, q);
  }

  lemma Refactor(a: nat, k: nat, s: nat, p: nat)
    ensures (a * Pow2(k) + p) * Pow2(s) == a * Pow2(k + s) + p * Pow2(s)
  {
    Pow2Add(k, s);
    MulDistributes(a * Pow2(k), p, Pow2(s));
    MulAssociates(a, Pow2(k), Pow2(s));
  }

  method MainLoop<T(!new)>(p: Pair<T>, table: seq<T>, w: nat, e1: nat, e2: nat, expLen: nat, blank: T)
    returns (result: T)
    requires IsCommutativeMonoid(p.g) && w >= 1 && TableReady(p, table, Pow2(w))
    requires expLen == (if BitCount(e1) >= BitCount(e2) then BitCount(e1) else BitCount(e2)) && expLen > 0
    ensures result == Lin(p, e1, e2)
  {
    hide Lin, IsCommutativeMonoid, Pow2, TableReady, Shr, BitCount, Progress;
    var tableSize := Pow2(w);
    Pow2Succ(w - 1);
    result := blank;
    var power1: nat, power2: nat, prevPosition, firstTime := 0, 0, expLen - 1, true;
    var n := expLen;
    ghost var a: nat, b: nat := 0, 0;
    ShiftBeyond(e1, expLen);
    ShiftBeyond(e2, expLen);
    Folded(e1, e2, expLen);
    while n > 0
      invariant 0 <= n <= expLen
      invariant 2 * power1 < tableSize && 2 * power2 < tableSize
      invariant firstTime ==> prevPosition == expLen - 1 && a == b == 0
      invariant !firstTime ==> n <= prevPosition && result == Lin(p, a, b)
      invariant Progress(e1, e2, n, if firstTime then expLen - n else prevPosition - n, power1, power2, a, b)
      invariant n == 0 ==> !firstTime && power1 == power2 == 0 && prevPosition == 0
    {
      ghost var k := if firstTime then expLen - n else prevPosition - n;
      n := n - 1;
      ReadBit(e1, e2, n, k, power1, power2, a, b);
      power1 := 2 * power1 + Bit(e1, n);
      power2 := 2 * power2 + Bit(e2, n);
      if n == 0 || 2 * power1 >= tableSize || 2 * power2 >= tableSize {
        if BitCount(e1) >= BitCount(e2) { ShiftBelow(e1, n); } else { ShiftBelow(e2, n); }
        var squaresBefore := prevPosition - n;
        result := Combine(p, table, w, result, firstTime, power1, power2, squaresBefore, e1, e2, n, a, b);
        prevPosition, firstTime := n, false;
        power1, power2 := 0, 0;
        a, b := Shr(e1, n), Shr(e2, n);
        Folded(e1, e2, n);
      }
    }
    AllFolded(e1, e2, a, b);
  }

  /** e1·x + e2·y, in any commutative monoid and whatever value `blank` the table's unset slots have. */
  method CascadeScalarMultiply<T(!new)>(g: Group<T>, x: T, e1: nat, y: T, e2: nat, blank: T) returns (result: T)
    requires IsCommutativeMonoid(g)
    ensures result == g.add(NTimes(g, e1, x), NTimes(g, e2, y))
  {
    var p := Pair(g, x, y);
    var expLen := if BitCount(e1) >= BitCount(e2) then BitCount(e1) else BitCount(e2);
    if expLen == 0 {
      LinUnits(p);
      return g.identity;
    }
    var w := if expLen <= 46 then 1 else if expLen <= 260 then 2 else 3;
    var powerTable := BuildTable(p, w, blank);
    result := MainLoop(p, powerTable, w, e1, e2, expLen, blank);
  }
}
