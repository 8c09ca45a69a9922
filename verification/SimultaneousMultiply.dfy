/** One base, many exponents (algebra.cpp, `SimultaneousMultiply` and `ScalarMultiply`). */
module SimultaneousMultiplication {
  import opened Arithmetic
  import opened Groups
  import opened WindowSliders

  // Every element the algorithm handles is an integer multiple of the base; the coefficients
  // are tracked as ghost integers and the proof is about them.

  /** Sum of (2k+1) * c[k]: what the buckets of one exponent are worth, as multiples of the base. */
  ghost function Weighted(c: seq<int>): int {
    if c == [] then 0 else Weighted(c[..|c| - 1]) + (2 * |c| - 1) * c[|c| - 1]
  }

  lemma {:induction false} WeightedUpdate(c: seq<int>, k: nat, v: int)
    requires k < |c|
    ensures Weighted(c[k := v]) == Weighted(c) + (2 * k + 1) * (v - c[k])
  {
    var n := |c| - 1;
    var d := c[k := v];
    if k == n {
      assert d[..n] == c[..n];
      assert (2 * n + 1) * v == (2 * n + 1) * (v - c[n]) + (2 * n + 1) * c[n];
    } else {
      WeightedUpdate(c[..n], k, v);
      assert d[..n] == c[..n][k := v];
    }
  }

  lemma {:induction false} WeightedZero(c: seq<int>)
    requires forall k :: 0 <= k < |c| ==> c[k] == 0
    ensures Weighted(c) == 0
  {
    if c != [] { WeightedZero(c[..|c| - 1]); }
  }

  /** Sum of c[j..]. */
  ghost function Suffix(c: seq<int>, j: nat): int
    requires j <= |c|
    decreases |c| - j
  {
    if j == |c| then 0 else c[j] + Suffix(c, j + 1)
  }

  /** Sum of the suffix sums from `j` on. */
  ghost function Suffixes(c: seq<int>, j: nat): int
    requires j <= |c|
    decreases |c| - j
  {
    if j == |c| then 0 else Suffix(c, j) + Suffixes(c, j + 1)
  }

  lemma {:induction false} SuffixDropLast(c: seq<int>, j: nat)
    requires j < |c|
    ensures Suffix(c, j) == Suffix(c[..|c| - 1], j) + c[|c| - 1]
    ensures Suffixes(c, j) == Suffixes(c[..|c| - 1], j) + (|c| - j) * c[|c| - 1]
    decreases |c| - j
  {
    var n := |c| - 1;
    if j < n {
      SuffixDropLast(c, j + 1);
      assert c[..n][j] == c[j];
      MulDistributes(|c| - j - 1, 1, c[n]);
    } else {
      assert Suffix(c, n) == c[n] + Suffix(c, n + 1);
      assert Suffixes(c, n) == Suffix(c, n) + Suffixes(c, n + 1);
    }
  }

  /** The running sums of running sums collapse to the weighted sum. */
  lemma {:induction false} SuffixSumsCollapse(c: seq<int>)
    requires |c| >= 1
    ensures 2 * Suffixes(c, 1) + Suffix(c, 0) == Weighted(c)
  {
    var n := |c| - 1;
    SuffixDropLast(c, 0);
    if n >= 1 {
      SuffixDropLast(c, 1);
      SuffixSumsCollapse(c[..n]);
      assert 2 * (n * c[n]) + c[n] == (2 * n + 1) * c[n];
    } else {
      assert Suffix(c, 0) == c[0] + Suffix(c, 1);
    }
  }

  /** The buckets hold the multiples of the base given by `c`; without fast inversion none is negative. */
  ghost predicate Holds<T(!new)>(g: Group<T>, bucket: seq<T>, c: seq<int>, base: T) {
    && |bucket| == |c|
    && forall k :: 0 <= k < |c| ==> IsMultiple(g, bucket[k], c[k], base)
  }

  ghost predicate IsMultiple<T(!new)>(g: Group<T>, e: T, k: int, base: T) {
    e == Times(g, k, base) && (!g.inversionIsFast ==> k >= 0)
  }

  lemma AddMultiples<T(!new)>(g: Group<T>, a: T, b: T, j: int, k: int, base: T)
    requires Lawful(g) && IsMultiple(g, a, j, base) && IsMultiple(g, b, k, base)
    ensures IsMultiple(g, g.add(a, b), j + k, base)
  {
    TimesAdd(g, j, k, base);
  }

  /** The final loop of `SimultaneousMultiply` for one exponent: turns buckets into the result. */
  method CollapseBuckets<T(!new)>(g: Group<T>, bucketsIn: seq<T>, base: T, ghost c: seq<int>) returns (r: T)
    requires Lawful(g) && |c| >= 1 && Holds(g, bucketsIn, c, base)
    ensures r == Times(g, Weighted(c), base)
  {
    hide Times, Lawful, Weighted;
    var bucket := bucketsIn;
    var n := |bucket|;
    r := bucket[n - 1];
    assert IsMultiple(g, r, c[n - 1], base);
    SuffixSumsCollapse(c);
    assert Suffix(c, n - 1) == c[n - 1] + Suffix(c, n) == c[n - 1];
    assert Suffixes(c, n - 1) == Suffix(c, n - 1) + Suffixes(c, n) == c[n - 1];
    if n > 1 {
      var j := n - 2;
      while j >= 1
        invariant 0 <= j <= n - 2 && |bucket| == n
        invariant forall k :: 0 <= k <= j ==> bucket[k] == bucketsIn[k]
        invariant IsMultiple(g, bucket[j + 1], Suffix(c, j + 1), base)
        invariant IsMultiple(g, r, Suffixes(c, j + 1), base)
      {
        assert IsMultiple(g, bucketsIn[j], c[j], base);
        AddMultiples(g, bucket[j], bucket[j + 1], c[j], Suffix(c, j + 1), base);
        bucket := bucket[j := g.add(bucket[j], bucket[j + 1])];
        AddMultiples(g, r, bucket[j], Suffixes(c, j + 1), Suffix(c, j), base);
        r := g.add(r, bucket[j]);
        j := j - 1;
      }
      assert IsMultiple(g, bucketsIn[0], c[0], base);
      AddMultiples(g, bucket[0], bucket[1], c[0], Suffix(c, 1), base);
      bucket := bucket[0 := g.add(bucket[0], bucket[1])];
      AddMultiples(g, r, r, Suffixes(c, 1), Suffixes(c, 1), base);
      AddMultiples(g, Double(g, r), bucket[0], 2 * Suffixes(c, 1), Suffix(c, 0), base);
      r := g.add(Double(g, r), bucket[0]);
    }
  }

  /** What links one exponent `e` to its slider and buckets: the windows still pending, none of
      which starts before `pos` or after `limit`, account for the rest of the exponent. */
  ghost predicate Tracks(s: WindowSlider, c: seq<int>, e: nat, fast: bool, pos: nat, limit: nat)
    reads s
  {
    && s.Valid() && !s.firstTime && s.fastNegate == fast
    && |c| == Pow2(s.windowSize - 1)
    && Weighted(c) + Value(s.Pending()) == e
    && WellSpaced(s.Pending(), pos, s.windowSize, fast)
    && EndsBy(s.Pending(), limit)
  }

  ghost predicate EndsBy(ws: seq<Window>, limit: nat) {
    forall i :: 0 <= i < |ws| ==> ws[i].begin <= limit
  }

  /** Sets up the slider and empty buckets of one exponent. */
  method Prepare<T(!new)>(g: Group<T>, base: T, e: nat)
    returns (s: WindowSlider, bucket: seq<T>, ghost c: seq<int>, ghost limit: nat)
    requires Lawful(g)
    ensures fresh(s) && Tracks(s, c, e, g.inversionIsFast, 0, limit) && Holds(g, bucket, c, base)
  {
    hide Recode, Pow2, Weighted, Times, Value;
    s := new WindowSlider(e, g.inversionIsFast, 0);
    s.FindNextWindow();
    bucket := seq(Pow2(s.windowSize - 1), _ => g.identity);
    c := seq(Pow2(s.windowSize - 1), _ => 0);
    WeightedZero(c);
    RecodeIsExact(e, 0, s.windowSize, g.inversionIsFast);
    RecodeIsWellSpaced(e, 0, s.windowSize, g.inversionIsFast);
    assert Pow2(0) == 1 by { Pow2Zero(); }
    limit := LastBegin(s.Pending());
    assert Times(g, 0, base) == g.identity by { TimesOne(g, base); }
  }

  lemma LastBegin(ws: seq<Window>) returns (limit: nat)
    requires forall i, j :: 0 <= i < j < |ws| ==> ws[i].begin <= ws[j].begin
    ensures EndsBy(ws, limit)
  {
    limit := if ws == [] then 0 else ws[|ws| - 1].begin;
  }

  /** Adds `power` = 2^pos * base, or its inverse, to the bucket of an odd window `d`. */
  method Deposit<T(!new)>(g: Group<T>, bucketIn: seq<T>, d: nat, negate: bool, power: T, pos: nat, base: T,
                          ghost cIn: seq<int>)
    returns (bucket: seq<T>, ghost c: seq<int>)
    requires Lawful(g) && power == Times(g, Pow2(pos), base) && (negate ==> g.inversionIsFast)
    requires Holds(g, bucketIn, cIn, base) && d % 2 == 1 && d < 2 * |cIn|
    ensures Holds(g, bucket, c, base) && |c| == |cIn|
    ensures Weighted(c) == Weighted(cIn) + (if negate then 0 - d else d) * Pow2(pos)
  {
    hide Times, Weighted, Pow2;
    var k := d / 2;
    var term := if negate then g.inverse(power) else power;
    ghost var t: int := if negate then 0 - Pow2(pos) else Pow2(pos);
    assert IsMultiple(g, term, t, base) by {
      if negate { TimesNegate(g, Pow2(pos), base); }
    }
    AddMultiples(g, bucketIn[k], term, cIn[k], t, base);
    bucket := bucketIn[k := g.add(bucketIn[k], term)];
    c := cIn[k := cIn[k] + t];
    WeightedUpdate(cIn, k, cIn[k] + t);
    assert d == 2 * k + 1;
    assert d * t == (if negate then 0 - d else d) * Pow2(pos);
  }

  lemma DropWindow(ws: seq<Window>, pos: nat, w: nat, fast: bool, limit: nat)
    requires w >= 1 && ws != [] && WellSpaced(ws, pos, w, fast) && EndsBy(ws, limit)
    ensures WellSpaced(ws[1..], pos + 1, w, fast) && EndsBy(ws[1..], limit)
    ensures Value(ws) == ws[0].digit * Pow2(ws[0].begin) + Value(ws[1..])
  {
    forall i | 0 <= i < |ws[1..]|
      ensures GoodWindow(ws[1..][i], pos + 1, w, fast)
    {
      assert GoodWindow(ws[i + 1], pos, w, fast) && GoodWindow(ws[0], pos, w, fast);
    }
  }

  lemma LaterStart(ws: seq<Window>, pos: nat, w: nat, fast: bool)
    requires w >= 1 && WellSpaced(ws, pos, w, fast) && (ws != [] ==> ws[0].begin != pos)
    ensures WellSpaced(ws, pos + 1, w, fast)
  {
  }

  /** One exponent's turn at bit position `pos`: if its window starts here, `power` = 2^pos * base
      or its inverse goes into the bucket of that window's digit. */
  method Visit<T(!new)>(g: Group<T>, s: WindowSlider, bucketIn: seq<T>, power: T, pos: nat, base: T,
                        ghost cIn: seq<int>, ghost e: nat, ghost limit: nat)
    returns (bucket: seq<T>, ghost c: seq<int>)
    requires Lawful(g) && power == Times(g, Pow2(pos), base)
    requires Tracks(s, cIn, e, g.inversionIsFast, pos, limit) && Holds(g, bucketIn, cIn, base)
    modifies s
    ensures Tracks(s, c, e, g.inversionIsFast, pos + 1, limit) && Holds(g, bucket, c, base)
  {
    hide Times, Weighted, Pow2, WindowSlider.Remaining;
    bucket, c := bucketIn, cIn;
    ghost var before := s.Pending();
    if !s.finished && pos == s.windowBegin {
      assert before == [s.Current()] + s.Remaining() && before[1..] == s.Remaining();
      assert GoodWindow(before[0], pos, s.windowSize, g.inversionIsFast);
      Pow2Succ(s.windowSize - 1);
      bucket, c := Deposit(g, bucket, s.expWindow, s.negateNext, power, pos, base, c);
      DropWindow(before, pos, s.windowSize, g.inversionIsFast, limit);
      s.FindNextWindow();
    } else {
      LaterStart(before, pos, s.windowSize, g.inversionIsFast);
    }
  }

  /** All exponents at once: sliders `from..` are ready for bit `pos`, those before it for `pos + 1`. */
  ghost predicate AllTrack(sliders: seq<WindowSlider>, cs: seq<seq<int>>, exps: seq<nat>, fast: bool,
                           from: nat, pos: nat, limit: nat)
    reads sliders
  {
    && |sliders| == |cs| == |exps|
    && (forall i, j :: 0 <= i < j < |sliders| ==> sliders[i] != sliders[j])
    && forall i :: 0 <= i < |sliders| ==>
         Tracks(sliders[i], cs[i], exps[i], fast, if i < from then pos + 1 else pos, limit)
  }

  ghost predicate AllHold<T(!new)>(g: Group<T>, buckets: seq<seq<T>>, cs: seq<seq<int>>, base: T) {
    |buckets| == |cs| && forall i :: 0 <= i < |cs| ==> Holds(g, buckets[i], cs[i], base)
  }

  lemma TracksLonger(s: WindowSlider, c: seq<int>, e: nat, fast: bool, pos: nat, limit: nat, limit': nat)
    requires Tracks(s, c, e, fast, pos, limit) && limit <= limit'
    ensures Tracks(s, c, e, fast, pos, limit')
  {}

  /** A slider with nothing pending leaves its whole exponent in the buckets; another one still
      has a window at or after `pos`. */
  lemma TracksEnd(s: WindowSlider, c: seq<int>, e: nat, fast: bool, pos: nat, limit: nat)
    requires Tracks(s, c, e, fast, pos, limit)
    ensures s.finished ==> |c| >= 1 && Weighted(c) == e
    ensures !s.finished ==> pos <= limit
  {
  }

  /** The set-up loop: a slider and empty buckets for every exponent. */
  method PrepareAll<T(!new)>(g: Group<T>, base: T, exps: seq<nat>)
    returns (sliders: seq<WindowSlider>, buckets: seq<seq<T>>, ghost cs: seq<seq<int>>, ghost limit: nat)
    requires Lawful(g)
    ensures fresh(sliders) && AllTrack(sliders, cs, exps, g.inversionIsFast, 0, 0, limit)
    ensures AllHold(g, buckets, cs, base)
  {
    hide Times, Lawful, Weighted, Pow2, Tracks, Holds;
    sliders, buckets, cs, limit := [], [], [], 0;
    for i := 0 to |exps|
      invariant fresh(sliders) && AllTrack(sliders, cs, exps[..i], g.inversionIsFast, 0, 0, limit)
      invariant AllHold(g, buckets, cs, base)
    {
      var s, bucket;
      ghost var c, last;
      s, bucket, c, last := Prepare(g, base, exps[i]);
      forall k | 0 <= k < i
        ensures Tracks(sliders[k], cs[k], exps[k], g.inversionIsFast, 0, limit + last)
      {
        TracksLonger(sliders[k], cs[k], exps[k], g.inversionIsFast, 0, limit, limit + last);
      }
      TracksLonger(s, c, exps[i], g.inversionIsFast, 0, last, limit + last);
      sliders, buckets := sliders + [s], buckets + [bucket];
      limit, cs := limit + last, cs + [c];
    }
    assert exps[..|exps|] == exps;
  }

  /** The inner loop: every exponent's turn at bit position `pos`. */
  method VisitAll<T(!new)>(g: Group<T>, sliders: seq<WindowSlider>, bucketsIn: seq<seq<T>>, power: T,
                           pos: nat, base: T, ghost csIn: seq<seq<int>>, ghost exps: seq<nat>, ghost limit: nat)
    returns (buckets: seq<seq<T>>, notDone: bool, ghost cs: seq<seq<int>>)
    requires Lawful(g) && power == Times(g, Pow2(pos), base)
    requires AllTrack(sliders, csIn, exps, g.inversionIsFast, 0, pos, limit)
    requires AllHold(g, bucketsIn, csIn, base)
    modifies sliders
    ensures AllTrack(sliders, cs, exps, g.inversionIsFast, 0, pos + 1, limit)
    ensures AllHold(g, buckets, cs, base)
    ensures !notDone ==> forall i :: 0 <= i < |sliders| ==> sliders[i].finished
    ensures notDone ==> pos + 1 <= limit
  {
    hide Times, Lawful, Weighted, Pow2, Tracks, Holds;
    buckets, cs, notDone := bucketsIn, csIn, false;
    for i := 0 to |sliders|
      invariant AllTrack(sliders, cs, exps, g.inversionIsFast, i, pos, limit)
      invariant AllHold(g, buckets, cs, base)
      invariant !notDone ==> forall k :: 0 <= k < i ==> sliders[k].finished
      invariant notDone ==> pos + 1 <= limit
    {
      var bucket;
      ghost var c;
      bucket, c := Visit(g, sliders[i], buckets[i], power, pos, base, cs[i], exps[i], limit);
      buckets, cs := buckets[i := bucket], cs[i := c];
      TracksEnd(sliders[i], c, exps[i], g.inversionIsFast, pos + 1, limit);
      notDone := notDone || !sliders[i].finished;
    }
  }

  /** Stores exponent_i times the base in result i, for every i, in any group. */
  method SimultaneousMultiply<T(!new)>(g: Group<T>, base: T, exps: seq<nat>) returns (results: seq<T>)
    requires Lawful(g)
    ensures |results| == |exps|
    ensures forall i :: 0 <= i < |exps| ==> results[i] == NTimes(g, exps[i], base)
  {
    hide NTimes, Lawful, Weighted, Pow2, Tracks, Holds;
    var sliders, buckets;
    ghost var cs, limit;
    sliders, buckets, cs, limit := PrepareAll(g, base, exps);

    var expBitPosition, power, notDone := 0, base, true;
    assert power == Times(g, Pow2(0), base) by { FirstPower(g, base); }
    while notDone
      invariant power == Times(g, Pow2(expBitPosition), base)
      invariant fresh(sliders)
      invariant notDone ==> AllTrack(sliders, cs, exps, g.inversionIsFast, 0, expBitPosition, limit)
      invariant AllHold(g, buckets, cs, base) && |cs| == |exps|
      invariant expBitPosition <= limit
      invariant !notDone ==> forall i :: 0 <= i < |exps| ==> |cs[i]| >= 1 && Weighted(cs[i]) == exps[i]
      decreases notDone, limit - expBitPosition
    {
      buckets, notDone, cs :=
        VisitAll(g, sliders, buckets, power, expBitPosition, base, cs, exps, limit);
      if notDone {
        NextPower(g, expBitPosition, base);
        power := Double(g, power);
        expBitPosition := expBitPosition + 1;
      } else {
        forall i | 0 <= i < |exps|
          ensures |cs[i]| >= 1 && Weighted(cs[i]) == exps[i]
        {
          TracksEnd(sliders[i], cs[i], exps[i], g.inversionIsFast, expBitPosition + 1, limit);
        }
      }
    }

    results := [];
    for i := 0 to |exps|
      invariant |results| == i
      invariant forall k :: 0 <= k < i ==> results[k] == NTimes(g, exps[k], base)
    {
      var r := CollapseBuckets(g, buckets[i], base, cs[i]);
      results := results + [r];
    }
  }

  lemma FirstPower<T(!new)>(g: Group<T>, base: T)
    requires Lawful(g)
    ensures Times(g, Pow2(0), base) == base
  {
    TimesOne(g, base);
  }

  lemma NextPower<T(!new)>(g: Group<T>, pos: nat, base: T)
    requires Lawful(g)
    ensures Double(g, Times(g, Pow2(pos), base)) == Times(g, Pow2(pos + 1), base)
  {
    TimesAdd(g, Pow2(pos), Pow2(pos), base);
  }

  /** e times x, by the one-exponent case of `SimultaneousMultiply`. */
  method ScalarMultiply<T(!new)>(g: Group<T>, base: T, exponent: nat) returns (result: T)
    requires Lawful(g)
    ensures result == NTimes(g, exponent, base)
  {
    var results := SimultaneousMultiply(g, base, [exponent]);
    result := results[0];
  }
}
