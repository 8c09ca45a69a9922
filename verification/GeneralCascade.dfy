/** Any number of bases and exponents, driven by a heap (algebra.cpp, `GeneralCascadeMultiplication`). */
module GeneralCascade {
  import opened Arithmetic
  import opened Groups
  import opened Cascade
  import opened SimultaneousMultiplication

  datatype BaseAndExponent<T> = BaseAndExponent(base: T, exponent: nat)

  // ----- sums over a range, in any commutative monoid -----

  /** Sum of f(s[i]) over the whole sequence. */
  ghost function Total<S, U>(g: Group<U>, f: S -> U, s: seq<S>): U {
    if s == [] then g.identity else g.add(Total(g, f, s[..|s| - 1]), f(s[|s| - 1]))
  }

  /** Any element can be summed last. */
  lemma {:induction false} TotalExtract<S, U(!new)>(g: Group<U>, f: S -> U, s: seq<S>, i: nat)
    requires IsCommutativeMonoid(g) && i < |s|
    ensures Total(g, f, s) == g.add(Total(g, f, s[..i] + s[i + 1..]), f(s[i]))
  {
    var n := |s| - 1;
    if i == n {
      assert s[..i] + s[i + 1..] == s[..n];
    } else {
      TotalExtract(g, f, s[..n], i);
      var rest := s[..n][..i] + s[..n][i + 1..];
      var without := s[..i] + s[i + 1..];
      assert without[..|without| - 1] == rest && without[|without| - 1] == s[n];
      var t, a, b := Total(g, f, rest), f(s[i]), f(s[n]);
      assert Associates(g, t, a, b) && Commutes(g, a, b) && Associates(g, t, b, a);
    }
  }

  /** The sum does not depend on the order. */
  lemma {:induction false} TotalPermutes<S, U(!new)>(g: Group<U>, f: S -> U, s: seq<S>, t: seq<S>)
    requires IsCommutativeMonoid(g) && multiset(s) == multiset(t)
    ensures Total(g, f, s) == Total(g, f, t)
    decreases |s|
  {
    assert |s| == |multiset(s)| == |multiset(t)| == |t|;
    if s != [] {
      var n := |s| - 1;
      assert s == s[..n] + [s[n]];
      assert s[n] in multiset(t);
      var i :| 0 <= i < |t| && t[i] == s[n];
      var rest := t[..i] + t[i + 1..];
      assert t == t[..i] + [t[i]] + t[i + 1..];
      assert multiset(rest) == multiset(t) - multiset{t[i]} == multiset(s[..n]);
      TotalExtract(g, f, t, i);
      TotalPermutes(g, f, s[..n], rest);
    }
  }

  /** Sum of exponent_i · base_i: the meaning of a general cascade. */
  ghost function WeightedSum<T(!new)>(g: Group<T>, s: seq<BaseAndExponent<T>>): T {
    Total(g, (p: BaseAndExponent<T>) => NTimes(g, p.exponent, p.base), s)
  }

  // ----- the heap of std::make_heap, std::push_heap and std::pop_heap -----

  function Parent(j: nat): (p: nat)
    requires j >= 1
    ensures p < j
  {
    (j - 1) / 2
  }

  ghost predicate NotAbove<T>(s: seq<BaseAndExponent<T>>, j: nat, k: nat)
    requires j < |s| && k < |s|
  {
    s[j].exponent <= s[k].exponent
  }

  ghost predicate Ordered<T>(s: seq<BaseAndExponent<T>>, j: nat)
    requires 1 <= j < |s|
  {
    NotAbove(s, j, Parent(j))
  }

  /** The first `n` elements form a heap by exponent, largest first. */
  ghost predicate IsHeap<T>(s: seq<BaseAndExponent<T>>, n: nat)
    requires n <= |s|
  {
    forall j :: 1 <= j < n ==> Ordered(s, j)
  }

  /** A heap but for element `i`, which may exceed its parent. */
  ghost predicate HeapBelow<T>(s: seq<BaseAndExponent<T>>, n: nat, i: nat)
    requires i < n <= |s|
  {
    && (forall j :: 1 <= j < n && j != i ==> Ordered(s, j))
    && (forall j :: i >= 1 && 1 <= j < n && Parent(j) == i ==> NotAbove(s, j, Parent(i)))
  }

  /** A heap but for element `i`, which its children may exceed. */
  ghost predicate HeapAbove<T>(s: seq<BaseAndExponent<T>>, n: nat, i: nat)
    requires n <= |s|
  {
    && (forall j :: 1 <= j < n && Parent(j) != i ==> Ordered(s, j))
    && (forall j :: 1 <= i < n && 1 <= j < n && Parent(j) == i ==> NotAbove(s, j, Parent(i)))
  }

  ghost function Swapped<T>(s: seq<BaseAndExponent<T>>, i: nat, j: nat): seq<BaseAndExponent<T>>
    requires i < |s| && j < |s|
  {
    s[i := s[j]][j := s[i]]
  }

  lemma SiftUpStep<T>(s: seq<BaseAndExponent<T>>, n: nat, i: nat)
    requires 1 <= i < n <= |s| && HeapBelow(s, n, i) && !Ordered(s, i)
    ensures HeapBelow(Swapped(s, i, Parent(i)), n, Parent(i))
  {
    var p := Parent(i);
    var t := Swapped(s, i, p);
    assert p >= 1 ==> Ordered(s, p);
    forall j | 1 <= j < n && j != p
      ensures Ordered(t, j)
    {
      if j != i { assert Ordered(s, j); }
      if Parent(j) == i { assert NotAbove(s, j, p); }
    }
    forall j | p >= 1 && 1 <= j < n && Parent(j) == p
      ensures NotAbove(t, j, Parent(p))
    {
      if j != i { assert Ordered(s, j); }
    }
  }

  lemma SiftDownStep<T>(s: seq<BaseAndExponent<T>>, n: nat, i: nat, c: nat)
    requires 1 <= c < n <= |s| && Parent(c) == i && HeapAbove(s, n, i) && !Ordered(s, c)
    requires forall j :: 1 <= j < n && Parent(j) == i ==> NotAbove(s, j, c)
    ensures HeapAbove(Swapped(s, i, c), n, c)
  {
  }

  lemma {:induction false} HeapTop<T>(s: seq<BaseAndExponent<T>>, n: nat, j: nat)
    requires j < n <= |s| && IsHeap(s, n)
    ensures NotAbove(s, j, 0)
  {
    if j > 0 {
      assert Ordered(s, j);
      HeapTop(s, n, Parent(j));
    }
  }

  method Swap<T>(a: array<BaseAndExponent<T>>, i: nat, j: nat)
    requires i < a.Length && j < a.Length
    modifies a
    ensures a[..] == Swapped(old(a[..]), i, j)
    ensures multiset(a[..]) == multiset(old(a[..]))
  {
    a[i], a[j] := a[j], a[i];
  }

  /** `push_heap` on the first `n` elements: the last of them joins the heap of the others. */
  method PushHeap<T>(a: array<BaseAndExponent<T>>, n: nat)
    requires 1 <= n <= a.Length && IsHeap(a[..], n - 1)
    modifies a
    ensures IsHeap(a[..], n) && multiset(a[..]) == multiset(old(a[..]))
  {
    hide HeapBelow;
    var i := n - 1;
    assert HeapBelow(a[..], n, i) by { LastMayExceed(a[..], n); }
    while i > 0 && a[Parent(i)].exponent < a[i].exponent
      invariant 0 <= i < n && HeapBelow(a[..], n, i)
      invariant multiset(a[..]) == multiset(old(a[..]))
    {
      SiftUpStep(a[..], n, i);
      Swap(a, i, Parent(i));
      i := Parent(i);
    }
    SiftedUp(a[..], n, i);
  }

  lemma LastMayExceed<T>(s: seq<BaseAndExponent<T>>, n: nat)
    requires 1 <= n <= |s| && IsHeap(s, n - 1)
    ensures HeapBelow(s, n, n - 1)
  {}

  lemma SiftedUp<T>(s: seq<BaseAndExponent<T>>, n: nat, i: nat)
    requires i < n <= |s| && HeapBelow(s, n, i) && (i == 0 || Ordered(s, i))
    ensures IsHeap(s, n)
  {}

  /** `pop_heap` on the first `n` elements: the largest moves to the end, the others stay a heap. */
  method PopHeap<T>(a: array<BaseAndExponent<T>>, n: nat)
    requires 1 <= n <= a.Length && IsHeap(a[..], n)
    modifies a
    ensures IsHeap(a[..], n - 1) && multiset(a[..]) == multiset(old(a[..]))
    ensures a[n - 1] == old(a[0])
  {
    hide HeapAbove, Parent, IsHeap;
    RootMayYield(a[..], n);
    Swap(a, 0, n - 1);
    var i := 0;
    while 2 * i + 1 < n - 1
      invariant 0 <= i && HeapAbove(a[..], n - 1, i)
      invariant multiset(a[..]) == multiset(old(a[..])) && a[n - 1] == old(a[0])
      decreases n - i
    {
      var child := 2 * i + 1;
      if child + 1 < n - 1 && a[child].exponent < a[child + 1].exponent {
        child := child + 1;
      }
      LargerChild(a[..], n - 1, i, child);
      if a[child].exponent <= a[i].exponent {
        SiftedDown(a[..], n - 1, i, child);
        return;
      }
      SiftDownStep(a[..], n - 1, i, child);
      Swap(a, i, child);
      i := child;
    }
    SiftedToLeaf(a[..], n - 1, i);
  }

  lemma RootMayYield<T>(s: seq<BaseAndExponent<T>>, n: nat)
    requires 1 <= n <= |s| && IsHeap(s, n)
    ensures HeapAbove(Swapped(s, 0, n - 1), n - 1, 0)
  {
    forall j | 1 <= j < n - 1 && Parent(j) != 0
      ensures Ordered(Swapped(s, 0, n - 1), j)
    {
      assert Ordered(s, j);
    }
  }

  lemma LargerChild<T>(s: seq<BaseAndExponent<T>>, n: nat, i: nat, c: nat)
    requires 2 * i + 1 < n <= |s| && (c == 2 * i + 1 || c == 2 * i + 2 < n)
    requires c == 2 * i + 1 && 2 * i + 2 < n ==> NotAbove(s, 2 * i + 2, c)
    requires c == 2 * i + 2 ==> NotAbove(s, 2 * i + 1, c)
    ensures Parent(c) == i && forall j :: 1 <= j < n && Parent(j) == i ==> NotAbove(s, j, c)
  {}

  lemma SiftedDown<T>(s: seq<BaseAndExponent<T>>, n: nat, i: nat, c: nat)
    requires 1 <= c < n <= |s| && Parent(c) == i && HeapAbove(s, n, i) && Ordered(s, c)
    requires forall j :: 1 <= j < n && Parent(j) == i ==> NotAbove(s, j, c)
    ensures IsHeap(s, n)
  {
  }

  lemma SiftedToLeaf<T>(s: seq<BaseAndExponent<T>>, n: nat, i: nat)
    requires n <= |s| && n <= 2 * i + 1 && HeapAbove(s, n, i)
    ensures IsHeap(s, n)
  {}

  method MakeHeap<T>(a: array<BaseAndExponent<T>>)
    modifies a
    ensures IsHeap(a[..], a.Length) && multiset(a[..]) == multiset(old(a[..]))
  {
    var n := 0;
    while n < a.Length
      invariant 0 <= n <= a.Length && IsHeap(a[..], n) && multiset(a[..]) == multiset(old(a[..]))
    {
      n := n + 1;
      PushHeap(a, n);
    }
  }

  /** Whatever a heap's elements are rearranged to, none exceeds the old top. */
  lemma TopDominates<T>(s: seq<BaseAndExponent<T>>, t: seq<BaseAndExponent<T>>)
    requires IsHeap(s, |s|) && multiset(s) == multiset(t)
    ensures forall j :: 0 <= j < |t| ==> t[j].exponent <= s[0].exponent
  {
    forall j | 0 <= j < |t|
      ensures t[j].exponent <= s[0].exponent
    {
      assert t[j] in multiset(s);
      var k :| 0 <= k < |s| && s[k] == t[j];
      HeapTop(s, |s|, k);
    }
  }

  // ----- one divide-and-accumulate step -----

  lemma {:induction false} NTimesDistributes<T(!new)>(g: Group<T>, n: nat, u: T, v: T)
    requires IsCommutativeMonoid(g)
    ensures NTimes(g, n, g.add(u, v)) == g.add(NTimes(g, n, u), NTimes(g, n, v))
  {
    if n == 0 {
      assert Neutral(g, g.identity);
    } else {
      NTimesDistributes(g, n - 1, u, v);
      var p := Pair(g, u, v);
      LinAdd(p, n - 1, n - 1, 1, 1);
      TimesOne(g, u);
      TimesOne(g, v);
    }
  }

  lemma {:induction false} NTimesMul<T(!new)>(g: Group<T>, m: nat, n: nat, x: T)
    requires IsMonoid(g)
    ensures NTimes(g, m, NTimes(g, n, x)) == NTimes(g, m * n, x)
  {
    if m > 0 {
      NTimesMul(g, m - 1, n, x);
      NTimesAdd(g, (m - 1) * n, n, x);
      MulDistributes(m, 1, n);
    }
  }

  /** With e' = q·e + r: e·(b + q·b') + r·b' = e·b + e'·b'. */
  lemma DivideKeepsSum<T(!new)>(g: Group<T>, b: T, e: nat, b': T, e': nat)
    requires IsCommutativeMonoid(g) && e > 0
    ensures g.add(NTimes(g, e, g.add(b, NTimes(g, e' / e, b'))), NTimes(g, e' % e, b'))
         == g.add(NTimes(g, e, b), NTimes(g, e', b'))
  {
    hide NTimes;
    var q, r := e' / e, e' % e;
    var eb, qb, rb := NTimes(g, e, b), NTimes(g, e * q, b'), NTimes(g, r, b');
    calc {
      g.add(NTimes(g, e, g.add(b, NTimes(g, q, b'))), rb);
      { NTimesDistributes(g, e, b, NTimes(g, q, b')); NTimesMul(g, e, q, b'); }
      g.add(g.add(eb, qb), rb);
      { assert Associates(g, eb, qb, rb); }
      g.add(eb, g.add(qb, rb));
      { NTimesAdd(g, e * q, r, b'); assert e * q + r == e'; }
      g.add(eb, NTimes(g, e', b'));
    }
  }

  ghost function WithoutTwo<S>(s: seq<S>, i: nat, j: nat): seq<S>
    requires i < j < |s|
  {
    s[..i] + s[i + 1..j] + s[j + 1..]
  }

  /** Any two elements can be summed last. */
  lemma TotalExtractTwo<S, U(!new)>(g: Group<U>, f: S -> U, s: seq<S>, i: nat, j: nat)
    requires IsCommutativeMonoid(g) && i < j < |s|
    ensures Total(g, f, s) == g.add(Total(g, f, WithoutTwo(s, i, j)), g.add(f(s[i]), f(s[j])))
  {
    hide Total, IsCommutativeMonoid;
    var others := s[..i] + s[i + 1..];
    TotalExtract(g, f, s, i);
    TotalExtract(g, f, others, j - 1);
    assert others[j - 1] == s[j];
    assert others[..j - 1] + others[j - 1 + 1..] == WithoutTwo(s, i, j);
    Regroup(g, Total(g, f, WithoutTwo(s, i, j)), f(s[j]), f(s[i]));
  }

  lemma Regroup<U(!new)>(g: Group<U>, r: U, x: U, y: U)
    requires IsCommutativeMonoid(g)
    ensures g.add(g.add(r, x), y) == g.add(r, g.add(y, x))
  {
    assert Associates(g, r, x, y) && Commutes(g, x, y);
  }

  const INTEGERS: Group<int> := Group(0, (a, b) => a + b, a => -a, true)

  lemma IntegersAreAMonoid()
    ensures IsCommutativeMonoid(INTEGERS)
  {}

  /** Sum of the exponents: what every step makes smaller. */
  ghost function ExponentSum<T>(s: seq<BaseAndExponent<T>>): int {
    Total(INTEGERS, (p: BaseAndExponent<T>) => p.exponent as int, s)
  }

  lemma {:induction false} ExponentSumNonNegative<T>(s: seq<BaseAndExponent<T>>)
    ensures ExponentSum(s) >= 0
  {
    if s != [] { ExponentSumNonNegative(s[..|s| - 1]); }
  }

  /** The sequence after one step: the largest exponent, last, is divided by the next, first. */
  ghost function Divided<T>(g: Group<T>, s: seq<BaseAndExponent<T>>): seq<BaseAndExponent<T>>
    requires |s| >= 2 && s[0].exponent > 0
  {
    var n := |s| - 1;
    var q := s[n].exponent / s[0].exponent;
    s[0 := BaseAndExponent(g.add(s[0].base, NTimes(g, q, s[n].base)), s[0].exponent)]
     [n := BaseAndExponent(s[n].base, s[n].exponent % s[0].exponent)]
  }

  lemma DividedKeepsSum<T(!new)>(g: Group<T>, s: seq<BaseAndExponent<T>>)
    requires IsCommutativeMonoid(g) && |s| >= 2 && s[0].exponent > 0
    ensures WeightedSum(g, Divided(g, s)) == WeightedSum(g, s)
  {
    hide Total, NTimes, IsCommutativeMonoid;
    var n, t := |s| - 1, Divided(g, s);
    var f := (p: BaseAndExponent<T>) => NTimes(g, p.exponent, p.base);
    TotalExtractTwo(g, f, s, 0, n);
    TotalExtractTwo(g, f, t, 0, n);
    assert WithoutTwo(t, 0, n) == WithoutTwo(s, 0, n);
    DivideKeepsSum(g, s[0].base, s[0].exponent, s[n].base, s[n].exponent);
  }

  lemma DividedIsSmaller<T(!new)>(g: Group<T>, s: seq<BaseAndExponent<T>>)
    requires |s| >= 2 && 0 < s[0].exponent <= s[|s| - 1].exponent
    ensures ExponentSum(Divided(g, s)) < ExponentSum(s)
  {
    hide Total, NTimes;
    var n, t := |s| - 1, Divided(g, s);
    var f := (p: BaseAndExponent<T>) => p.exponent as int;
    IntegersAreAMonoid();
    TotalExtractTwo(INTEGERS, f, s, 0, n);
    TotalExtractTwo(INTEGERS, f, t, 0, n);
    assert WithoutTwo(t, 0, n) == WithoutTwo(s, 0, n);
  }

  lemma SumsPermute<T(!new)>(g: Group<T>, s: seq<BaseAndExponent<T>>, t: seq<BaseAndExponent<T>>)
    requires IsCommutativeMonoid(g) && multiset(s) == multiset(t)
    ensures WeightedSum(g, s) == WeightedSum(g, t) && ExponentSum(s) == ExponentSum(t)
  {
    IntegersAreAMonoid();
    TotalPermutes(g, (p: BaseAndExponent<T>) => NTimes(g, p.exponent, p.base), s, t);
    TotalPermutes(INTEGERS, (p: BaseAndExponent<T>) => p.exponent as int, s, t);
  }

  /** Once every exponent but the last is zero, only the last pair counts. */
  lemma {:induction false} OnlyLastCounts<T(!new)>(g: Group<T>, s: seq<BaseAndExponent<T>>)
    requires IsMonoid(g) && s != [] && forall j :: 0 <= j < |s| - 1 ==> s[j].exponent == 0
    ensures WeightedSum(g, s) == NTimes(g, s[|s| - 1].exponent, s[|s| - 1].base)
  {
    var n := |s| - 1;
    var f := (p: BaseAndExponent<T>) => NTimes(g, p.exponent, p.base);
    assert Neutral(g, f(s[n]));
    AllZero(g, s[..n]);
  }

  lemma {:induction false} AllZero<T(!new)>(g: Group<T>, s: seq<BaseAndExponent<T>>)
    requires IsMonoid(g) && forall j :: 0 <= j < |s| ==> s[j].exponent == 0
    ensures WeightedSum(g, s) == g.identity
  {
    if s != [] {
      AllZero(g, s[..|s| - 1]);
      assert Neutral(g, g.identity);
    }
  }

  /** Divides the last exponent by the first and accumulates: the body of the heap loop. */
  method DivideStep<T(!new)>(g: Group<T>, a: array<BaseAndExponent<T>>)
    requires Lawful(g) && IsCommutativeMonoid(g) && a.Length >= 2 && a[0].exponent > 0
    modifies a
    ensures a[..] == Divided(g, old(a[..]))
  {
    hide IsCommutativeMonoid, Lawful, NTimes;
    var last := a.Length - 1;
    var t := a[last].exponent;
    var q := t / a[0].exponent;
    a[last] := BaseAndExponent(a[last].base, t % a[0].exponent);
    if q == 1 {
      Once(g, a[last].base);
      a[0] := BaseAndExponent(g.add(a[0].base, a[last].base), a[0].exponent);
    } else {
      var multiple := ScalarMultiply(g, a[last].base, q);
      a[0] := BaseAndExponent(g.add(a[0].base, multiple), a[0].exponent);
    }
  }

  lemma DividedShape<T>(g: Group<T>, s: seq<BaseAndExponent<T>>)
    requires |s| >= 2 && s[0].exponent > 0
    ensures |Divided(g, s)| == |s|
    ensures forall j :: 0 <= j < |s| - 1 ==> Divided(g, s)[j].exponent == s[j].exponent
  {}

  /** Sum of exponent_i · base_i over the range, which is used as working storage. */
  method GeneralCascadeMultiplication<T(!new)>(g: Group<T>, a: array<BaseAndExponent<T>>, blank: T) returns (r: T)
    requires Lawful(g) && IsCommutativeMonoid(g) && a.Length >= 1
    modifies a
    ensures r == WeightedSum(g, old(a[..]))
  {
    hide IsCommutativeMonoid, Lawful, NTimes, WeightedSum, ExponentSum, IsHeap, Divided;
    if a.Length == 1 {
      OnlyLast(g, a[..]);
      r := ScalarMultiply(g, a[0].base, a[0].exponent);
    } else if a.Length == 2 {
      BothCount(g, a[..]);
      r := CascadeScalarMultiply(g, a[0].base, a[0].exponent, a[1].base, a[1].exponent, blank);
    } else {
      var last := a.Length - 1;
      MakeHeap(a);
      PopLargest(a);
      SumsPermute(g, old(a[..]), a[..]);
      while a[0].exponent != 0
        invariant IsHeap(a[..], last) && forall j :: 0 <= j <= last ==> a[j].exponent <= a[last].exponent
        invariant WeightedSum(g, a[..]) == WeightedSum(g, old(a[..]))
        decreases ExponentSum(a[..])
      {
        ghost var before := a[..];
        ExponentSumNonNegative(before);
        DivideStep(g, a);
        ghost var divided := a[..];
        DividedShape(g, before);
        DividedKeepsSum(g, before);
        DividedIsSmaller(g, before);
        StillHeap(before, divided, last);
        PushHeap(a, a.Length);
        PopLargest(a);
        SumsPermute(g, divided, a[..]);
      }
      RestIsZero(a[..], last);
      OnlyLast(g, a[..]);
      r := ScalarMultiply(g, a[last].base, a[last].exponent);
    }
  }

  /** `pop_heap` on the whole range leaves the largest exponent last. */
  method PopLargest<T>(a: array<BaseAndExponent<T>>)
    requires a.Length >= 1 && IsHeap(a[..], a.Length)
    modifies a
    ensures IsHeap(a[..], a.Length - 1) && multiset(a[..]) == multiset(old(a[..]))
    ensures forall j :: 0 <= j < a.Length ==> a[j].exponent <= a[a.Length - 1].exponent
  {
    hide IsHeap;
    PopHeap(a, a.Length);
    TopDominates(old(a[..]), a[..]);
  }

  lemma OnlyLast<T(!new)>(g: Group<T>, s: seq<BaseAndExponent<T>>)
    requires IsCommutativeMonoid(g) && s != [] && forall j :: 0 <= j < |s| - 1 ==> s[j].exponent == 0
    ensures WeightedSum(g, s) == NTimes(g, s[|s| - 1].exponent, s[|s| - 1].base)
  {
    OnlyLastCounts(g, s);
  }

  lemma BothCount<T(!new)>(g: Group<T>, s: seq<BaseAndExponent<T>>)
    requires IsCommutativeMonoid(g) && |s| == 2
    ensures WeightedSum(g, s)
         == g.add(NTimes(g, s[0].exponent, s[0].base), NTimes(g, s[1].exponent, s[1].base))
  {
    OnlyLastCounts(g, s[..1]);
  }

  lemma Once<T(!new)>(g: Group<T>, x: T)
    requires IsCommutativeMonoid(g)
    ensures NTimes(g, 1, x) == x
  {
    TimesOne(g, x);
  }

  /** A step changes no exponent but the last. */
  lemma StillHeap<T>(s: seq<BaseAndExponent<T>>, t: seq<BaseAndExponent<T>>, n: nat)
    requires n <= |s| == |t| && IsHeap(s, n) && forall j :: 0 <= j < n ==> t[j].exponent == s[j].exponent
    ensures IsHeap(t, n)
  {
    forall j | 1 <= j < n
      ensures Ordered(t, j)
    {
      assert Ordered(s, j);
    }
  }

  lemma RestIsZero<T>(s: seq<BaseAndExponent<T>>, n: nat)
    requires 1 <= n <= |s| && IsHeap(s, n) && s[0].exponent == 0
    ensures forall j :: 0 <= j < n ==> s[j].exponent == 0
  {
    forall j | 0 <= j < n
      ensures s[j].exponent == 0
    {
      HeapTop(s, n, j);
    }
  }
}
