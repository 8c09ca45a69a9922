/** The abstract group that the fast multiplication algorithms of algebra.cpp work in. */
module Groups {

  /** The virtual operations of `AbstractGroup` that the algorithms call. */
  datatype Group<!T> = Group(identity: T, add: (T, T) -> T, inverse: T -> T, inversionIsFast: bool)

  // Each law is a predicate of its own, so that it is used only where it is named.

  ghost predicate Neutral<T>(g: Group<T>, a: T) {
    g.add(g.identity, a) == a && g.add(a, g.identity) == a
  }

  ghost predicate Associates<T>(g: Group<T>, a: T, b: T, c: T) {
    g.add(g.add(a, b), c) == g.add(a, g.add(b, c))
  }

  ghost predicate Cancels<T>(g: Group<T>, a: T) {
    g.add(a, g.inverse(a)) == g.identity && g.add(g.inverse(a), a) == g.identity
  }

  ghost predicate Commutes<T>(g: Group<T>, a: T, b: T) {
    g.add(a, b) == g.add(b, a)
  }

  ghost predicate IsMonoid<T(!new)>(g: Group<T>) {
    (forall a :: Neutral(g, a)) && (forall a, b, c :: Associates(g, a, b, c))
  }

  ghost predicate HasInverses<T(!new)>(g: Group<T>) {
    forall a :: Cancels(g, a)
  }

  ghost predicate IsCommutative<T(!new)>(g: Group<T>) {
    forall a, b :: Commutes(g, a, b)
  }

  /** What the algorithms need of a group. `Inverse` is called only where `InversionIsFast`
      says so, and only then must it be an inverse: the multiplicative group of a ring, whose
      elements need not all be invertible, leaves `InversionIsFast` false. */
  ghost predicate Lawful<T(!new)>(g: Group<T>) {
    IsMonoid(g) && (g.inversionIsFast ==> HasInverses(g))
  }

  /** n-fold sum of `x`: the meaning of scalar multiplication. */
  function NTimes<T>(g: Group<T>, n: nat, x: T): T {
    if n == 0 then g.identity else g.add(NTimes(g, n - 1, x), x)
  }

  /** k-fold sum for a signed multiplier. */
  function Times<T>(g: Group<T>, k: int, x: T): T {
    if k >= 0 then NTimes(g, k, x) else NTimes(g, -k, g.inverse(x))
  }

  function Double<T>(g: Group<T>, a: T): T { g.add(a, a) }

  lemma {:induction false} NTimesAdd<T(!new)>(g: Group<T>, m: nat, n: nat, x: T)
    requires IsMonoid(g)
    ensures g.add(NTimes(g, m, x), NTimes(g, n, x)) == NTimes(g, m + n, x)
    decreases n
  {
    assert Neutral(g, NTimes(g, m, x));
    if n > 0 {
      NTimesAdd(g, m, n - 1, x);
      assert Associates(g, NTimes(g, m, x), NTimes(g, n - 1, x), x);
    }
  }

  lemma NTimesSucc<T(!new)>(g: Group<T>, n: nat, x: T)
    requires IsMonoid(g)
    ensures NTimes(g, n + 1, x) == g.add(x, NTimes(g, n, x))
  {
    NTimesAdd(g, 1, n, x);
    TimesOne(g, x);
  }

  lemma {:induction false} NTimesCancel<T(!new)>(g: Group<T>, m: nat, n: nat, x: T, y: T)
    requires IsMonoid(g) && g.add(x, y) == g.identity
    ensures g.add(NTimes(g, m, x), NTimes(g, n, y))
         == (if m >= n then NTimes(g, m - n, x) else NTimes(g, n - m, y))
    decreases n
  {
    if m > 0 && n > 0 {
      var a, b := NTimes(g, m - 1, x), NTimes(g, n - 1, y);
      calc {
        g.add(NTimes(g, m, x), NTimes(g, n, y));
        { NTimesSucc(g, n - 1, y); }
        g.add(g.add(a, x), g.add(y, b));
        { assert Associates(g, a, x, g.add(y, b)); }
        g.add(a, g.add(x, g.add(y, b)));
        { assert Associates(g, x, y, b) && Neutral(g, b); }
        g.add(a, b);
      }
      NTimesCancel(g, m - 1, n - 1, x, y);
    } else {
      assert Neutral(g, NTimes(g, m, x)) && Neutral(g, NTimes(g, n, y));
    }
  }

  /** Signed multiples of one element add like integers; in a monoid, unsigned ones do. */
  lemma TimesAdd<T(!new)>(g: Group<T>, a: int, b: int, x: T)
    requires Lawful(g)
    requires g.inversionIsFast || (a >= 0 && b >= 0)
    ensures g.add(Times(g, a, x), Times(g, b, x)) == Times(g, a + b, x)
  {
    var y := g.inverse(x);
    if a >= 0 && b >= 0 {
      NTimesAdd(g, a, b, x);
    } else {
      assert Cancels(g, x);
      if a < 0 && b < 0 {
        NTimesAdd(g, -a, -b, y);
      } else if a >= 0 {
        NTimesCancel(g, a, -b, x, y);
      } else {
        NTimesCancel(g, -a, b, y, x);
      }
    }
  }

  lemma TimesNegate<T(!new)>(g: Group<T>, a: int, x: T)
    requires Lawful(g) && g.inversionIsFast
    ensures g.inverse(Times(g, a, x)) == Times(g, -a, x)
  {
    var u, v := Times(g, a, x), Times(g, -a, x);
    assert Cancels(g, u) && Neutral(g, g.inverse(u)) && Neutral(g, v);
    calc {
      g.inverse(u);
      { TimesAdd(g, a, -a, x); }
      g.add(g.inverse(u), g.add(u, v));
      { assert Associates(g, g.inverse(u), u, v); }
      v;
    }
  }

  lemma TimesOne<T(!new)>(g: Group<T>, x: T)
    requires IsMonoid(g)
    ensures Times(g, 1, x) == x && Times(g, 0, x) == g.identity
  {
    assert NTimes(g, 1, x) == g.add(NTimes(g, 0, x), x);
    assert Neutral(g, x);
  }
}
