/** Bytes and characters as strings of bits, most significant bit first. */
module BitStrings {
  import opened Arithmetic
  import opened Bytes

  function Value(bits: seq<bool>): (v: nat)
    ensures v < Pow2(|bits|)
  {
    if bits == [] then 0
    else 2 * Value(bits[..|bits| - 1]) + (if bits[|bits| - 1] then 1 else 0)
  }

  function Bits(w: nat, v: nat): (bits: seq<bool>)
    ensures |bits| == w
  {
    if w == 0 then [] else Bits(w - 1, v / 2) + [v % 2 == 1]
  }

  function Falses(n: nat): (z: seq<bool>)
    ensures |z| == n && forall i :: 0 <= i < n ==> !z[i]
  {
    seq(n, _ => false)
  }

  lemma {:induction false} ValueOfBits(w: nat, v: nat)
    requires v < Pow2(w)
    ensures Value(Bits(w, v)) == v
  {
    if w > 0 {
      ValueOfBits(w - 1, v / 2);
      assert Bits(w, v)[..w - 1] == Bits(w - 1, v / 2);
    }
  }

  lemma {:induction false} BitsOfValue(bits: seq<bool>)
    ensures Bits(|bits|, Value(bits)) == bits
  {
    if bits != [] {
      BitsOfValue(bits[..|bits| - 1]);
    }
  }

  lemma ValueSnoc(bits: seq<bool>, b: bool)
    ensures Value(bits + [b]) == 2 * Value(bits) + (if b then 1 else 0)
  {
    assert (bits + [b])[..|bits|] == bits;
  }

  lemma {:induction false} ValueAppend(a: seq<bool>, b: seq<bool>)
    ensures Value(a + b) == Value(a) * Pow2(|b|) + Value(b)
  {
    hide Value, Pow2;
    if b == [] {
      assert a + b == a && b == [];
      ValueEmpty();
    } else {
      var front, last := b[..|b| - 1], b[|b| - 1];
      ValueAppend(a, front);
      assert a + b == (a + front) + [last] && b == front + [last];
      ValueSnoc(a + front, last);
      ValueSnoc(front, last);
      Pow2Succ(|front|);
      MulPastTwo(Value(a), Pow2(|front|));
    }
  }

  lemma ValueEmpty()
    ensures Value([]) == 0 && Pow2(0) == 1
  {
  }

  lemma {:induction false} ValueFalses(n: nat)
    ensures Value(Falses(n)) == 0
  {
    if n > 0 {
      ValueFalses(n - 1);
      assert Falses(n)[..n - 1] == Falses(n - 1);
    }
  }

  function ByteOf(bits: seq<bool>): (v: byte)
    requires |bits| <= 8
    ensures v == Value(bits) && v < Pow2(|bits|)
  {
    Pow2Monotone(|bits|, 8);
    assert Pow2(8) == 256;
    Value(bits)
  }

  // ----- the shifts and the bitwise or of the source, on bit strings -----

  lemma {:induction false} ShiftRightBits(bits: seq<bool>, k: nat)
    requires k <= |bits|
    ensures Shr(Value(bits), k) == Value(bits[..|bits| - k])
  {
    if k == 0 {
      assert bits[..|bits|] == bits;
    } else {
      var front := bits[..|bits| - 1];
      ShiftRightBits(front, k - 1);
      assert front[..|front| - (k - 1)] == bits[..|bits| - k];
    }
  }

  /** A left shift of which only the low byte is kept. */
  function ShiftLeft(v: nat, k: nat): byte {
    v * Pow2(k) % 256
  }

  lemma ShiftLeftBits(bits: seq<bool>, k: nat)
    requires |bits| + k >= 8
    ensures ShiftLeft(Value(bits), k) == Value((bits + Falses(k))[|bits| + k - 8..])
  {
    hide Value;
    var all := bits + Falses(k);
    var high, low := all[..|all| - 8], all[|all| - 8..];
    ValueAppend(bits, Falses(k));
    ValueFalses(k);
    ValueAppend(high, low);
    assert high + low == all;
    assert Pow2(8) == 256;
    hide Pow2;
    DivModUnique(Value(all), 256, Value(high), Value(low));
  }

  /** Bitwise or of the low `k` bits. */
  function OrBits(k: nat, a: nat, b: nat): (r: nat)
    ensures r < Pow2(k)
  {
    if k == 0 then 0 else (if a % 2 == 1 || b % 2 == 1 then 1 else 0) + 2 * OrBits(k - 1, a / 2, b / 2)
  }

  function Or(a: byte, b: byte): byte {
    assert Pow2(8) == 256;
    OrBits(8, a, b)
  }

  lemma {:induction false} OrZero(k: nat, a: nat)
    requires a < Pow2(k)
    ensures OrBits(k, a, 0) == a
  {
    if k > 0 { OrZero(k - 1, a / 2); }
  }

  /** Bits or-ed into room left for them are appended. */
  lemma {:induction false} OrAppends(k: nat, bits: seq<bool>, more: seq<bool>)
    requires |bits| + |more| <= k
    ensures OrBits(k, Value(bits + Falses(|more|)), Value(more)) == Value(bits + more)
  {
    hide Value, Pow2, OrBits;
    if more == [] {
      assert bits + Falses(0) == bits && bits + more == bits;
      Pow2Monotone(|bits|, k);
      OrZero(k, Value(bits));
      ValueEmpty();
    } else {
      var front, last := more[..|more| - 1], more[|more| - 1];
      OrAppends(k - 1, bits, front);
      assert bits + Falses(|more|) == (bits + Falses(|front|)) + [false];
      assert bits + more == (bits + front) + [last];
      assert more == front + [last];
      ValueSnoc(bits + Falses(|front|), false);
      ValueSnoc(bits + front, last);
      ValueSnoc(front, last);
      OrSnoc(k - 1, Value(bits + Falses(|front|)), Value(front), last);
    }
  }

  lemma OrSnoc(k: nat, a: nat, b: nat, last: bool)
    ensures var e := if last then 1 else 0;
            OrBits(k + 1, 2 * a, 2 * b + e) == 2 * OrBits(k, a, b) + e
  {
  }

  lemma OrAppendsByte(bits: seq<bool>, more: seq<bool>)
    requires |bits| + |more| <= 8
    ensures Or(ByteOf(bits + Falses(|more|)), ByteOf(more)) == ByteOf(bits + more)
  {
    hide Value, OrBits;
    OrAppends(8, bits, more);
  }

  // ----- characters of `w` bits each -----

  function Join(w: nat, values: seq<byte>): (bits: seq<bool>) {
    if values == [] then []
    else
      var n := |values| - 1;
      Join(w, values[..n]) + Bits(w, values[n])
  }

  lemma JoinSnoc(w: nat, values: seq<byte>, v: byte)
    ensures Join(w, values + [v]) == Join(w, values) + Bits(w, v)
  {
    assert (values + [v])[..|values|] == values;
  }

  lemma {:induction false} JoinCons(w: nat, v: byte, values: seq<byte>)
    ensures Join(w, [v] + values) == Bits(w, v) + Join(w, values)
  {
    hide Bits, Join;
    JoinEmpty(w);
    if values == [] {
      assert [v] + values == [] + [v];
      JoinSnoc(w, [], v);
    } else {
      var n := |values| - 1;
      var front, last := values[..n], values[n];
      JoinCons(w, v, front);
      assert [v] + values == ([v] + front) + [last] && values == front + [last];
      JoinSnoc(w, [v] + front, last);
      JoinSnoc(w, front, last);
    }
  }

  /** The whole groups of `w` bits. */
  function Group(w: nat, bits: seq<bool>): (values: seq<byte>)
    requires 1 <= w <= 8
    decreases |bits|
  {
    if |bits| < w then [] else [ByteOf(bits[..w])] + Group(w, bits[w..])
  }

  /** The bits after the last whole group. */
  function Rest(w: nat, bits: seq<bool>): (rest: seq<bool>)
    requires 1 <= w
    ensures |rest| < w
    decreases |bits|
  {
    if |bits| < w then bits else Rest(w, bits[w..])
  }

  ghost predicate Narrow(w: nat, values: seq<byte>) {
    forall i :: 0 <= i < |values| ==> values[i] < Pow2(w)
  }

  /** Grouping undoes joining, whatever incomplete group follows. */
  lemma {:induction false} GroupOfJoin(w: nat, values: seq<byte>, rest: seq<bool>)
    requires 1 <= w <= 8 && Narrow(w, values) && |rest| < w
    ensures Group(w, Join(w, values) + rest) == values && Rest(w, Join(w, values) + rest) == rest
    decreases |values|
  {
    hide Value, Bits;
    if values == [] {
      assert Join(w, values) + rest == rest;
    } else {
      var v, more := values[0], values[1..];
      assert values == [v] + more;
      JoinCons(w, v, more);
      var bits := Join(w, values) + rest;
      assert bits == Bits(w, v) + (Join(w, more) + rest);
      assert bits[..w] == Bits(w, v) && bits[w..] == Join(w, more) + rest;
      ValueOfBits(w, v);
      GroupOfJoin(w, more, rest);
    }
  }

  /** Joining undoes grouping, up to the incomplete group. */
  lemma {:induction false} JoinOfGroup(w: nat, bits: seq<bool>)
    requires 1 <= w <= 8
    ensures Join(w, Group(w, bits)) + Rest(w, bits) == bits
    decreases |bits|
  {
    hide Value, Bits, Join;
    if |bits| < w {
      JoinEmpty(w);
    } else {
      var first, more := bits[..w], bits[w..];
      JoinOfGroup(w, more);
      BitsOfValue(first);
      JoinCons(w, ByteOf(first), Group(w, more));
      GroupCons(w, bits);
      hide Group, Rest;
      ConcatAssociates(first, Join(w, Group(w, more)), Rest(w, more));
      assert bits == first + more;
    }
  }

  lemma GroupCons(w: nat, bits: seq<bool>)
    requires 1 <= w <= 8 && w <= |bits|
    ensures Group(w, bits) == [ByteOf(bits[..w])] + Group(w, bits[w..]) && Rest(w, bits) == Rest(w, bits[w..])
  {
  }

  lemma ConcatAssociates<T>(a: seq<T>, b: seq<T>, c: seq<T>)
    ensures (a + b) + c == a + (b + c)
  {
  }

  lemma JoinEmpty(w: nat)
    ensures Join(w, []) == []
  {
  }

  lemma {:induction false} GroupNarrow(w: nat, bits: seq<bool>)
    requires 1 <= w <= 8
    ensures Narrow(w, Group(w, bits))
    decreases |bits|
  {
    hide Value, Pow2;
    if |bits| >= w {
      GroupNarrow(w, bits[w..]);
    }
  }

  // ----- bit by bit -----

  lemma {:induction false} BitsAt(w: nat, v: nat, i: nat)
    requires i < w
    ensures Bits(w, v)[i] == (Bit(v, w - 1 - i) == 1)
  {
    BitBelow(v, w - 1 - i);
    if i < w - 1 {
      hide Bit;
      BitsAt(w - 1, v / 2, i);
    }
  }

  lemma {:induction false} ValueAt(bits: seq<bool>, i: nat)
    requires i < |bits|
    ensures Bit(Value(bits), |bits| - 1 - i) == if bits[i] then 1 else 0
  {
    var n := |bits| - 1;
    BitBelow(Value(bits), n - i);
    assert Value(bits) / 2 == Value(bits[..n]);
    if i < n {
      hide Bit, Value;
      ValueAt(bits[..n], i);
    }
  }

  /** Bit k of joined values is in value k / w, from the top. */
  lemma {:induction false} JoinAt(w: nat, values: seq<byte>, k: nat)
    requires w > 0 && k < w * |values|
    ensures |Join(w, values)| == w * |values| && k / w < |values| && k % w < w
    ensures Join(w, values)[k] == (Bit(values[k / w], w - 1 - k % w) == 1)
  {
    hide Bits, Bit, Join;
    JoinLength(w, values);
    PlaceIn(w, |values|, k);
    var n := |values| - 1;
    var front, last := values[..n], values[n];
    assert values == front + [last];
    JoinSnoc(w, front, last);
    JoinLength(w, front);
    if k < w * n {
      JoinAt(w, front, k);
    } else {
      BitsAt(w, last, k - w * n);
    }
  }

  lemma PlaceIn(w: nat, n: nat, k: nat)
    requires w > 0 && k < w * n
    ensures n > 0 && k / w < n && k % w < w
    ensures k < w * (n - 1) ==> k / w < n - 1
    ensures k >= w * (n - 1) ==> k / w == n - 1 && k % w == k - w * (n - 1) < w
  {
    DivMod(k, w);
    assert w * n == w * (n - 1) + w;
    if k >= w * (n - 1) {
      DivModUnique(k, w, n - 1, k - w * (n - 1));
    } else if k / w >= n - 1 {
      MulMonotone(n - 1, k / w, w);
    }
  }

  lemma {:induction false} JoinLength(w: nat, values: seq<byte>)
    ensures |Join(w, values)| == w * |values|
  {
    if values != [] {
      var n := |values| - 1;
      JoinLength(w, values[..n]);
      assert w * |values| == w * n + w;
    }
  }

  /** Value i of a grouping has the w bits from place w·i on, the first of them on top. */
  lemma {:induction false} GroupAt(w: nat, bits: seq<bool>, i: nat, j: nat)
    requires 1 <= w <= 8 && j < w && w * i + w <= |bits|
    ensures i < |Group(w, bits)|
    ensures 0 <= w * i + j < |bits| && Bit(Group(w, bits)[i], w - 1 - j) == if bits[w * i + j] then 1 else 0
    decreases i
  {
    hide Bit, Value;
    assert w * i >= 0;
    GroupCons(w, bits);
    if i == 0 {
      ValueAt(bits[..w], j);
    } else {
      assert w * i == w * (i - 1) + w;
      GroupAt(w, bits[w..], i - 1, j);
    }
  }

  lemma {:induction false} GroupLength(w: nat, bits: seq<bool>)
    requires 1 <= w <= 8
    ensures |Group(w, bits)| == |bits| / w && |Rest(w, bits)| == |bits| % w
    ensures Rest(w, bits) == bits[|bits| - |Rest(w, bits)|..]
    decreases |bits|
  {
    hide Value;
    var n := |bits|;
    if n < w {
      DivModUnique(n, w, 0, n);
    } else {
      GroupCons(w, bits);
      hide Group, Rest;
      GroupLength(w, bits[w..]);
      QuotientNext(n, w);
    }
  }

  lemma QuotientNext(n: nat, w: nat)
    requires n >= w > 0
    ensures n / w == (n - w) / w + 1 && n % w == (n - w) % w
  {
    DivMod(n - w, w);
    MulDistributes((n - w) / w, 1, w);
    DivModUnique(n, w, (n - w) / w + 1, (n - w) % w);
  }
}
