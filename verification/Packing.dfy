/** A stream of bits packed into cells of `w` bits, in a buffer that is cleared ahead of the cell being filled. */
module Packing {
  import opened Bytes
  import opened BitStrings

  /** `bits` are the characters `values`, the last ones of them in `cells`, followed by a part of one. */
  ghost predicate IsPacked(w: nat, bits: seq<bool>, values: seq<byte>, part: seq<bool>, cells: seq<byte>) {
    && bits == Join(w, values) + part && |part| < w && Narrow(w, values)
    && |cells| <= |values| && values[|values| - |cells|..] == cells
  }

  /** The cell being filled ends in zeros, and the cells after it are zero. */
  ghost predicate IsCleared(w: nat, part: seq<bool>, buffer: seq<byte>, pos: nat) {
    && |part| <= w <= 8
    && (pos < |buffer| ==> buffer[pos] == ByteOf(part + Falses(w - |part|)))
    && forall c :: pos < c < |buffer| ==> buffer[c] == 0
  }

  /** A completed cell holds one more character of the stream. */
  lemma CompleteCell(w: nat, values: seq<byte>, part: seq<bool>, more: seq<bool>, sofar: seq<bool>, taken: seq<bool>)
    requires |part| + |more| == w && w <= 8 && Narrow(w, values) && sofar + taken == Join(w, values) + part
    ensures sofar + (taken + more) == Join(w, values + [ByteOf(part + more)]) + []
    ensures Narrow(w, values + [ByteOf(part + more)])
  {
    hide Value, Join, Bits;
    BitsOfValue(part + more);
    JoinSnoc(w, values, ByteOf(part + more));
    ConcatAssociates(Join(w, values), part, more);
    ConcatAssociates(sofar, taken, more);
  }

  lemma WholeCell(w: nat, sofar: seq<bool>, taken: seq<bool>, more: seq<bool>, values: seq<byte>, part: seq<bool>,
                  buffer: seq<byte>, pos: nat)
    requires 1 <= w <= 8 && pos < |buffer| && |part| + |more| == w
    requires IsPacked(w, sofar + taken, values, part, buffer[..pos]) && IsCleared(w, part, buffer, pos)
    ensures var cell := ByteOf(part + more);
            && IsPacked(w, sofar + (taken + more), values + [cell], [], buffer[pos := cell][..pos + 1])
            && IsCleared(w, [], buffer[pos := cell], pos + 1)
  {
    hide Join, Narrow, ByteOf;
    CompleteCell(w, values, part, more, sofar, taken);
    ZeroCell(w);
    var cell := ByteOf(part + more);
    assert buffer[pos := cell][..pos + 1] == buffer[..pos] + [cell];
  }

  lemma PartCell(w: nat, sofar: seq<bool>, taken: seq<bool>, more: seq<bool>, values: seq<byte>, part: seq<bool>,
                 buffer: seq<byte>, pos: nat)
    requires 1 <= w <= 8 && pos < |buffer| && |part| + |more| < w
    requires IsPacked(w, sofar + taken, values, part, buffer[..pos]) && IsCleared(w, part, buffer, pos)
    ensures var cell := ByteOf((part + more) + Falses(w - |part| - |more|));
            && IsPacked(w, sofar + (taken + more), values, part + more, buffer[pos := cell][..pos])
            && IsCleared(w, part + more, buffer[pos := cell], pos)
  {
    hide Join, Narrow, ByteOf;
    ConcatAssociates(sofar, taken, more);
    ConcatAssociates(Join(w, values), part, more);
    var cell := ByteOf((part + more) + Falses(w - |part| - |more|));
    assert buffer[pos := cell][..pos] == buffer[..pos];
  }

  /** The number of bits in `n` characters of `w` bits. */
  function BitsIn(w: nat, n: nat): nat {
    if n == 0 then 0 else BitsIn(w, n - 1) + w
  }

  lemma BitsInNext(w: nat, n: nat)
    ensures BitsIn(w, n + 1) == BitsIn(w, n) + w
  {
  }

  lemma {:induction false} BitsInGrows(w: nat, a: nat, b: nat)
    requires a <= b
    ensures BitsIn(w, a) <= BitsIn(w, b)
  {
    if a < b { BitsInGrows(w, a, b - 1); }
  }

  lemma {:induction false} BitsInTimes(w: nat, n: nat)
    ensures BitsIn(w, n) == n * w
  {
    if n > 0 { BitsInTimes(w, n - 1); }
  }

  lemma PositionFits(w: nat, bytePos: nat, bitPos: nat, block: nat)
    requires BitsIn(w, bytePos) + bitPos < BitsIn(w, block)
    ensures bytePos < block
  {
    if bytePos >= block { BitsInGrows(w, block, bytePos); }
  }

  lemma ZeroCell(w: nat)
    requires w <= 8
    ensures ByteOf([] + Falses(w)) == 0
  {
    assert [] + Falses(w) == Falses(w);
    ValueFalses(w);
  }

  lemma AppendAfter<T>(s: seq<T>, k: nat, t: seq<T>)
    requires k <= |s|
    ensures (s + t)[k..] == s[k..] + t && (s + t)[..k] == s[..k]
  {
  }

  lemma SuffixSnoc(values: seq<byte>, p: nat, cell: byte)
    requires p <= |values|
    ensures (values + [cell])[..|values| - p] == values[..|values| - p]
  {
  }
}
