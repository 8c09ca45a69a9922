/** Length octets (asn.cpp, `DERLengthEncode` and `BERLengthDecode`; sections 8.1.3 and 10.1 of X.690). */
module BerLength {
  import opened Bytes

  const LWORD_LIMIT := 0x1_0000_0000_0000_0000
  const GUARD := 0x100_0000_0000_0000

  /** A first-in first-out byte store: the sources and destinations of the codecs. */
  class ByteQueue {
    var bytes: seq<byte>

    constructor ()
      ensures bytes == []
    {
      bytes := [];
    }

    method Put(b: byte)
      modifies this
      ensures bytes == old(bytes) + [b]
    {
      bytes := bytes + [b];
    }

    method PutAll(s: seq<byte>)
      modifies this
      ensures bytes == old(bytes) + s
    {
      bytes := bytes + s;
    }

    method Get() returns (ok: bool, b: byte)
      modifies this
      ensures ok == (old(bytes) != [])
      ensures ok ==> b == old(bytes)[0] && bytes == old(bytes)[1..]
      ensures !ok ==> bytes == old(bytes)
    {
      ok, b := bytes != [], 0;
      if ok {
        b, bytes := bytes[0], bytes[1..];
      }
    }
  }

  /** Number of bytes of a number; `BytePrecision` counts at least one. */
  function BytePrecision(n: nat): (k: nat)
    ensures k >= 1 && n < Pow256(k) && (k > 1 ==> Pow256(k - 1) <= n)
  {
    if n < 256 then 1 else 1 + BytePrecision(n / 256)
  }

  lemma {:induction false} BytePrecisionBound(n: nat, k: nat)
    requires n < Pow256(k) && k >= 1
    ensures BytePrecision(n) <= k
  {
    assert Pow256(1) == 256 * Pow256(0);
    if n >= 256 {
      BytePrecisionBound(n / 256, k - 1);
    }
  }

  // ----- encoding -----

  /** The distinguished encoding: short form up to 127, otherwise as few bytes as possible. */
  function DerLength(n: nat): (s: seq<byte>)
    requires n < LWORD_LIMIT
    ensures 1 <= |s| <= 9
  {
    if n <= 0x7f then [n]
    else
      assert BytePrecision(n) <= 8 by { EightBytes(); BytePrecisionBound(n, 8); }
      [BytePrecision(n) + 0x80] + BigEndian(n, BytePrecision(n))
  }

  lemma EightBytes()
    ensures Pow256(8) == LWORD_LIMIT && Pow256(7) == GUARD
  {
    assert Pow256(2) == 0x1_0000 && Pow256(3) == 0x100_0000 && Pow256(4) == 0x1_0000_0000;
    assert Pow256(5) == 0x100_0000_0000 && Pow256(6) == 0x1_0000_0000_0000;
  }

  /** byte(length >> 8*k). */
  function ByteAt(n: nat, k: nat): byte {
    if k == 0 then n % 256 else ByteAt(n / 256, k - 1)
  }

  lemma {:induction false} BigEndianByte(n: nat, len: nat, i: nat)
    requires i < len
    ensures BigEndian(n, len)[i] == ByteAt(n, len - 1 - i)
  {
    if i < len - 1 { BigEndianByte(n / 256, len - 1, i); }
  }

  method DERLengthEncode(bt: ByteQueue, length: nat) returns (i: nat)
    requires length < LWORD_LIMIT
    modifies bt
    ensures bt.bytes == old(bt.bytes) + DerLength(length) && i == |DerLength(length)|
  {
    if length <= 0x7f {
      bt.Put(length);
      i := 1;
    } else {
      EightBytes();
      BytePrecisionBound(length, 8);
      bt.Put(BytePrecision(length) + 0x80);
      PutBigEndian(bt, length, BytePrecision(length));
      i := 1 + BytePrecision(length);
    }
  }

  /** The loop of `DERLengthEncode`: `k` bytes of `length`, from the highest down. */
  method PutBigEndian(bt: ByteQueue, length: nat, k: nat)
    modifies bt
    ensures bt.bytes == old(bt.bytes) + BigEndian(length, k)
  {
    hide BigEndian, ByteAt;
    var j := k;
    while j != 0
      invariant 0 <= j <= k && bt.bytes == old(bt.bytes) + BigEndian(length, k)[..k - j]
    {
      BigEndianByte(length, k, k - j);
      bt.Put(ByteAt(length, j - 1));
      j := j - 1;
    }
  }

  // ----- decoding -----

  /** `Truncated`: the queue ran dry. `Overflow`: a length of more than 64 bits. The rest is what has not been read. */
  datatype LengthResult =
    | Truncated(rest: seq<byte>)
    | Overflow(rest: seq<byte>)
    | Indefinite(rest: seq<byte>)
    | Definite(length: nat, rest: seq<byte>)

  function DecodeLength(s: seq<byte>): (r: LengthResult)
    ensures r.Definite? ==> |r.rest| < |s|
    ensures r.Indefinite? ==> |r.rest| < |s| && s == [0x80] + r.rest
  {
    if s == [] then Truncated([])
    else if s[0] < 0x80 then Definite(s[0], s[1..])
    else if s[0] == 0x80 then Indefinite(s[1..])
    else DecodeLong(s[1..], s[0] - 0x80, 0)
  }

  /** `count` more bytes, most significant first, after `length` has been read so far. */
  function DecodeLong(s: seq<byte>, count: nat, length: nat): (r: LengthResult)
    ensures !r.Indefinite? && (r.Definite? ==> |r.rest| <= |s|)
    decreases count
  {
    if count == 0 then Definite(length, s)
    else if length >= GUARD then Overflow(s)
    else if s == [] then Truncated([])
    else DecodeLong(s[1..], count - 1, 256 * length + s[0])
  }

  method BERLengthDecode(bt: ByteQueue) returns (r: LengthResult)
    modifies bt
    ensures r == DecodeLength(old(bt.bytes))
    ensures bt.bytes == r.rest
  {
    var ok, b := bt.Get();
    if !ok {
      return Truncated(bt.bytes);
    }
    if b < 0x80 {
      r := Definite(b, bt.bytes);
    } else {
      var lengthBytes := b - 0x80;
      if lengthBytes == 0 {
        return Indefinite(bt.bytes);
      }
      var length := 0;
      while lengthBytes > 0
        invariant lengthBytes >= 0 && length >= 0
        invariant DecodeLong(bt.bytes, lengthBytes, length) == DecodeLength(old(bt.bytes))
      {
        if length >= GUARD {
          return Overflow(bt.bytes);
        }
        ok, b := bt.Get();
        if !ok {
          return Truncated(bt.bytes);
        }
        length, lengthBytes := 256 * length + b, lengthBytes - 1;
      }
      r := Definite(length, bt.bytes);
    }
  }

  // ----- the two undo each other -----

  /** What the decoding loop accumulates. */
  function Fold(high: nat, t: seq<byte>): nat
    decreases |t|
  {
    if t == [] then high else Fold(256 * high + t[0], t[1..])
  }

  lemma {:induction false} FoldLast(high: nat, t: seq<byte>, b: byte)
    ensures Fold(high, t + [b]) == 256 * Fold(high, t) + b
    decreases |t|
  {
    if t == [] {
      assert ([] + [b])[1..] == [];
    } else {
      assert (t + [b])[1..] == t[1..] + [b];
      FoldLast(256 * high + t[0], t[1..], b);
    }
  }

  lemma {:induction false} FoldIsNumber(t: seq<byte>)
    ensures Fold(0, t) == Number(t)
  {
    if t != [] {
      var n := |t| - 1;
      FoldIsNumber(t[..n]);
      FoldLast(0, t[..n], t[n]);
      assert t == t[..n] + [t[n]];
    }
  }

  lemma {:induction false} FoldGrows(high: nat, t: seq<byte>)
    ensures Fold(high, t) >= high && (t != [] ==> Fold(high, t) >= 256 * high)
    decreases |t|
  {
    if t != [] { FoldGrows(256 * high + t[0], t[1..]); }
  }

  /** The guard trips exactly when the value would need more than 64 bits. */
  lemma {:induction false} DecodeLongExact(s: seq<byte>, count: nat, high: nat, n: nat, rest: seq<byte>)
    requires high < LWORD_LIMIT
    ensures DecodeLong(s, count, high) == Definite(n, rest)
       <==> count <= |s| && n == Fold(high, s[..count]) && n < LWORD_LIMIT && rest == s[count..]
    decreases count
  {
    if count > 0 && s != [] {
      assert count <= |s| ==> s[..count][1..] == s[1..][..count - 1] && s[count..] == s[1..][count - 1..];
      if high < GUARD {
        DecodeLongExact(s[1..], count - 1, 256 * high + s[0], n, rest);
      } else if count <= |s| {
        FoldGrows(high, s[..count]);
      }
    }
  }

  /** Octets that decode to a length and nothing else do so in front of anything. */
  lemma LengthThen(octets: seq<byte>, n: nat, rest: seq<byte>)
    requires DecodeLength(octets) == Definite(n, [])
    ensures DecodeLength(octets + rest) == Definite(n, rest)
  {
    hide DecodeLong, Fold;
    var s := octets + rest;
    if octets[0] < 0x80 {
      assert s[1..] == rest;
    } else {
      var k := octets[0] - 0x80;
      DecodeLongExact(octets[1..], k, 0, n, []);
      assert s[1..] == octets[1..] + rest && s[1..][..k] == octets[1..][..k] && s[1..][k..] == rest;
      DecodeLongExact(s[1..], k, 0, n, rest);
    }
  }

  /** Decoding an encoded length gives it back and leaves what follows alone. */
  lemma LengthRoundTrip(n: nat, rest: seq<byte>)
    requires n < LWORD_LIMIT
    ensures DecodeLength(DerLength(n) + rest) == Definite(n, rest)
  {
    hide BigEndian, DecodeLong, Fold, Pow256, BytePrecision;
    var s := DerLength(n) + rest;
    if n <= 0x7f {
      assert s[1..] == rest;
    } else {
      var k := BytePrecision(n);
      EightBytes();
      BytePrecisionBound(n, 8);
      assert s[1..] == BigEndian(n, k) + rest && s[1..][..k] == BigEndian(n, k) && s[1..][k..] == rest;
      FoldIsNumber(BigEndian(n, k));
      NumberOfBigEndian(n, k);
      DecodeLongExact(s[1..], k, 0, n, rest);
    }
  }

  /** No encoding of a length is shorter than the distinguished one. */
  lemma DerLengthIsShortest(s: seq<byte>, n: nat, rest: seq<byte>)
    requires DecodeLength(s) == Definite(n, rest)
    ensures n < LWORD_LIMIT && |DerLength(n)| + |rest| <= |s|
  {
    hide DecodeLong, Fold, BigEndian;
    if s[0] >= 0x80 {
      var k := s[0] - 0x80;
      DecodeLongExact(s[1..], k, 0, n, rest);
      FoldIsNumber(s[1..][..k]);
      NumberBound(s[1..][..k]);
      if n > 0x7f { BytePrecisionBound(n, k); }
    }
  }

  // ----- the octets themselves -----

  /** Up to 127 a length is its own octet; above, the first octet is 128 and the number of octets that follow, which
      are those of the length and do not begin with a zero. */
  lemma DerLengthFields(n: nat)
    requires n < LWORD_LIMIT
    ensures var s := DerLength(n);
            if n <= 127 then s == [n]
            else s[0] == 128 + |s| - 1 && |s| >= 2 && s[1] != 0 && Number(s[1..]) == n
  {
    if n > 127 {
      hide BigEndian, Number, Pow256;
      var k := BytePrecision(n);
      assert DerLength(n)[1..] == BigEndian(n, k);
      NumberOfBigEndian(n, k);
      TopByte(n);
    }
  }

  lemma {:induction false} TopByte(n: nat)
    ensures n > 0 ==> BigEndian(n, BytePrecision(n))[0] != 0
  {
    if n >= 256 {
      TopByte(n / 256);
    } else {
      assert BigEndian(n, 1) == BigEndian(n / 256, 0) + [n % 256];
    }
  }

  /** Exactly what decodes to a length: an octet below 128, or 128 + k followed by k > 0 octets of a 64-bit number. */
  lemma DecodesExactly(s: seq<byte>, n: nat, rest: seq<byte>)
    ensures DecodeLength(s) == Definite(n, rest) <==>
              || (s != [] && s[0] < 128 && n == s[0] && rest == s[1..])
              || (s != [] && s[0] > 128 && s[0] - 128 < |s| && n == Number(s[1..s[0] - 127]) < LWORD_LIMIT &&
                  rest == s[s[0] - 127..])
    ensures DecodeLength(s) == Indefinite(rest) <==> s != [] && s[0] == 128 && rest == s[1..]
  {
    hide DecodeLong, Fold, Number;
    if s != [] && s[0] > 128 {
      var k := s[0] - 128;
      DecodeLongExact(s[1..], k, 0, n, rest);
      if k < |s| {
        assert s[1..][..k] == s[1..k + 1] && s[1..][k..] == s[k + 1..];
        FoldIsNumber(s[1..k + 1]);
      }
    }
  }

  /** Exactly what is too long: what has been read before the last octet, or before the end of the queue, has 57 bits
      or more. Whatever is left over runs out too early. */
  lemma FailsExactly(s: seq<byte>)
    ensures DecodeLength(s).Overflow? <==>
              s != [] && s[0] > 128 && Number(s[1..if s[0] - 128 < |s| then s[0] - 128 else |s|]) >= GUARD
    ensures DecodeLength(s).Truncated? <==>
              s == [] || (s[0] > 128 && |s| <= s[0] - 128 && Number(s[1..]) < GUARD)
  {
    hide DecodeLong, Fold, Number;
    if s != [] && s[0] > 128 {
      var k := s[0] - 128;
      LongFails(s[1..], k, 0);
      var t := if k < |s| then k - 1 else |s| - 1;
      assert s[1..][..t] == s[1..t + 1];
      FoldIsNumber(s[1..t + 1]);
      assert s[1..|s|] == s[1..];
    }
  }

  lemma {:induction false} LongFails(s: seq<byte>, count: nat, high: nat)
    requires count > 0
    ensures var t := if count <= |s| then count - 1 else |s|;
            && (DecodeLong(s, count, high).Overflow? <==> Fold(high, s[..t]) >= GUARD)
            && (DecodeLong(s, count, high).Truncated? <==> |s| < count && Fold(high, s[..t]) < GUARD)
    decreases count
  {
    var t := if count <= |s| then count - 1 else |s|;
    FoldGrows(high, s[..t]);
    if high < GUARD && s != [] {
      if count > 1 {
        LongFails(s[1..], count - 1, 256 * high + s[0]);
        assert t > 0 && s[..t][1..] == s[1..][..t - 1];
      } else {
        assert s[..0] == [];
      }
    }
  }
}
