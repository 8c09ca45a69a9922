/** Object identifiers and unsigned integers (asn.cpp, `OID`; asn.h, `DEREncodeUnsigned` and
    `BERDecodeUnsigned`; sections 8.3 and 8.19 of X.690). */
module Oid {
  import opened Arithmetic
  import opened Bytes
  import opened BerLength

  const WORD_LIMIT := 0x1_0000_0000
  const OBJECT_IDENTIFIER: byte := 0x06

  // ----- one arc, seven bits to a byte -----

  /** All but the last byte of an arc: continuation bit set. */
  function ArcHigh(v: nat): seq<byte> {
    if v == 0 then [] else ArcHigh(v / 128) + [0x80 + v % 128]
  }

  /** An arc, most significant seven bits first. */
  function Arc(v: nat): (s: seq<byte>)
    ensures |s| >= 1
  {
    ArcHigh(v / 128) + [v % 128]
  }

  /** (v >> 7*k) & 0x7f. */
  function Septet(v: nat, k: nat): (r: nat)
    ensures r < 128
  {
    if k == 0 then v % 128 else Septet(v / 128, k - 1)
  }

  /** Number of seven-bit groups, at least one. */
  function Septets(v: nat): (n: nat)
    ensures n >= 1
  {
    if v < 128 then 1 else 1 + Septets(v / 128)
  }

  lemma {:induction false} ArcHighShape(v: nat, i: nat)
    requires v > 0 && i < Septets(v)
    ensures |ArcHigh(v)| == Septets(v) && ArcHigh(v)[i] == 0x80 + Septet(v, Septets(v) - 1 - i)
  {
    if v >= 128 {
      ArcHighShape(v / 128, if i < Septets(v) - 1 then i else 0);
    } else {
      assert ArcHigh(v) == ArcHigh(0) + [0x80 + v % 128];
    }
  }

  /** The number of groups as the source computes it, from the bit count. */
  lemma {:induction false} SeptetsFromBits(v: nat)
    ensures Septets(v) == ((if BitCount(v) > 7 then BitCount(v) else 7) + 6) / 7
  {
    if v < 128 {
      assert BitCount(v) <= 7 by {
        if BitCount(v) > 7 {
          assert Pow2(7) == 128;
          Pow2Monotone(7, BitCount(v) - 1);
        }
      }
    } else {
      SeptetsFromBits(v / 128);
      BitCountShift(v, 7);
      ShiftIsDivision(v, 7);
      assert Pow2(7) == 128;
    }
  }

  lemma {:induction false} BitCountShift(v: nat, k: nat)
    requires v >= Pow2(k)
    ensures BitCount(v) == k + BitCount(Shr(v, k))
  {
    if k > 0 { BitCountShift(v / 2, k - 1); }
  }

  /** Appends one arc, as `OID::EncodeValue` does: the groups above the lowest, then the lowest. */
  method EncodeValue(bt: ByteQueue, v: nat)
    modifies bt
    ensures bt.bytes == old(bt.bytes) + Arc(v)
  {
    hide Septets, Septet, ArcHigh, BitCount, Shr;
    ghost var n := Septets(v);
    var i := RoundUpToMultipleOf7(if BitCount(v) > 7 then BitCount(v) else 7) - 7;
    SeptetsFromBits(v);
    ghost var k := n - 1;
    assert |ArcHigh(v / 128)| == n - 1 by { SeptetsAbove(v); }
    while i != 0
      invariant i == 7 * k && 0 <= k <= n - 1 && bt.bytes == old(bt.bytes) + ArcHigh(v / 128)[..n - 1 - k]
    {
      SeptetStep(v, k);
      SeptetIsShift(v, k);
      bt.Put(0x80 + Shr(v, i) % 128);
      i, k := i - 7, k - 1;
    }
    bt.Put(v % 128);
  }

  function RoundUpToMultipleOf7(n: nat): (r: nat)
    ensures r == 7 * ((n + 6) / 7)
  {
    n + 6 - (n + 6) % 7
  }

  /** `(v >> i) & 0x7f` is a digit to the base 128. */
  lemma {:induction false} SeptetIsShift(v: nat, k: nat)
    ensures Septet(v, k) == Shr(v, 7 * k) % 128
  {
    if k > 0 {
      SeptetIsShift(v / 128, k - 1);
      ShiftShift(v, 7, 7 * (k - 1));
      ShiftIsDivision(v, 7);
      assert Pow2(7) == 128;
    }
  }

  lemma SeptetsAbove(v: nat)
    ensures |ArcHigh(v / 128)| == Septets(v) - 1
  {
    if v >= 128 { ArcHighShape(v / 128, 0); }
  }

  lemma SeptetStep(v: nat, k: nat)
    requires 1 <= k <= Septets(v) - 1
    ensures |ArcHigh(v / 128)| == Septets(v) - 1
    ensures ArcHigh(v / 128)[Septets(v) - 1 - k] == 0x80 + Septet(v, k)
  {
    ArcHighShape(v / 128, Septets(v) - 1 - k);
  }

  /** The queue ran dry, or the number has more than 32 bits. The rest is what has not been read. */
  datatype ArcResult = Ended(rest: seq<byte>) | TooLarge(rest: seq<byte>) | Good(value: nat, rest: seq<byte>)

  function DecodeArc(s: seq<byte>, v: nat): (r: ArcResult)
    ensures r.Good? ==> |r.rest| < |s|
    decreases |s|
  {
    if s == [] then Ended([])
    else if v >= 0x200_0000 then TooLarge(s[1..])
    else if s[0] < 0x80 then Good(128 * v + s[0], s[1..])
    else DecodeArc(s[1..], 128 * v + (s[0] - 0x80))
  }

  method DecodeValue(bt: ByteQueue) returns (r: ArcResult, valueLen: nat)
    modifies bt
    ensures r == DecodeArc(old(bt.bytes), 0)
    ensures bt.bytes == r.rest && valueLen == |old(bt.bytes)| - |bt.bytes|
  {
    var v: nat := 0;
    valueLen := 0;
    while true
      invariant valueLen == |old(bt.bytes)| - |bt.bytes|
      invariant DecodeArc(bt.bytes, v) == DecodeArc(old(bt.bytes), 0)
      decreases |bt.bytes|
    {
      var ok, b := bt.Get();
      if !ok {
        return Ended(bt.bytes), valueLen;
      }
      valueLen := valueLen + 1;
      if v >= 0x200_0000 {
        return TooLarge(bt.bytes), valueLen;
      }
      v := 128 * v + b % 128;
      if b < 0x80 {
        return Good(v, bt.bytes), valueLen;
      }
    }
  }

  lemma {:induction false} DecodeArcHigh(v: nat, rest: seq<byte>)
    requires v < 0x200_0000
    ensures DecodeArc(ArcHigh(v) + rest, 0) == DecodeArc(rest, v)
  {
    if v == 0 {
      assert ArcHigh(0) + rest == rest;
    } else {
      var last := [0x80 + v % 128];
      assert ArcHigh(v) + rest == ArcHigh(v / 128) + (last + rest);
      DecodeArcHigh(v / 128, last + rest);
      assert (last + rest)[1..] == rest;
    }
  }

  /** Every 32-bit arc decodes to itself; the guard never trips on it. */
  lemma ArcRoundTrip(v: nat, rest: seq<byte>)
    requires v < WORD_LIMIT
    ensures DecodeArc(Arc(v) + rest, 0) == Good(v, rest)
  {
    var last := [v % 128];
    assert Arc(v) + rest == ArcHigh(v / 128) + (last + rest);
    DecodeArcHigh(v / 128, last + rest);
    assert (last + rest)[1..] == rest;
  }

  /** An arc has as many octets as its bits need, seven to each; octet i holds seven bits from the top, and bit 8 is set
      in all but the last. */
  lemma ArcAt(v: nat, i: nat)
    requires i < |Arc(v)|
    ensures |Arc(v)| == ((if BitCount(v) > 7 then BitCount(v) else 7) + 6) / 7
    ensures Arc(v)[i] == Shr(v, 7 * (|Arc(v)| - 1 - i)) % 128 + if i + 1 < |Arc(v)| then 128 else 0
  {
    hide Septets, Septet, ArcHigh, BitCount;
    SeptetsAbove(v);
    SeptetsFromBits(v);
    var k := |Arc(v)| - 1 - i;
    if k > 0 {
      SeptetStep(v, k);
      SeptetIsShift(v, k);
    }
  }

  /** Octets with bit 8 set, seven bits from each. */
  function Septenary(high: seq<byte>): nat {
    if high == [] then 0 else 128 * Septenary(high[..|high| - 1]) + high[|high| - 1] % 128
  }

  /** Exactly what decodes to an arc: octets with bit 8 set that make less than 2^25, and one without it. */
  lemma {:induction false} DecodeArcExactly(high: seq<byte>, last: byte, rest: seq<byte>)
    requires (forall i :: 0 <= i < |high| ==> high[i] >= 128) && last < 128
    ensures DecodeArc(high + [last] + rest, 0).Good? <==> Septenary(high) < 0x200_0000
    ensures Septenary(high) < 0x200_0000 ==> DecodeArc(high + [last] + rest, 0) == Good(128 * Septenary(high) + last, rest)
    ensures DecodeArc(high + [last] + rest, 0).Good? || DecodeArc(high + [last] + rest, 0).TooLarge?
  {
    hide Septenary, DecodeArc;
    var tail := [last] + rest;
    assert high + [last] + rest == high + tail;
    HighOctets(high, tail);
    LastOctet(last, rest, Septenary(high));
  }

  lemma LastOctet(last: byte, rest: seq<byte>, v: nat)
    requires last < 128
    ensures DecodeArc([last] + rest, v) == if v < 0x200_0000 then Good(128 * v + last, rest) else TooLarge(rest)
  {
    assert ([last] + rest)[1..] == rest;
  }

  lemma {:induction false} HighOctets(high: seq<byte>, tail: seq<byte>)
    requires (forall i :: 0 <= i < |high| ==> high[i] >= 128) && tail != []
    ensures Septenary(high) < 0x200_0000 ==> DecodeArc(high + tail, 0) == DecodeArc(tail, Septenary(high))
    ensures Septenary(high) >= 0x200_0000 ==> DecodeArc(high + tail, 0).TooLarge?
  {
    if high == [] {
      assert high + tail == tail;
    } else {
      var n := |high| - 1;
      var more := [high[n]] + tail;
      HighOctets(high[..n], more);
      assert high + tail == high[..n] + more && more[1..] == tail;
    }
  }

  // ----- whole identifiers -----

  function Arcs(values: seq<nat>): seq<byte> {
    if values == [] then [] else Arc(values[0]) + Arcs(values[1..])
  }

  /** Contents octets: the first two arcs share a byte, which is truncated to eight bits. */
  function Contents(values: seq<nat>): (s: seq<byte>)
    requires |values| >= 2
    ensures |s| >= 1
  {
    [(values[0] * 40 + values[1]) % 256] + Arcs(values[2..])
  }

  function EncodeOid(values: seq<nat>): seq<byte>
    requires |values| >= 2 && |Contents(values)| < LWORD_LIMIT
  {
    [OBJECT_IDENTIFIER] + DerLength(|Contents(values)|) + Contents(values)
  }

  datatype OidResult = NoOid(rest: seq<byte>) | IsOid(values: seq<nat>, rest: seq<byte>)

  /** Arcs filling exactly `length` bytes. */
  function DecodeArcs(s: seq<byte>, length: nat): OidResult
    decreases |s|
  {
    if length == 0 then IsOid([], s)
    else match DecodeArc(s, 0)
      case Ended(rest) => NoOid(rest)
      case TooLarge(rest) => NoOid(rest)
      case Good(v, rest) =>
        var used := |s| - |rest|;
        if used > length then NoOid(rest)
        else match DecodeArcs(rest, length - used)
          case NoOid(after) => NoOid(after)
          case IsOid(vs, after) => IsOid([v] + vs, after)
  }

  function DecodeOid(s: seq<byte>): OidResult {
    if s == [] then NoOid([])
    else if s[0] != OBJECT_IDENTIFIER then NoOid(s[1..])
    else match DecodeLength(s[1..])
      case Definite(length, rest) =>
        if length < 1 || rest == [] then NoOid(rest)
        else (match DecodeArcs(rest[1..], length - 1)
          case NoOid(after) => NoOid(after)
          case IsOid(vs, after) => IsOid([rest[0] / 40, rest[0] % 40] + vs, after))
      case other => NoOid(other.rest)
  }

  lemma {:induction false} ArcsRoundTrip(values: seq<nat>, rest: seq<byte>)
    requires forall i :: 0 <= i < |values| ==> values[i] < WORD_LIMIT
    ensures DecodeArcs(Arcs(values) + rest, |Arcs(values)|) == IsOid(values, rest)
    decreases |values|
  {
    hide Arc, DecodeArc;
    if values == [] {
      assert Arcs(values) + rest == rest;
    } else {
      var others := Arcs(values[1..]);
      var s := Arcs(values) + rest;
      assert s == Arc(values[0]) + (others + rest);
      ArcRoundTrip(values[0], others + rest);
      ArcsRoundTrip(values[1..], rest);
      assert [values[0]] + values[1..] == values;
    }
  }

  lemma OidDecodes(values: seq<nat>, rest: seq<byte>)
    requires |values| >= 2 && |Contents(values)| < LWORD_LIMIT
    requires forall i :: 0 <= i < |values| ==> values[i] < WORD_LIMIT
    ensures var first := Contents(values)[0];
      DecodeOid(EncodeOid(values) + rest) == IsOid([first / 40, first % 40] + values[2..], rest)
  {
    hide DecodeLength, DerLength, Arcs, DecodeArcs;
    var c := Contents(values);
    var s := EncodeOid(values) + rest;
    assert s[1..] == DerLength(|c|) + (c + rest);
    LengthRoundTrip(|c|, c + rest);
    assert (c + rest)[1..] == Arcs(values[2..]) + rest;
    ArcsRoundTrip(values[2..], rest);
  }

  /** Decoding an encoded identifier consumes it exactly, and gives it back if and only if the
      second arc is below 40 and the shared byte does not overflow. */
  lemma OidRoundTrip(values: seq<nat>, rest: seq<byte>)
    requires |values| >= 2 && |Contents(values)| < LWORD_LIMIT
    requires forall i :: 0 <= i < |values| ==> values[i] < WORD_LIMIT
    ensures var r := DecodeOid(EncodeOid(values) + rest);
      && r.IsOid? && r.rest == rest
      && (r.values == values <==> values[1] < 40 && values[0] * 40 + values[1] < 256)
  {
    hide DecodeLength, DerLength, Arcs, DecodeArcs, EncodeOid, DecodeOid;
    OidDecodes(values, rest);
    SharedByte(values[0], values[1]);
    var first := Contents(values)[0];
    var back := [first / 40, first % 40] + values[2..];
    assert values == [values[0], values[1]] + values[2..];
    assert back == values <==> back[0] == values[0] && back[1] == values[1];
  }

  lemma SharedByte(a: nat, b: nat)
    ensures var first := (a * 40 + b) % 256;
      first / 40 == a && first % 40 == b <==> b < 40 && a * 40 + b < 256
  {}

  /** 1.40 comes back as 2.0, and 6.16 as 0.0. */
  lemma SharedByteFails(rest: seq<byte>)
    ensures DecodeOid(EncodeOid([1, 40]) + rest) == IsOid([2, 0], rest)
    ensures DecodeOid(EncodeOid([6, 16]) + rest) == IsOid([0, 0], rest)
  {
    hide EncodeOid, DecodeOid;
    OidDecodes([1, 40], rest);
    OidDecodes([6, 16], rest);
  }

  /** 1.2.840.113549 is 06 06 2a 86 48 86 f7 0d. */
  lemma KnownIdentifier()
    ensures |Contents([1, 2, 840, 113549])| < LWORD_LIMIT
    ensures EncodeOid([1, 2, 840, 113549]) == [0x06, 0x06, 0x2a, 0x86, 0x48, 0x86, 0xf7, 0x0d]
  {
    assert Arc(840) == [0x86, 0x48] by { assert ArcHigh(6) == ArcHigh(0) + [0x86]; }
    assert Arc(113549) == [0x86, 0xf7, 0x0d] by {
      assert ArcHigh(6) == ArcHigh(0) + [0x86];
      assert ArcHigh(887) == ArcHigh(6) + [0xf7];
    }
    hide Arc;
    var values := [1, 2, 840, 113549];
    assert values[2..] == [840, 113549] && values[2..][1..] == [113549] && values[2..][1..][1..] == [];
    assert Arcs(values[2..][1..]) == Arc(113549) + Arcs(values[2..][1..][1..]);
    assert Arcs(values[2..]) == Arc(840) + Arcs(values[2..][1..]);
    assert DerLength(6) == [6];
  }

  /** Contents octets are the shared octet and the arcs from the third on. */
  lemma EncodedInOctets(values: seq<nat>)
    requires |values| >= 2 && |Contents(values)| < LWORD_LIMIT
    ensures var arcs := seq(|values| - 2, i requires 0 <= i < |values| - 2 => Arc(values[i + 2]));
            var contents := [(values[0] * 40 + values[1]) % 256] + Joined(arcs);
            |contents| < LWORD_LIMIT && EncodeOid(values) == [0x06] + DerLength(|contents|) + contents
  {
    hide DerLength, Arc;
    var arcs := seq(|values| - 2, i requires 0 <= i < |values| - 2 => Arc(values[i + 2]));
    ArcsJoined(values[2..], arcs);
  }

  lemma {:induction false} ArcsJoined(values: seq<nat>, arcs: seq<seq<byte>>)
    requires |arcs| == |values| && forall i :: 0 <= i < |values| ==> arcs[i] == Arc(values[i])
    ensures Arcs(values) == Joined(arcs)
    decreases |values|
  {
    hide Arc;
    if values != [] {
      ArcsJoined(values[1..], arcs[1..]);
      JoinedCons(arcs);
    }
  }

  lemma {:induction false} DecodeArcThen(x: seq<byte>, v: nat, start: nat, rest: seq<byte>)
    requires DecodeArc(x, start) == Good(v, [])
    ensures DecodeArc(x + rest, start) == Good(v, rest)
    decreases |x|
  {
    assert (x + rest)[1..] == x[1..] + rest;
    if x[0] >= 0x80 { DecodeArcThen(x[1..], v, 128 * start + (x[0] - 0x80), rest); }
  }

  lemma {:induction false} DecodeArcsJoined(xs: seq<seq<byte>>, vs: seq<nat>, rest: seq<byte>)
    requires |vs| == |xs| && forall i :: 0 <= i < |xs| ==> DecodeArc(xs[i], 0) == Good(vs[i], [])
    ensures DecodeArcs(Joined(xs) + rest, |Joined(xs)|) == IsOid(vs, rest)
    decreases |xs|
  {
    hide DecodeArc, Joined;
    if xs == [] {
      NothingJoined();
      assert [] + rest == rest;
    } else {
      JoinedCons(xs);
      var others := Joined(xs[1..]) + rest;
      assert Joined(xs) + rest == xs[0] + others;
      DecodeArcThen(xs[0], vs[0], 0, others);
      DecodeArcsJoined(xs[1..], vs[1..], rest);
      assert [vs[0]] + vs[1..] == vs;
    }
  }

  /** Whatever the form of its length and of its arcs: tag 6, a length, an octet that is divided by 40, and arcs. */
  lemma DecodedFromOctets(octets: seq<byte>, first: byte, xs: seq<seq<byte>>, vs: seq<nat>, rest: seq<byte>)
    requires |vs| == |xs| && forall i :: 0 <= i < |xs| ==> DecodeArc(xs[i], 0) == Good(vs[i], [])
    requires DecodeLength(octets) == Definite(1 + |Joined(xs)|, [])
    ensures DecodeOid([0x06] + octets + [first] + Joined(xs) + rest) == IsOid([first / 40, first % 40] + vs, rest)
  {
    hide DecodeArc, Joined, DecodeLength, DecodeArcs;
    var body := [first] + (Joined(xs) + rest);
    var s := [0x06] + octets + [first] + Joined(xs) + rest;
    assert s[1..] == octets + body && body[1..] == Joined(xs) + rest;
    LengthThen(octets, 1 + |Joined(xs)|, body);
    DecodeArcsJoined(xs, vs, rest);
  }

  method DEREncode(values: seq<nat>, bt: ByteQueue)
    requires |values| >= 2 && |Contents(values)| < LWORD_LIMIT
    modifies bt
    ensures bt.bytes == old(bt.bytes) + EncodeOid(values)
  {
    hide Arc, DerLength;
    var temp := new ByteQueue();
    temp.Put((values[0] * 40 + values[1]) % 256);
    var i := 2;
    while i < |values|
      invariant 2 <= i <= |values| && bt.bytes == old(bt.bytes)
      invariant temp.bytes + Arcs(values[i..]) == Contents(values)
    {
      assert values[i..][1..] == values[i + 1..];
      EncodeValue(temp, values[i]);
      i := i + 1;
    }
    assert temp.bytes == Contents(values);
    bt.Put(OBJECT_IDENTIFIER);
    var octets := DERLengthEncode(bt, |temp.bytes|);
    bt.PutAll(temp.bytes);
  }

  method BERDecode(bt: ByteQueue) returns (ok: bool, values: seq<nat>)
    modifies bt
    ensures DecodeOid(old(bt.bytes)) == if ok then IsOid(values, bt.bytes) else NoOid(bt.bytes)
  {
    hide DecodeLength, DecodeArc;
    values := [];
    var got, b := bt.Get();
    if !got || b != OBJECT_IDENTIFIER {
      return false, [];
    }
    var r := BERLengthDecode(bt);
    if !r.Definite? || r.length < 1 {
      return false, [];
    }
    got, b := bt.Get();
    if !got {
      return false, [];
    }
    values := [b / 40, b % 40];
    ok, values := DecodeOthers(bt, r.length - 1, values);
  }

  /** The loop of `OID::BERDecode` over the remaining `lengthIn` bytes. */
  method DecodeOthers(bt: ByteQueue, lengthIn: nat, valuesIn: seq<nat>) returns (ok: bool, values: seq<nat>)
    modifies bt
    ensures var all := DecodeArcs(old(bt.bytes), lengthIn);
      && (ok <==> all.IsOid?)
      && (ok ==> values == valuesIn + all.values) && bt.bytes == all.rest
  {
    hide DecodeArc;
    var length: nat := lengthIn;
    values := valuesIn;
    ghost var all := DecodeArcs(bt.bytes, length);
    while length > 0
      invariant DecodeArcs(bt.bytes, length).IsOid? <==> all.IsOid?
      invariant all.IsOid? ==> valuesIn + all.values == values + DecodeArcs(bt.bytes, length).values
      invariant all.rest == DecodeArcs(bt.bytes, length).rest
      decreases length
    {
      var v, valueLen := DecodeValue(bt);
      if !v.Good? || valueLen > length {
        return false, [];
      }
      values := values + [v.value];
      length := length - valueLen;
    }
    ok := true;
  }

  // ----- unsigned integers of 32 bits -----

  const BOOLEAN: byte := 0x01
  const INTEGER: byte := 0x02
  const ENUMERATED: byte := 0x0a

  /** As few bytes as a non-negative number allows: a zero byte in front of a leading one bit. */
  function UnsignedContents(w: nat): (s: seq<byte>)
    ensures |s| >= 1
  {
    var s := BigEndian(w, BytePrecision(w));
    if s[0] >= 0x80 then [0] + s else s
  }

  /** The contents octets `DEREncodeUnsigned` writes under a tag. */
  function TaggedContents(w: nat, tag: byte): (s: seq<byte>)
    ensures |s| >= 1
  {
    if tag == BOOLEAN then [if w != 0 then 0xff else 0] else UnsignedContents(w)
  }

  method DEREncodeUnsigned(out: ByteQueue, w: nat, tag: byte)
    requires w < WORD_LIMIT
    modifies out
    ensures |TaggedContents(w, tag)| <= 5
    ensures out.bytes == old(out.bytes) + [tag] + DerLength(|TaggedContents(w, tag)|) + TaggedContents(w, tag)
  {
    hide BigEndian, BytePrecision, DerLength;
    var contents;
    if tag == BOOLEAN {
      contents := [if w != 0 then 0xff else 0];
    } else {
      contents := MinimalBytes(w);
    }
    out.Put(tag);
    var octets := DERLengthEncode(out, |contents|);
    out.PutAll(contents);
  }

  /** The buffer of `DEREncodeUnsigned`: five bytes, from which leading zeros are dropped. */
  method MinimalBytes(w: nat) returns (contents: seq<byte>)
    requires w < WORD_LIMIT
    ensures contents == UnsignedContents(w) && |contents| <= 5
  {
    hide BigEndian, BytePrecision, Pow256;
    var buf: seq<byte> := [0] + BigEndian(w, 4);
    ghost var k := BytePrecision(w);
    FourBytes(w);
    BigEndianLeadingZeros(w, 4, k);
    assert buf == Zeros(5 - k) + BigEndian(w, k);
    TopByteNonZero(w);
    var bc := 4;
    while bc > 1 && buf[5 - bc] == 0
      invariant 1 <= k <= bc <= 4
    {
      bc := bc - 1;
    }
    assert bc == k;
    if buf[5 - bc] >= 0x80 {
      bc := bc + 1;
    }
    contents := buf[5 - bc..];
  }

  lemma FourBytes(w: nat)
    requires w < WORD_LIMIT
    ensures BytePrecision(w) <= 4
  {
    assert Pow256(2) == 0x1_0000 && Pow256(4) == WORD_LIMIT;
    BytePrecisionBound(w, 4);
  }

  lemma {:induction false} TopByteNonZero(w: nat)
    ensures BytePrecision(w) > 1 ==> BigEndian(w, BytePrecision(w))[0] != 0
  {
    if w >= 256 {
      TopByteNonZero(w / 256);
      if w / 256 < 256 {
        assert BytePrecision(w) == 2 && BigEndian(w, 2) == BigEndian(w / 256, 1) + [w % 256];
        assert BigEndian(w / 256, 1) == BigEndian(w / 256 / 256, 0) + [w / 256 % 256];
      }
    }
  }

  datatype UnsignedResult = NoNumber(rest: seq<byte>) | IsNumber(value: nat, rest: seq<byte>)

  function StripZeros(s: seq<byte>): seq<byte> {
    if |s| > 4 && s[0] == 0 then StripZeros(s[1..]) else s
  }

  /** `BERDecodeUnsigned`: leading zeros beyond four bytes are dropped, then the range is checked. */
  function DecodeUnsigned(s: seq<byte>, tag: byte, minValue: nat, maxValue: nat): UnsignedResult {
    if s == [] then NoNumber([])
    else if s[0] != tag then NoNumber(s[1..])
    else match DecodeLength(s[1..])
      case Definite(bc, rest) =>
        if bc > |rest| || (tag == BOOLEAN && bc != 1) || ((tag == INTEGER || tag == ENUMERATED) && bc == 0) then NoNumber(rest)
        else
          var digits := StripZeros(rest[..bc]);
          if |digits| > 4 || Fold(0, digits) < minValue || Fold(0, digits) > maxValue then NoNumber(rest[bc..])
          else IsNumber(Fold(0, digits), rest[bc..])
      case other => NoNumber(other.rest)
  }

  method BERDecodeUnsigned(source: ByteQueue, tag: byte, minValue: nat, maxValue: nat) returns (ok: bool, w: nat)
    modifies source
    ensures DecodeUnsigned(old(source.bytes), tag, minValue, maxValue)
         == if ok then IsNumber(w, source.bytes) else NoNumber(source.bytes)
  {
    hide DecodeLength, Fold, StripZeros;
    w := 0;
    var got, b := source.Get();
    if !got || b != tag {
      return false, 0;
    }
    var r := BERLengthDecode(source);
    if !r.Definite? {
      return false, 0;
    }
    var bc := r.length;
    if bc > |source.bytes| || (tag == BOOLEAN && bc != 1) || ((tag == INTEGER || tag == ENUMERATED) && bc == 0) {
      return false, 0;
    }
    var buf := source.bytes[..bc];
    source.bytes := source.bytes[bc..];
    var tooLong;
    tooLong, w := ReadUnsigned(buf);
    ok := !tooLong && minValue <= w <= maxValue;
  }

  /** The two loops of `BERDecodeUnsigned`. */
  method ReadUnsigned(buf: seq<byte>) returns (tooLong: bool, w: nat)
    ensures tooLong <==> |StripZeros(buf)| > 4
    ensures !tooLong ==> w == Fold(0, StripZeros(buf))
  {
    var ptr := buf;
    while |ptr| > 4 && ptr[0] == 0
      invariant StripZeros(ptr) == StripZeros(buf)
      decreases |ptr|
    {
      ptr := ptr[1..];
    }
    w := 0;
    tooLong := |ptr| > 4;
    if tooLong {
      return;
    }
    var i := 0;
    assert ptr[0..] == ptr;
    while i < |ptr|
      invariant 0 <= i <= |ptr| && Fold(w, ptr[i..]) == Fold(0, ptr)
    {
      assert ptr[i..][1..] == ptr[i + 1..];
      w := 256 * w + ptr[i];
      i := i + 1;
    }
  }

  lemma {:induction false} FoldLeadingZero(s: seq<byte>)
    ensures Fold(0, [0] + s) == Fold(0, s)
  {
    assert ([0] + s)[1..] == s;
  }

  /** What comes back from a value written with contents `c`. */
  lemma DecodesContents(c: seq<byte>, tag: byte, rest: seq<byte>)
    requires 1 <= |c| < LWORD_LIMIT && (tag == BOOLEAN ==> |c| == 1)
    requires |StripZeros(c)| <= 4 && Fold(0, StripZeros(c)) < WORD_LIMIT
    ensures DecodeUnsigned([tag] + DerLength(|c|) + c + rest, tag, 0, WORD_LIMIT - 1)
         == IsNumber(Fold(0, StripZeros(c)), rest)
  {
    hide DecodeLength, DerLength, Fold, StripZeros;
    var s := [tag] + DerLength(|c|) + c + rest;
    assert s[1..] == DerLength(|c|) + (c + rest);
    LengthRoundTrip(|c|, c + rest);
    assert (c + rest)[..|c|] == c && (c + rest)[|c|..] == rest;
  }

  /** Every 32-bit value comes back, under any tag but BOOLEAN; the encoding is consumed exactly. */
  lemma UnsignedRoundTrip(w: nat, tag: byte, rest: seq<byte>)
    requires w < WORD_LIMIT && tag != BOOLEAN
    ensures |TaggedContents(w, tag)| < LWORD_LIMIT
    ensures DecodeUnsigned([tag] + DerLength(|TaggedContents(w, tag)|) + TaggedContents(w, tag) + rest,
                           tag, 0, WORD_LIMIT - 1) == IsNumber(w, rest)
  {
    hide DecodeUnsigned, DerLength, BigEndian, BytePrecision, Fold, StripZeros;
    FourBytes(w);
    var c, digits := TaggedContents(w, tag), BigEndian(w, BytePrecision(w));
    FoldIsNumber(digits);
    NumberOfBigEndian(w, BytePrecision(w));
    FoldLeadingZero(digits);
    Stripped(digits);
    DecodesContents(c, tag, rest);
  }

  lemma Stripped(digits: seq<byte>)
    requires |digits| <= 4
    ensures StripZeros(digits) == digits
    ensures StripZeros([0] + digits) == if |digits| == 4 then digits else [0] + digits
  {
    assert ([0] + digits)[1..] == digits;
  }

  /** A BOOLEAN comes back as 0 or 255, so only those two values survive. */
  lemma BooleanRoundTrip(w: nat, rest: seq<byte>)
    requires w < WORD_LIMIT
    ensures DecodeUnsigned([BOOLEAN] + DerLength(1) + TaggedContents(w, BOOLEAN) + rest, BOOLEAN, 0, WORD_LIMIT - 1)
         == IsNumber(if w == 0 then 0 else 255, rest)
  {
    var c := TaggedContents(w, BOOLEAN);
    assert Fold(0, c) == Fold(256 * 0 + c[0], c[1..]) == c[0];
    hide DecodeUnsigned, DerLength;
    DecodesContents(c, BOOLEAN, rest);
  }

  // ----- numbers in octets -----

  /** The contents stand for the number, with a clear sign bit, and none of them could be left off. */
  lemma UnsignedContentsFields(w: nat)
    ensures var s := UnsignedContents(w);
            Number(s) == w && s[0] < 0x80 && (|s| > 1 && s[0] == 0 ==> s[1] >= 0x80)
  {
    hide Number, BigEndian, BytePrecision, Pow256;
    var s := BigEndian(w, BytePrecision(w));
    NumberOfBigEndian(w, BytePrecision(w));
    TopByteNonZero(w);
    NumberCons(0, s);
  }

  /** Under tag 1 there are two values; under any other tag the number is written. */
  lemma TaggedContentsIs(w: nat, tag: byte)
    ensures tag == 1 ==> TaggedContents(w, tag) == [if w == 0 then 0x00 else 0xff]
    ensures tag != 1 ==> TaggedContents(w, tag) == UnsignedContents(w)
  {
    hide UnsignedContents;
  }

  lemma {:induction false} StripZerosIs(c: seq<byte>)
    ensures Number(StripZeros(c)) == Number(c)
    ensures |StripZeros(c)| <= 4 <==> forall i :: 0 <= i < |c| - 4 ==> c[i] == 0
    decreases |c|
  {
    hide Number;
    if |c| > 4 && c[0] == 0 {
      StripZerosIs(c[1..]);
      assert c == [0] + c[1..];
      NumberCons(0, c[1..]);
      assert forall i :: 0 < i < |c| - 4 ==> c[i] == c[1..][i - 1];
    }
  }

  /** Exactly which contents are read as a number: one octet under tag 1, some under tags 2 and 10, zeros in front of
      the last four, and a number within the bounds. */
  lemma DecodedUnsigned(tag: byte, octets: seq<byte>, c: seq<byte>, rest: seq<byte>, low: nat, high: nat)
    requires DecodeLength(octets) == Definite(|c|, [])
    ensures DecodeUnsigned([tag] + octets + c + rest, tag, low, high).IsNumber? <==>
              && (tag == 1 ==> |c| == 1) && (tag == 2 || tag == 10 ==> c != [])
              && (forall i :: 0 <= i < |c| - 4 ==> c[i] == 0) && low <= Number(c) <= high
    ensures DecodeUnsigned([tag] + octets + c + rest, tag, low, high).IsNumber? ==>
              DecodeUnsigned([tag] + octets + c + rest, tag, low, high) == IsNumber(Number(c), rest)
  {
    hide DecodeLength, Fold, StripZeros, Number;
    var s := [tag] + octets + c + rest;
    assert s[1..] == octets + (c + rest);
    LengthThen(octets, |c|, c + rest);
    assert (c + rest)[..|c|] == c && (c + rest)[|c|..] == rest;
    StripZerosIs(c);
    FoldIsNumber(StripZeros(c));
  }
}
