/** Bytes, exclusive or, and big-endian numbers. */
module Bytes {
  import opened Arithmetic

  type byte = x: int | 0 <= x < 256

  /** What finishing a hash gives: too large a size is refused. */
  datatype DigestResult = InvalidArgument | Digest(bytes: seq<byte>)

  /** Bitwise exclusive or of the low `k` bits. */
  function XorBits(k: nat, a: nat, b: nat): (r: nat)
    ensures r < Pow2(k)
  {
    if k == 0 then 0 else (a + b) % 2 + 2 * XorBits(k - 1, a / 2, b / 2)
  }

  lemma XorLowBit(a: nat, b: nat, x: nat)
    ensures var r := (a + b) % 2 + 2 * x; r / 2 == x && (r + b) % 2 == a % 2
  {}

  lemma {:induction false} XorBitsCancel(k: nat, a: nat, b: nat)
    requires a < Pow2(k)
    ensures XorBits(k, XorBits(k, a, b), b) == a
  {
    if k > 0 {
      var x := XorBits(k - 1, a / 2, b / 2);
      XorBitsCancel(k - 1, a / 2, b / 2);
      XorLowBit(a, b, x);
      assert XorBits(k, a, b) == (a + b) % 2 + 2 * x;
    }
  }

  lemma {:induction false} XorBitsZero(k: nat, a: nat)
    requires a < Pow2(k)
    ensures XorBits(k, a, 0) == a && XorBits(k, 0, a) == a
  {
    if k > 0 { XorBitsZero(k - 1, a / 2); }
  }

  function Xor(a: byte, b: byte): byte {
    assert Pow2(8) == 256;
    XorBits(8, a, b)
  }

  lemma XorBitsHalves(k: nat, a: nat, b: nat)
    requires k > 0
    ensures XorBits(k, a, b) % 2 == (a % 2 + b % 2) % 2 && XorBits(k, a, b) / 2 == XorBits(k - 1, a / 2, b / 2)
  {
    var x := XorBits(k - 1, a / 2, b / 2);
    assert XorBits(k, a, b) == (a + b) % 2 + 2 * x;
    hide XorBits;
    ParityAdds(a, b);
    DivModUnique(XorBits(k, a, b), 2, x, (a + b) % 2);
  }

  lemma ParityAdds(a: nat, b: nat)
    ensures (a + b) % 2 == (a % 2 + b % 2) % 2
  {
  }

  lemma {:induction false} XorBitsAt(k: nat, a: nat, b: nat, i: nat)
    requires i < k
    ensures Bit(XorBits(k, a, b), i) == (Bit(a, i) + Bit(b, i)) % 2
  {
    hide *;
    XorBitsHalves(k, a, b);
    BitBelow(XorBits(k, a, b), i);
    BitBelow(a, i);
    BitBelow(b, i);
    if i > 0 { XorBitsAt(k - 1, a / 2, b / 2, i - 1); }
  }

  /** Every bit of the result is set where exactly one of the two is. */
  lemma XorIsBitwise(a: byte, b: byte, i: nat)
    requires i < 8
    ensures Bit(Xor(a, b), i) == if Bit(a, i) == Bit(b, i) then 0 else 1
  {
    XorBitsAt(8, a, b, i);
  }

  lemma XorCancel(a: byte, b: byte)
    ensures Xor(Xor(a, b), b) == a
  {
    assert Pow2(8) == 256;
    XorBitsCancel(8, a, b);
  }

  lemma {:induction false} XorBitsCommute(k: nat, a: nat, b: nat)
    ensures XorBits(k, a, b) == XorBits(k, b, a)
  {
    if k > 0 { XorBitsCommute(k - 1, a / 2, b / 2); }
  }

  lemma XorZero(a: byte)
    ensures Xor(a, 0) == a && Xor(0, a) == a
  {
    assert Pow2(8) == 256;
    XorBitsZero(8, a);
  }

  /** Bytewise exclusive or. */
  function XorSeq(a: seq<byte>, b: seq<byte>): (r: seq<byte>)
    requires |a| == |b|
    ensures |r| == |a|
    ensures forall i :: 0 <= i < |a| ==> r[i] == Xor(a[i], b[i])
  {
    seq<byte>(|a|, i requires 0 <= i < |a| => Xor(a[i], b[i]))
  }

  lemma XorSeqCancel(a: seq<byte>, b: seq<byte>)
    requires |a| == |b|
    ensures XorSeq(XorSeq(a, b), b) == a
  {
    forall i | 0 <= i < |a|
      ensures Xor(Xor(a[i], b[i]), b[i]) == a[i]
    {
      XorCancel(a[i], b[i]);
    }
  }

  lemma XorSeqCommutes(a: seq<byte>, b: seq<byte>)
    requires |a| == |b|
    ensures XorSeq(a, b) == XorSeq(b, a)
  {
    forall i | 0 <= i < |a|
      ensures Xor(a[i], b[i]) == Xor(b[i], a[i])
    {
      XorBitsCommute(8, a[i], b[i]);
    }
  }

  lemma XorSeqAppend(a: seq<byte>, b: seq<byte>, c: seq<byte>, d: seq<byte>)
    requires |a| == |b| && |c| == |d|
    ensures XorSeq(a + c, b + d) == XorSeq(a, b) + XorSeq(c, d)
  {
  }

  function Zeros(n: nat): (z: seq<byte>)
    ensures |z| == n && forall i :: 0 <= i < n ==> z[i] == 0
  {
    seq<byte>(n, _ => 0)
  }

  /** `n` in `len` bytes, most significant first; higher bytes of `n` are dropped. */
  function BigEndian(n: nat, len: nat): (s: seq<byte>)
    ensures |s| == len
    decreases len
  {
    if len == 0 then [] else BigEndian(n / 256, len - 1) + [n % 256]
  }

  /** The number a byte string stands for, most significant byte first. */
  function Number(s: seq<byte>): nat {
    if s == [] then 0 else 256 * Number(s[..|s| - 1]) + s[|s| - 1]
  }

  function Pow256(n: nat): (r: nat)
    ensures r > 0
  {
    if n == 0 then 1 else 256 * Pow256(n - 1)
  }

  lemma {:induction false} NumberBound(s: seq<byte>)
    ensures Number(s) < Pow256(|s|)
  {
    if s != [] { NumberBound(s[..|s| - 1]); }
  }

  lemma {:induction false} NumberOfBigEndian(n: nat, len: nat)
    requires n < Pow256(len)
    ensures Number(BigEndian(n, len)) == n
  {
    if len > 0 {
      NumberOfBigEndian(n / 256, len - 1);
      assert BigEndian(n, len)[..len - 1] == BigEndian(n / 256, len - 1);
    }
  }

  /** Every byte has its place value. */
  lemma {:induction false} BigEndianAt(n: nat, len: nat, i: nat)
    requires i < len
    ensures BigEndian(n, len)[i] == n / Pow256(len - 1 - i) % 256
  {
    if i < len - 1 {
      BigEndianAt(n / 256, len - 1, i);
      DivideTwice(n, Pow256(len - 2 - i));
    }
  }

  lemma DivideTwice(n: nat, d: nat)
    requires d > 0
    ensures n / 256 / d == n / (256 * d)
  {
    var q, r := n / 256 / d, n / 256 % d;
    DivMod(n / 256, d);
    assert n / 256 == r + q * d;
    assert 256 * (q * d) == q * (256 * d);
    DivModUnique(n, 256 * d, q, 256 * r + n % 256);
  }

  /** The first byte of a number counts most. */
  lemma {:induction false} NumberCons(b: byte, s: seq<byte>)
    ensures Number([b] + s) == b * Pow256(|s|) + Number(s)
  {
    if s == [] {
      assert Number([b]) == 256 * Number([b][..0]) + b && [b] + s == [b];
    } else {
      var n := |s| - 1;
      NumberCons(b, s[..n]);
      assert ([b] + s)[..n + 1] == [b] + s[..n];
      assert 256 * (b * Pow256(n)) == b * Pow256(n + 1);
    }
  }

  lemma {:induction false} BigEndianOfNumber(s: seq<byte>)
    ensures BigEndian(Number(s), |s|) == s
  {
    if s != [] {
      var n := |s| - 1;
      BigEndianOfNumber(s[..n]);
      assert Number(s) / 256 == Number(s[..n]) && Number(s) % 256 == s[n];
      assert s == s[..n] + [s[n]];
    }
  }

  lemma {:induction false} BigEndianZero(len: nat)
    ensures BigEndian(0, len) == Zeros(len)
  {
    if len > 0 { BigEndianZero(len - 1); }
  }

  /** Spare room in front is filled with zeros. */
  lemma {:induction false} BigEndianLeadingZeros(n: nat, len: nat, k: nat)
    requires k <= len && n < Pow256(k)
    ensures BigEndian(n, len) == Zeros(len - k) + BigEndian(n, k)
    decreases k
  {
    if k == 0 {
      BigEndianZero(len);
    } else {
      BigEndianLeadingZeros(n / 256, len - 1, k - 1);
    }
  }

  /** The chunks put together. */
  function Joined(chunks: seq<seq<byte>>): seq<byte> {
    if chunks == [] then [] else Joined(chunks[..|chunks| - 1]) + chunks[|chunks| - 1]
  }

  lemma JoinedNext(chunks: seq<seq<byte>>, i: nat)
    requires i < |chunks|
    ensures Joined(chunks[..i + 1]) == Joined(chunks[..i]) + chunks[i]
  {
    assert chunks[..i + 1][..i] == chunks[..i];
  }

  lemma {:induction false} JoinedCons(chunks: seq<seq<byte>>)
    requires chunks != []
    ensures Joined(chunks) == chunks[0] + Joined(chunks[1..])
  {
    var n := |chunks| - 1;
    if n > 0 {
      JoinedCons(chunks[..n]);
      assert chunks[..n][1..] == chunks[1..][..n - 1];
    }
  }

  lemma NothingJoined()
    ensures Joined([]) == []
  {
  }
}
