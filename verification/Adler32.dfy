/** Adler-32 with deferred reduction (adler32.cpp), against the sums of section 2.2 of RFC 1950. */
module Adler32Checksum {
  import opened Bytes

  const BASE: nat := 65521

  /** The sum of all bytes, from 1 on, without reduction. */
  function S1(data: seq<byte>): nat {
    if data == [] then 1 else S1(data[..|data| - 1]) + data[|data| - 1] as int
  }

  /** The sum of all values of the first sum, without reduction. */
  function S2(data: seq<byte>): nat {
    if data == [] then 0 else S2(data[..|data| - 1]) + S1(data)
  }

  /** The stored checksum: both sums modulo 65521, the second one first. */
  function Checksum(data: seq<byte>): nat {
    S2(data) % BASE * 65536 + S1(data) % BASE
  }

  /** Both sums start at 1 and 0 and grow by the byte, and by the first sum. */
  lemma SumsNext(data: seq<byte>, b: byte)
    ensures S1([]) == 1 && S2([]) == 0
    ensures S1(data + [b]) == S1(data) + b as int && S2(data + [b]) == S2(data) + S1(data) + b as int
  {
    assert (data + [b])[..|data|] == data;
  }

  /** The sums of two texts, from the sums of each and the length of the second. */
  lemma {:induction false} SumsAppend(a: seq<byte>, b: seq<byte>)
    ensures S1(a + b) == S1(a) + S1(b) - 1
    ensures S2(a + b) == S2(a) + S2(b) + |b| * (S1(a) - 1)
  {
    hide S1, S2;
    SumsNext([], 0);
    if b == [] {
      assert a + b == a;
    } else {
      var n := |b| - 1;
      var front, last, d := b[..n], b[n], S1(a) - 1;
      SumsAppend(a, front);
      SumsNext(a + front, last);
      SumsNext(front, last);
      assert a + b == (a + front) + [last] && b == front + [last];
      assert (n + 1) * d == n * d + d;
    }
  }

  /** The second sum in the high half, the first in the low one, both modulo 65521. */
  lemma ChecksumFields(data: seq<byte>)
    ensures Checksum(data) / 0x1_0000 == S2(data) % 65521 && Checksum(data) % 0x1_0000 == S1(data) % 65521
  {
    hide S1, S2;
  }

  /** The checksum of "Wikipedia" is 11e60398. */
  lemma KnownChecksum()
    ensures Checksum([87, 105, 107, 105, 112, 101, 100, 105, 97]) == 0x11e6_0398
  {
    hide S1, S2;
    SumsNext([], 87);
    SumsNext([87], 105);
    SumsNext([87, 105], 107);
    SumsNext([87, 105, 107], 105);
    SumsNext([87, 105, 107, 105], 112);
    SumsNext([87, 105, 107, 105, 112], 101);
    SumsNext([87, 105, 107, 105, 112, 101], 100);
    SumsNext([87, 105, 107, 105, 112, 101, 100], 105);
    SumsNext([87, 105, 107, 105, 112, 101, 100, 105], 97);
    assert [] + [87] == [87] && [87] + [105] == [87, 105] && [87, 105] + [107] == [87, 105, 107];
    assert [87, 105, 107] + [105] == [87, 105, 107, 105] && [87, 105, 107, 105] + [112] == [87, 105, 107, 105, 112];
    assert [87, 105, 107, 105, 112] + [101] == [87, 105, 107, 105, 112, 101];
    assert [87, 105, 107, 105, 112, 101] + [100] == [87, 105, 107, 105, 112, 101, 100];
    assert [87, 105, 107, 105, 112, 101, 100] + [105] == [87, 105, 107, 105, 112, 101, 100, 105];
    assert [87, 105, 107, 105, 112, 101, 100, 105] + [97] == [87, 105, 107, 105, 112, 101, 100, 105, 97];
  }

  /** The two sums up to multiples of the base. */
  ghost predicate Tracks(data: seq<byte>, s1: nat, s2: nat, k1: int, k2: int) {
    S1(data) == s1 + BASE * k1 && S2(data) == s2 + BASE * k2
  }

  lemma TracksNext(data: seq<byte>, b: byte, s1: nat, s2: nat, k1: int, k2: int)
    requires Tracks(data, s1, s2, k1, k2)
    ensures Tracks(data + [b], s1 + b as int, s2 + s1 + b as int, k1, k2 + k1)
  {
    assert (data + [b])[..|data|] == data;
  }

  /** Reducing both sums, the first one by at most one subtraction, keeps them up to multiples. */
  lemma TracksReduced(data: seq<byte>, s1: nat, s2: nat, k1: int, k2: int)
    requires Tracks(data, s1, s2, k1, k2)
    ensures s1 >= BASE ==> Tracks(data, s1 - BASE, s2, k1 + 1, k2)
    ensures Tracks(data, s1, s2 % BASE, k1, k2 + s2 / BASE)
  {
  }

  lemma TracksAtStart(data: seq<byte>)
    ensures Tracks(data, S1(data) % BASE, S2(data) % BASE, S1(data) / BASE, S2(data) / BASE)
  {
    hide S1, S2;
  }

  /** Reduced sums are the remainders. */
  lemma TracksExactly(data: seq<byte>, s1: nat, s2: nat, k1: int, k2: int)
    requires Tracks(data, s1, s2, k1, k2) && s1 < BASE && s2 < BASE
    ensures s1 == S1(data) % BASE && s2 == S2(data) % BASE
  {
    hide S1, S2;
  }

  /** More than the first sum can be while it adds eight bytes to a reduced one. */
  const STEP: nat := 67560

  /** `unsigned long` of 32 bits. */
  function Wrap(n: nat): nat {
    n % 0x1_0000_0000
  }

  lemma NoWrap(n: nat)
    requires n < 0x1_0000_0000
    ensures Wrap(n) == n
  {
  }

  /** At most eight bytes without reduction, in 32 bits: nothing wraps around. */
  method AddBytes(s1: nat, s2: nat, bytes: seq<byte>, ghost data: seq<byte>, ghost k1: int, ghost k2: int)
    returns (a: nat, b: nat, ghost k: int)
    requires |bytes| <= 8 && s1 < BASE && s2 + STEP * |bytes| < 0x1_0000_0000 && Tracks(data, s1, s2, k1, k2)
    ensures Tracks(data + bytes, a, b, k1, k) && a < 2 * BASE && b <= s2 + STEP * |bytes|
  {
    hide Tracks, Wrap;
    a, b, k := s1, s2, k2;
    assert data + bytes[..0] == data;
    for i := 0 to |bytes|
      invariant a <= s1 + 255 * i && b <= s2 + STEP * i && Tracks(data + bytes[..i], a, b, k1, k)
    {
      assert data + bytes[..i + 1] == (data + bytes[..i]) + [bytes[i]];
      TracksNext(data + bytes[..i], bytes[i], a, b, k1, k);
      NoWrap(a + bytes[i] as int);
      NoWrap(b + a + bytes[i] as int);
      a := Wrap(a + bytes[i] as int);
      b := Wrap(b + a);
      k := k + k1;
    }
    assert bytes[..|bytes|] == bytes;
  }

  /** Bytes until the next reduction of the second sum. */
  function Until(length: nat): nat {
    if length % 0x8000 == 0 then 0x8000 else length % 0x8000
  }

  /** The second sum has room in 32 bits for every byte up to its next reduction. */
  predicate Room(s2: nat, length: nat) {
    s2 + STEP * Until(length) <= BASE - 1 + STEP * 0x8000 < 0x1_0000_0000
  }

  lemma ReducedHasRoom(s2: nat, length: nat)
    ensures s2 < BASE ==> Room(s2, length)
  {
  }

  lemma RoomForGroup(s2: nat, length: nat)
    requires Room(s2, length) && length % 8 == 0 && length > 0
    ensures s2 + STEP * 8 < 0x1_0000_0000
  {
  }

  lemma RoomAfterGroup(before: nat, s2: nat, length: nat)
    requires Room(before, length + 8) && s2 <= before + STEP * 8 && length % 8 == 0
    ensures length % 0x8000 != 0 ==> Room(s2, length)
  {
  }

  /** The first sum less the base once if it reaches it, and the second one reduced if it is time. */
  method Reduce(a: nat, b: nat, both: bool, ghost data: seq<byte>, ghost k1: int, ghost k2: int)
    returns (c: nat, d: nat, ghost c1: int, ghost c2: int)
    requires Tracks(data, a, b, k1, k2) && a < 2 * BASE
    ensures Tracks(data, c, d, c1, c2) && c < BASE && d == if both then b % BASE else b
  {
    hide Tracks;
    c, d, c1, c2 := a, b, k1, k2;
    TracksReduced(data, a, b, k1, k2);
    if a >= BASE {
      c, c1 := a - BASE, k1 + 1;
    }
    TracksReduced(data, c, b, c1, k2);
    if both {
      d, c2 := b % BASE, k2 + b / BASE;
    }
  }

  /** Groups of eight bytes; the second sum is reduced whenever a multiple of 0x8000 bytes is left. */
  method AddGroups(s1: nat, s2: nat, input: seq<byte>, ghost data: seq<byte>, ghost c1: int, ghost c2: int)
    returns (a: nat, b: nat, ghost k1: int, ghost k2: int)
    requires |input| % 8 == 0 && s1 < BASE && s2 < BASE && Tracks(data, s1, s2, c1, c2)
    ensures a < BASE && b < BASE && Tracks(data + input, a, b, k1, k2)
  {
    hide Tracks, Room, Until;
    a, b, k1, k2 := s1, s2, c1, c2;
    var position: nat, length: nat := 0, |input|;
    ReducedHasRoom(b, length);
    assert data + input[..0] == data;
    while length > 0
      invariant position + length == |input| && length % 8 == 0
      invariant a < BASE && Tracks(data + input[..position], a, b, k1, k2)
      invariant Room(b, length) && (length == 0 ==> b < BASE)
    {
      ghost var before := b;
      RoomForGroup(b, length);
      a, b, k2 := AddBytes(a, b, input[position..position + 8], data + input[..position], k1, k2);
      assert (data + input[..position]) + input[position..position + 8] == data + input[..position + 8];
      position, length := position + 8, length - 8;
      RoomAfterGroup(before, b, length);
      a, b, k1, k2 := Reduce(a, b, length % 0x8000 == 0, data + input[..position], k1, k2);
      ReducedHasRoom(b, length);
    }
    assert input[..position] == input;
  }

  lemma Fits16(n: nat)
    requires n < BASE
    ensures n % 65536 == n
  {
  }

  class Adler32 {
    var s1: nat
    var s2: nat
    /** Everything since the last reset. */
    ghost var fed: seq<byte>

    /** Both sums are reduced between calls, so that they fit in 16 bits. */
    ghost predicate Valid()
      reads this
    {
      s1 == S1(fed) % BASE && s2 == S2(fed) % BASE
    }

    constructor ()
      ensures Valid() && fed == []
    {
      s1, s2, fed := 1, 0, [];
    }

    method Reset()
      modifies this
      ensures Valid() && fed == []
    {
      s1, s2, fed := 1, 0, [];
    }

    method Update(input: seq<byte>)
      requires Valid()
      modifies this
      ensures Valid() && fed == old(fed) + input
    {
      hide S1, S2, Tracks;
      ghost var k1, k2 := S1(fed) / BASE, S2(fed) / BASE;
      TracksAtStart(fed);
      var odd := |input| % 8;
      var a: nat, b: nat := s1, s2;
      if odd != 0 {
        a, b, k2 := AddBytes(a, b, input[..odd], fed, k1, k2);
        a, b, k1, k2 := Reduce(a, b, true, fed + input[..odd], k1, k2);
      }
      assert odd == 0 ==> fed + input[..odd] == fed;
      a, b, k1, k2 := AddGroups(a, b, input[odd..], fed + input[..odd], k1, k2);
      assert (fed + input[..odd]) + input[odd..] == fed + input;
      TracksExactly(fed + input, a, b, k1, k2);
      Fits16(a);
      Fits16(b);
      s1, s2, fed := a % 65536, b % 65536, fed + input;
    }

    /** The first `size` bytes of the checksum, most significant first. */
    method TruncatedFinal(size: nat) returns (r: DigestResult)
      requires Valid()
      modifies this
      ensures r.InvalidArgument? <==> size > 4
      ensures r.InvalidArgument? ==> unchanged(this)
      ensures r.Digest? ==> r.bytes == BigEndian(Checksum(old(fed)), 4)[..size] && Valid() && fed == []
    {
      if size > 4 {
        return InvalidArgument;
      }
      var hash := [];
      if size >= 1 {
        hash := hash + [s2 / 256];
      }
      if size >= 2 {
        hash := hash + [s2 % 256];
      }
      if size >= 3 {
        hash := hash + [s1 / 256];
      }
      if size >= 4 {
        hash := hash + [s1 % 256];
      }
      FourBytes(s1, s2);
      r := Digest(hash);
      Reset();
    }
  }

  lemma FourBytes(s1: nat, s2: nat)
    requires s1 < 65536 && s2 < 65536
    ensures BigEndian(s2 * 65536 + s1, 4) == [s2 / 256, s2 % 256, s1 / 256, s1 % 256]
  {
  }

  /** Any division into updates gives the checksum of the whole. */
  method ChecksumChunks(chunks: seq<seq<byte>>) returns (r: seq<byte>)
    ensures r == BigEndian(Checksum(Joined(chunks)), 4)
  {
    hide Checksum;
    var adler := new Adler32();
    for i := 0 to |chunks|
      invariant adler.Valid() && adler.fed == Joined(chunks[..i]) && fresh(adler)
    {
      JoinedNext(chunks, i);
      adler.Update(chunks[i]);
    }
    assert chunks[..|chunks|] == chunks;
    var outcome := adler.TruncatedFinal(4);
    r := outcome.bytes;
  }

  /** Reducing after every byte, as section 2.2 describes it, gives the same sums. */
  function ByteByByte(data: seq<byte>): (nat, nat) {
    if data == [] then (1, 0)
    else
      var (a, b) := ByteByByte(data[..|data| - 1]);
      var a' := (a + data[|data| - 1] as int) % BASE;
      (a', (b + a') % BASE)
  }

  lemma {:induction false} ByteByByteIsChecksum(data: seq<byte>)
    ensures ByteByByte(data) == (S1(data) % BASE, S2(data) % BASE)
  {
    if data != [] {
      var front, last := data[..|data| - 1], data[|data| - 1];
      ByteByByteIsChecksum(front);
      AddReduced(S1(front), last);
      AddReduced(S2(front), S1(data) % BASE);
      AddReduced(S1(data), S2(front));
    }
  }

  lemma AddReduced(m: nat, n: nat)
    ensures (m % BASE + n) % BASE == (m + n) % BASE
  {
  }
}
