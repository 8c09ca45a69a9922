/** Counter with CBC-MAC, as sections 2.2 to 2.5 of RFC 3610 define it. */
module CcmSpec {
  import opened Bytes

  const BLOCK := 16

  type Block = s: seq<byte> | |s| == BLOCK witness Zeros(16)

  /** The block cipher under some key: any function on blocks. */
  type Cipher = Block -> Block

  // ----- CBC-MAC -----

  /** Chains the whole blocks of `data` from chaining value `x`; an incomplete last block is not
      chained. */
  function CbcMac(e: Cipher, x: Block, data: seq<byte>): Block
    decreases |data|
  {
    if |data| < BLOCK then x else CbcMac(e, e(XorSeq(x, data[..BLOCK])), data[BLOCK..])
  }

  /** The incomplete last block. */
  function Tail(s: seq<byte>): (t: seq<byte>)
    ensures |t| < BLOCK && |t| == |s| % BLOCK
    ensures t == s[|s| - |t|..]
    decreases |s|
  {
    if |s| < BLOCK then s
    else
      var rest := s[BLOCK..];
      assert rest[|rest| - |rest| % BLOCK..] == s[|s| - |rest| % BLOCK..];
      Tail(rest)
  }

  /** `s` with zeros up to a whole number of blocks. */
  function Pad(s: seq<byte>): (r: seq<byte>)
    ensures |r| % BLOCK == 0 && |s| <= |r| < |s| + BLOCK
    ensures r[..|s|] == s && forall i :: |s| <= i < |r| ==> r[i] == 0
  {
    s + Zeros((BLOCK - |s| % BLOCK) % BLOCK)
  }

  lemma {:induction false} CbcMacAppend(e: Cipher, x: Block, a: seq<byte>, b: seq<byte>)
    requires |a| % BLOCK == 0
    ensures CbcMac(e, x, a + b) == CbcMac(e, CbcMac(e, x, a), b)
    decreases |a|
  {
    if a == [] {
      assert a + b == b;
    } else {
      assert (a + b)[..BLOCK] == a[..BLOCK] && (a + b)[BLOCK..] == a[BLOCK..] + b;
      CbcMacAppend(e, e(XorSeq(x, a[..BLOCK])), a[BLOCK..], b);
    }
  }

  /** Chaining `s` and then `t` depends only on the chaining value and the tail `s` left behind. */
  lemma {:induction false} CbcMacResumes(e: Cipher, x: Block, s: seq<byte>, t: seq<byte>)
    ensures CbcMac(e, x, s + t) == CbcMac(e, CbcMac(e, x, s), Tail(s) + t)
    ensures Tail(s + t) == Tail(Tail(s) + t)
    decreases |s|
  {
    if |s| >= BLOCK {
      assert (s + t)[..BLOCK] == s[..BLOCK] && (s + t)[BLOCK..] == s[BLOCK..] + t;
      CbcMacResumes(e, e(XorSeq(x, s[..BLOCK])), s[BLOCK..], t);
    }
  }

  /** Xoring an incomplete block into the chaining value and encrypting, if there is one, is what
      padding with zeros does. */
  lemma CbcMacPads(e: Cipher, x: Block, s: seq<byte>)
    ensures CbcMac(e, x, Pad(s))
         == if Tail(s) == [] then CbcMac(e, x, s)
            else e(XorPrefix(CbcMac(e, x, s), Tail(s)))
  {
    hide CbcMac, Tail;
    var z := Zeros((BLOCK - |s| % BLOCK) % BLOCK);
    CbcMacResumes(e, x, s, z);
    var y := CbcMac(e, x, s);
    if Tail(s) == [] {
      assert z == [] && s + z == s;
    } else {
      OneBlock(e, y, Tail(s) + z);
      XorPrefixPads(y, Tail(s));
    }
  }

  lemma OneBlock(e: Cipher, x: Block, b: Block)
    ensures CbcMac(e, x, b) == e(XorSeq(x, b))
  {
    assert b[..BLOCK] == b && b[BLOCK..] == [];
  }

  /** `xorbuf(x, d, |d|)`. */
  function XorPrefix(x: Block, d: seq<byte>): (r: Block)
    requires |d| <= BLOCK
  {
    XorSeq(x[..|d|], d) + x[|d|..]
  }

  lemma XorPrefixPads(x: Block, d: seq<byte>)
    requires |d| <= BLOCK
    ensures XorPrefix(x, d) == XorSeq(x, d + Zeros(BLOCK - |d|))
  {
    forall i | |d| <= i < BLOCK
      ensures Xor(x[i], 0) == x[i]
    {
      XorZero(x[i]);
    }
  }

  // ----- formatting -----

  /** Length field size for a nonce; the nonce has 15 - L bytes. */
  function LengthSize(nonce: seq<byte>): (l: nat)
    requires 7 <= |nonce| <= 13
    ensures 2 <= l <= 8
  {
    15 - |nonce|
  }

  /** The first block: flags, nonce, message length. */
  function FirstBlock(nonce: seq<byte>, tagSize: nat, headerLength: nat, messageLength: nat): Block
    requires 7 <= |nonce| <= 13 && 4 <= tagSize <= 16 && tagSize % 2 == 0
  {
    var l := LengthSize(nonce);
    [(if headerLength > 0 then 64 else 0) + 8 * ((tagSize - 2) / 2) + (l - 1)] + nonce + BigEndian(messageLength, l)
  }

  /** The encoding of the header length that precedes the header. */
  function HeaderPrefix(length: nat): (r: seq<byte>)
    ensures |r| <= 10
  {
    if length == 0 then []
    else if length < 0x1_0000 - 0x100 then BigEndian(length, 2)
    else if length < 0x1_0000_0000 then [0xff, 0xfe] + BigEndian(length, 4)
    else [0xff, 0xff] + BigEndian(length, 8)
  }

  /** Everything that is authenticated, as whole blocks. */
  function Formatted(nonce: seq<byte>, tagSize: nat, header: seq<byte>, message: seq<byte>): (r: seq<byte>)
    requires 7 <= |nonce| <= 13 && 4 <= tagSize <= 16 && tagSize % 2 == 0
  {
    FirstBlock(nonce, tagSize, |header|, |message|) + Pad(HeaderPrefix(|header|) + header) + Pad(message)
  }

  // ----- the key stream -----

  /** Counter block number `i`. */
  function CounterBlock(nonce: seq<byte>, i: nat): Block
    requires 7 <= |nonce| <= 13
  {
    [LengthSize(nonce) - 1] + nonce + BigEndian(i, LengthSize(nonce))
  }

  /** The initial counter block, as it is written out. */
  lemma CounterBlockZero(nonce: seq<byte>)
    requires 7 <= |nonce| <= 13
    ensures CounterBlock(nonce, 0) == [LengthSize(nonce) - 1] + nonce + Zeros(LengthSize(nonce))
  {
    BigEndianZero(LengthSize(nonce));
  }

  /** Byte `pos` of the key stream. */
  function KeyByte(e: Cipher, nonce: seq<byte>, pos: nat): byte
    requires 7 <= |nonce| <= 13
  {
    e(CounterBlock(nonce, pos / BLOCK))[pos % BLOCK]
  }

  /** `n` bytes of the key stream from `pos` on. */
  function KeyStream(e: Cipher, nonce: seq<byte>, pos: nat, n: nat): (r: seq<byte>)
    requires 7 <= |nonce| <= 13
    ensures |r| == n && forall i :: 0 <= i < n ==> r[i] == KeyByte(e, nonce, pos + i)
  {
    seq<byte>(n, i requires i >= 0 => KeyByte(e, nonce, pos + i))
  }

  // ----- the results -----

  /** The message encrypted from counter block 1 on. */
  function Ciphertext(e: Cipher, nonce: seq<byte>, message: seq<byte>): seq<byte>
    requires 7 <= |nonce| <= 13
  {
    XorSeq(message, KeyStream(e, nonce, BLOCK, |message|))
  }

  /** The tag: the first bytes of the CBC-MAC, encrypted with counter block 0. */
  function Tag(e: Cipher, nonce: seq<byte>, tagSize: nat, size: nat, header: seq<byte>, message: seq<byte>): seq<byte>
    requires 7 <= |nonce| <= 13 && 4 <= tagSize <= 16 && tagSize % 2 == 0 && size <= BLOCK
  {
    XorSeq(CbcMac(e, Zeros(BLOCK), Formatted(nonce, tagSize, header, message))[..size],
           KeyStream(e, nonce, 0, size))
  }

  /** Taking the encryption of counter block 0 off a tag leaves the CBC-MAC of the formatted blocks. */
  lemma TagUnmasked(e: Cipher, nonce: seq<byte>, tagSize: nat, size: nat, header: seq<byte>, message: seq<byte>)
    requires 7 <= |nonce| <= 13 && 4 <= tagSize <= 16 && tagSize % 2 == 0 && size <= BLOCK
    ensures |Tag(e, nonce, tagSize, size, header, message)| == size
    ensures XorSeq(Tag(e, nonce, tagSize, size, header, message), e(CounterBlock(nonce, 0))[..size])
         == CbcMac(e, Zeros(BLOCK), Formatted(nonce, tagSize, header, message))[..size]
  {
    hide CbcMac, Formatted, CounterBlock, XorSeq;
    assert KeyStream(e, nonce, 0, size) == e(CounterBlock(nonce, 0))[..size];
    XorSeqCancel(CbcMac(e, Zeros(BLOCK), Formatted(nonce, tagSize, header, message))[..size], KeyStream(e, nonce, 0, size));
  }

  /** Byte i of a message is xored with byte i % 16 of the encryption of counter block 1 + i / 16. */
  lemma CiphertextAt(e: Cipher, nonce: seq<byte>, message: seq<byte>, i: nat)
    requires 7 <= |nonce| <= 13 && i < |message|
    ensures |Ciphertext(e, nonce, message)| == |message|
    ensures Ciphertext(e, nonce, message)[i] == Xor(message[i], e(CounterBlock(nonce, 1 + i / BLOCK))[i % BLOCK])
  {
    hide Xor, CounterBlock;
  }

  /** Counter block i: the flags are the size of its length field less one, then the nonce, then i. */
  lemma CounterBlockFields(nonce: seq<byte>, i: nat)
    requires 7 <= |nonce| <= 13 && i < Pow256(15 - |nonce|)
    ensures var b := CounterBlock(nonce, i);
            b[0] == 14 - |nonce| && b[1..1 + |nonce|] == nonce && Number(b[1 + |nonce|..]) == i
  {
    hide Pow256, BigEndian;
    NumberOfBigEndian(i, 15 - |nonce|);
  }

  /** The header length in two octets below 2^16 - 2^8, behind ff fe in four below 2^32, otherwise behind ff ff in eight. */
  lemma HeaderPrefixFields(length: nat)
    requires length < 0x1_0000_0000_0000_0000
    ensures var p := HeaderPrefix(length);
            if length == 0 then p == []
            else if length < 0xff00 then |p| == 2 && Number(p) == length
            else if length < 0x1_0000_0000 then |p| == 6 && p[..2] == [0xff, 0xfe] && Number(p[2..]) == length
            else |p| == 10 && p[..2] == [0xff, 0xff] && Number(p[2..]) == length
  {
    assert Pow256(2) == 0x1_0000 && Pow256(4) == 0x1_0000_0000;
    assert Pow256(6) == 0x1_0000_0000_0000 && Pow256(8) == 0x1_0000_0000_0000_0000;
    hide Pow256, BigEndian, Number;
    if 0 < length < 0xff00 {
      NumberOfBigEndian(length, 2);
    } else if length < 0x1_0000_0000 {
      NumberOfBigEndian(length, 4);
    } else {
      NumberOfBigEndian(length, 8);
    }
  }

  /** What is authenticated: the first block; header length and header, and zeros to the end of a block; the message,
      and zeros to the end of a block. */
  lemma FormattedLayout(nonce: seq<byte>, tagSize: nat, header: seq<byte>, message: seq<byte>, x: nat, y: nat)
    requires 7 <= |nonce| <= 13 && 4 <= tagSize <= 16 && tagSize % 2 == 0 && x < BLOCK && y < BLOCK
    requires (|HeaderPrefix(|header|)| + |header| + x) % BLOCK == 0 && (|message| + y) % BLOCK == 0
    ensures Formatted(nonce, tagSize, header, message)
         == FirstBlock(nonce, tagSize, |header|, |message|) + HeaderPrefix(|header|) + header + Zeros(x) + message + Zeros(y)
  {
    hide FirstBlock, HeaderPrefix;
    var h := HeaderPrefix(|header|) + header;
    PadIs(h, x);
    PadIs(message, y);
    assert Formatted(nonce, tagSize, header, message)
        == FirstBlock(nonce, tagSize, |header|, |message|) + (h + Zeros(x)) + (message + Zeros(y));
  }

  lemma PadIs(s: seq<byte>, x: nat)
    requires x < BLOCK && (|s| + x) % BLOCK == 0
    ensures Pad(s) == s + Zeros(x)
  {
  }

  /** Decrypting an encryption gives the message back. */
  lemma DecryptionInverts(e: Cipher, nonce: seq<byte>, message: seq<byte>)
    requires 7 <= |nonce| <= 13
    ensures Ciphertext(e, nonce, Ciphertext(e, nonce, message)) == message
  {
    XorSeqCancel(message, KeyStream(e, nonce, BLOCK, |message|));
  }

  // ----- the formatting is unambiguous -----

  /** Lengths CCM admits: the message fits its length field, the header fits 64 bits. */
  ghost predicate WithinBounds(nonce: seq<byte>, header: seq<byte>, message: seq<byte>)
    requires 7 <= |nonce| <= 13
  {
    |message| < Pow256(LengthSize(nonce)) && |header| < 0x1_0000_0000_0000_0000
  }

  lemma FirstBlockInjective(n1: seq<byte>, t1: nat, h1: nat, m1: nat, n2: seq<byte>, t2: nat, h2: nat, m2: nat)
    requires 7 <= |n1| <= 13 && 4 <= t1 <= 16 && t1 % 2 == 0 && m1 < Pow256(LengthSize(n1))
    requires 7 <= |n2| <= 13 && 4 <= t2 <= 16 && t2 % 2 == 0 && m2 < Pow256(LengthSize(n2))
    requires FirstBlock(n1, t1, h1, m1) == FirstBlock(n2, t2, h2, m2)
    ensures n1 == n2 && t1 == t2 && m1 == m2 && (h1 == 0 <==> h2 == 0)
  {
    hide Pow256, BigEndian, FirstBlock;
    FirstBlockFields(n1, t1, h1, m1);
    FirstBlockFields(n2, t2, h2, m2);
  }

  lemma FirstBlockFields(nonce: seq<byte>, t: nat, h: nat, m: nat)
    requires 7 <= |nonce| <= 13 && 4 <= t <= 16 && t % 2 == 0 && m < Pow256(LengthSize(nonce))
    ensures var b, l := FirstBlock(nonce, t, h, m), LengthSize(nonce);
      && b[0] % 8 == l - 1 && b[0] / 64 == (if h > 0 then 1 else 0) && b[0] % 64 / 8 * 2 + 2 == t
      && b[1..16 - l] == nonce && Number(b[16 - l..]) == m
  {
    hide Pow256, BigEndian;
    NumberOfBigEndian(m, LengthSize(nonce));
  }

  /** The header length can be read off the start of a header prefix, whatever follows. */
  lemma HeaderPrefixInjective(a: nat, b: nat, s: seq<byte>, t: seq<byte>)
    requires 0 < a < 0x1_0000_0000_0000_0000 && 0 < b < 0x1_0000_0000_0000_0000
    requires HeaderPrefix(a) + s == HeaderPrefix(b) + t
    ensures a == b && s == t
  {
    hide BigEndian, Number;
    var u, v := HeaderPrefix(a) + s, HeaderPrefix(b) + t;
    PrefixForm(a);
    PrefixForm(b);
    assert u[0] == HeaderPrefix(a)[0] && u[1] == HeaderPrefix(a)[1];
    assert v[0] == HeaderPrefix(b)[0] && v[1] == HeaderPrefix(b)[1];
    var n := |HeaderPrefix(a)|;
    assert |HeaderPrefix(b)| == n;
    assert u[..n] == HeaderPrefix(a) && v[..n] == HeaderPrefix(b);
    assert s == u[n..] && t == v[n..];
  }

  /** The first two bytes tell the three encodings apart, and the number is in the rest. */
  lemma PrefixForm(a: nat)
    requires 0 < a < 0x1_0000_0000_0000_0000
    ensures var p := HeaderPrefix(a);
      if a < 0xff00 then |p| == 2 && p[0] < 0xff && Number(p) == a
      else if a < 0x1_0000_0000 then |p| == 6 && p[0] == 0xff && p[1] == 0xfe && Number(p[2..]) == a
      else |p| == 10 && p[0] == 0xff && p[1] == 0xff && Number(p[2..]) == a
  {
    hide BigEndian;
    var p := HeaderPrefix(a);
    assert Pow256(0) == 1 && Pow256(1) == 256 && Pow256(2) == 0x1_0000 && Pow256(3) == 0x100_0000 && Pow256(4) == 0x1_0000_0000;
    assert Pow256(5) == 0x100_0000_0000 && Pow256(6) == 0x1_0000_0000_0000
        && Pow256(7) == 0x100_0000_0000_0000 && Pow256(8) == 0x1_0000_0000_0000_0000;
    if a < 0xff00 {
      NumberOfBigEndian(a, 2);
      assert Number(p) == 256 * Number(p[..1]) + p[1] && Number(p[..1]) == 256 * Number(p[..1][..0]) + p[0];
    } else if a < 0x1_0000_0000 {
      NumberOfBigEndian(a, 4);
      assert p[2..] == BigEndian(a, 4);
    } else {
      NumberOfBigEndian(a, 8);
      assert p[2..] == BigEndian(a, 8);
    }
  }

  /** The authenticated blocks determine the nonce, the tag size, the header and the message. */
  lemma FormattedInjective(n1: seq<byte>, t1: nat, h1: seq<byte>, m1: seq<byte>,
                           n2: seq<byte>, t2: nat, h2: seq<byte>, m2: seq<byte>)
    requires 7 <= |n1| <= 13 && 4 <= t1 <= 16 && t1 % 2 == 0 && WithinBounds(n1, h1, m1)
    requires 7 <= |n2| <= 13 && 4 <= t2 <= 16 && t2 % 2 == 0 && WithinBounds(n2, h2, m2)
    requires Formatted(n1, t1, h1, m1) == Formatted(n2, t2, h2, m2)
    ensures n1 == n2 && t1 == t2 && h1 == h2 && m1 == m2
  {
    hide FirstBlock, HeaderPrefix, Pad, Pow256;
    var f1, f2 := Formatted(n1, t1, h1, m1), Formatted(n2, t2, h2, m2);
    assert f1[..BLOCK] == FirstBlock(n1, t1, |h1|, |m1|) && f2[..BLOCK] == FirstBlock(n2, t2, |h2|, |m2|);
    FirstBlockInjective(n1, t1, |h1|, |m1|, n2, t2, |h2|, |m2|);
    var p1, p2 := HeaderPrefix(|h1|) + h1, HeaderPrefix(|h2|) + h2;
    assert f1[BLOCK..] == Pad(p1) + Pad(m1) && f2[BLOCK..] == Pad(p2) + Pad(m2);
    PadsInjective(p1, m1, p2, m2);
    if |h1| > 0 { HeaderInjective(h1, h2); }
  }

  lemma PadsInjective(p1: seq<byte>, m1: seq<byte>, p2: seq<byte>, m2: seq<byte>)
    requires Pad(p1) + Pad(m1) == Pad(p2) + Pad(m2) && |m1| == |m2|
    ensures m1 == m2 && Pad(p1) == Pad(p2)
  {
    var f := Pad(p1) + Pad(m1);
    assert |Pad(m1)| == |Pad(m2)|;
    var n := |Pad(p1)|;
    assert Pad(p1) == f[..n] && Pad(m1) == f[n..] && Pad(p2) == f[..n] && Pad(m2) == f[n..];
    assert m1 == Pad(m1)[..|m1|] && m2 == Pad(m2)[..|m2|];
  }

  lemma HeaderInjective(h1: seq<byte>, h2: seq<byte>)
    requires 0 < |h1| < 0x1_0000_0000_0000_0000 && 0 < |h2| < 0x1_0000_0000_0000_0000
    requires Pad(HeaderPrefix(|h1|) + h1) == Pad(HeaderPrefix(|h2|) + h2)
    ensures h1 == h2
  {
    hide HeaderPrefix, Pad;
    var p1, p2 := HeaderPrefix(|h1|) + h1, HeaderPrefix(|h2|) + h2;
    var q1, q2 := h1 + Pad(p1)[|p1|..], h2 + Pad(p2)[|p2|..];
    assert Pad(p1) == HeaderPrefix(|h1|) + q1 by { assert Pad(p1) == p1 + Pad(p1)[|p1|..]; }
    assert Pad(p2) == HeaderPrefix(|h2|) + q2 by { assert Pad(p2) == p2 + Pad(p2)[|p2|..]; }
    HeaderPrefixInjective(|h1|, |h2|, q1, q2);
    assert h1 == q1[..|h1|] && h2 == q2[..|h2|];
  }

  /** No first block is ever a counter block, so the two uses of the cipher do not collide. */
  lemma FirstBlockIsNoCounter(nonce: seq<byte>, tagSize: nat, h: nat, m: nat, nonce': seq<byte>, i: nat)
    requires 7 <= |nonce| <= 13 && 4 <= tagSize <= 16 && tagSize % 2 == 0 && 7 <= |nonce'| <= 13
    ensures FirstBlock(nonce, tagSize, h, m) != CounterBlock(nonce', i)
  {
    assert FirstBlock(nonce, tagSize, h, m)[0] >= 8 && CounterBlock(nonce', i)[0] <= 7;
  }

  // ----- counters as 128-bit numbers -----

  /** The counter block reached from `register` after `k` increments: a 128-bit addition. */
  function AddCounter(register: Block, k: nat): Block {
    BigEndian(Number(register) + k, BLOCK)
  }

  lemma {:induction false} BigEndianJoin(p: seq<byte>, k: nat, len: nat)
    requires k < Pow256(len)
    ensures BigEndian(Number(p + Zeros(len)) + k, |p| + len) == p + BigEndian(k, len)
    decreases len
  {
    if len == 0 {
      assert p + Zeros(0) == p;
      BigEndianOfNumber(p);
      assert p + BigEndian(k, 0) == p;
    } else {
      var n := Number(p + Zeros(len));
      assert (p + Zeros(len))[..|p| + len - 1] == p + Zeros(len - 1);
      assert n == 256 * Number(p + Zeros(len - 1));
      assert (n + k) / 256 == Number(p + Zeros(len - 1)) + k / 256 && (n + k) % 256 == k % 256;
      BigEndianJoin(p, k / 256, len - 1);
      assert p + BigEndian(k, len) == (p + BigEndian(k / 256, len - 1)) + [k % 256];
    }
  }

  /** As long as the count fits the length field, 128-bit addition stays within it. */
  lemma CounterIsAddition(nonce: seq<byte>, k: nat)
    requires 7 <= |nonce| <= 13 && k < Pow256(LengthSize(nonce))
    ensures AddCounter(CounterBlock(nonce, 0), k) == CounterBlock(nonce, k)
  {
    var p, l := [LengthSize(nonce) - 1] + nonce, LengthSize(nonce);
    BigEndianZero(l);
    assert CounterBlock(nonce, 0) == p + Zeros(l);
    BigEndianJoin(p, k, l);
  }

  /** The low bytes of a longer big-endian number are the shorter one. */
  lemma {:induction false} BigEndianLow(n: nat, len: nat, short: nat)
    requires short <= len
    ensures BigEndian(n, len)[len - short..] == BigEndian(n, short)
    decreases short
  {
    if short > 0 {
      BigEndianLow(n / 256, len - 1, short - 1);
      assert BigEndian(n, len)[len - short..] == BigEndian(n / 256, len - 1)[len - short..] + [n % 256];
    }
  }

  /** Chaining the formatted blocks from zero is encrypting the first block and chaining the rest. */
  lemma FormattedChain(e: Cipher, nonce: seq<byte>, tagSize: nat, header: seq<byte>, message: seq<byte>)
    requires 7 <= |nonce| <= 13 && 4 <= tagSize <= 16 && tagSize % 2 == 0
    ensures CbcMac(e, Zeros(BLOCK), Formatted(nonce, tagSize, header, message))
         == CbcMac(e, CbcMac(e, e(FirstBlock(nonce, tagSize, |header|, |message|)),
                             Pad(HeaderPrefix(|header|) + header)), Pad(message))
  {
    hide CbcMac, FirstBlock, HeaderPrefix, Pad;
    var first := FirstBlock(nonce, tagSize, |header|, |message|);
    var h, m := Pad(HeaderPrefix(|header|) + header), Pad(message);
    CbcMacAppend(e, Zeros(BLOCK), first + h, m);
    CbcMacAppend(e, Zeros(BLOCK), first, h);
    OneBlock(e, Zeros(BLOCK), first);
    assert XorSeq(Zeros(BLOCK), first) == first by {
      forall i | 0 <= i < BLOCK ensures Xor(0, first[i]) == first[i] { XorZero(first[i]); }
    }
  }
}
