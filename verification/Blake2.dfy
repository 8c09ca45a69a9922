/** BLAKE2b and BLAKE2s (blake2.cpp) with the compression function left open, against the iteration of
    section 3.3 of RFC 7693. */
module Blake2Hash {
  import opened Arithmetic
  import opened Bytes

  /** What compression reads of the state besides the block: h, t[0], t[1], f[0] and f[1]. */
  type Compression = (seq<byte>, nat, nat, nat, nat, seq<byte>) -> seq<byte>

  /** The word modulus, the block size and the size of h in bytes. */
  datatype Variant = Variant(word: nat, block: nat, size: nat, compress: Compression, iv: seq<byte>)

  /** BLAKE2b has 64-bit words, BLAKE2s 32-bit words. */
  ghost predicate IsBlake2(v: Variant) {
    && ((v.word == 0x1_0000_0000_0000_0000 && v.block == 128 && v.size == 64) ||
        (v.word == 0x1_0000_0000 && v.block == 64 && v.size == 32))
    && |v.iv| == v.size
    && forall h, t0, t1, f0, f1, m :: |v.compress(h, t0, t1, f0, f1, m)| == v.size
  }

  // ----- section 3.3 of RFC 7693 -----

  /** F(h, m, t, f): the offset `t` as two words, and the flag words of a last block. */
  function F(v: Variant, node: bool, h: seq<byte>, m: seq<byte>, t: nat, last: bool): seq<byte>
    requires v.word > 0
  {
    v.compress(h, t % v.word, t / v.word % v.word, Flag(v, last), Flag(v, last && node), m)
  }

  function Flag(v: Variant, on: bool): nat
    requires v.word > 0
  {
    if on then v.word - 1 else 0
  }

  /** Digest size, key length, fanout 1 and depth 1; no salt, no personalization. */
  function ParameterBlock(v: Variant, digestSize: byte, keyLength: byte): seq<byte>
    requires v.size >= 4
  {
    [digestSize, keyLength, 1, 1] + Zeros(v.size - 4)
  }

  function Start(v: Variant, digestSize: byte, keyLength: byte): seq<byte>
    requires v.size >= 4 && |v.iv| == v.size
  {
    XorSeq(v.iv, ParameterBlock(v, digestSize, keyLength))
  }

  /** The blocks of `data`, `t` bytes having gone before; the last one is filled up with zeros. */
  function Iterate(v: Variant, node: bool, h: seq<byte>, t: nat, data: seq<byte>): seq<byte>
    requires v.word > 0 && v.block > 0
    decreases |data|
  {
    if |data| > v.block
    then Iterate(v, node, F(v, node, h, data[..v.block], t + v.block, false), t + v.block, data[v.block..])
    else F(v, node, h, data + Zeros(v.block - |data|), t + |data|, true)
  }

  function KeyBlock(v: Variant, key: seq<byte>): seq<byte>
    requires |key| <= v.block
  {
    if key == [] then [] else key + Zeros(v.block - |key|)
  }

  /** What `Hash` asks of a variant and a key. */
  ghost predicate KeyFits(v: Variant, key: seq<byte>) {
    v.word > 0 && 4 <= v.size == |v.iv| && |key| <= v.block && 0 < v.block && |key| < 256
  }

  function Hash(v: Variant, digestSize: byte, key: seq<byte>, node: bool, message: seq<byte>): seq<byte>
    requires KeyFits(v, key)
  {
    Iterate(v, node, Start(v, digestSize, |key|), 0, KeyBlock(v, key) + message)
  }

  // ----- the same written out -----

  /** A chain of values of h over `text`: each block but the last with the number of bytes up to its end and clear flag
      words, the last one filled up with zeros, with the number of all bytes and set flag words. */
  ghost predicate IsChain(v: Variant, node: bool, t: nat, text: seq<byte>, hs: seq<seq<byte>>, r: seq<byte>)
    requires v.word > 0 && v.block > 0
  {
    && hs != [] && (forall i :: 0 <= i < |hs| - 1 ==> IsLink(v, t, text, hs, i))
    && IsLast(v, node, t, text, hs[|hs| - 1], (|hs| - 1) * v.block, r)
  }

  ghost predicate IsLink(v: Variant, t: nat, text: seq<byte>, hs: seq<seq<byte>>, i: nat)
    requires v.word > 0 && v.block > 0
  {
    var from, to := i * v.block, (i + 1) * v.block;
    && i + 1 < |hs| && 0 <= from <= to <= |text|
    && hs[i + 1] == v.compress(hs[i], (t + to) % v.word, (t + to) / v.word % v.word, 0, 0, text[from..to])
  }

  ghost predicate IsLast(v: Variant, node: bool, t: nat, text: seq<byte>, h: seq<byte>, from: int, r: seq<byte>)
    requires v.word > 0 && v.block > 0
  {
    && 0 <= from <= |text| <= from + v.block && (from > 0 ==> from < |text|)
    && r == v.compress(h, (t + |text|) % v.word, (t + |text|) / v.word % v.word, v.word - 1,
                       if node then v.word - 1 else 0, text[from..] + Zeros(from + v.block - |text|))
  }

  lemma {:induction false} IterateWrittenOut(v: Variant, node: bool, h: seq<byte>, t: nat, data: seq<byte>)
    returns (hs: seq<seq<byte>>)
    requires v.word > 0 && v.block > 0
    ensures IsChain(v, node, t, data, hs, Iterate(v, node, h, t, data)) && hs[0] == h
    decreases |data|
  {
    if |data| > v.block {
      var more := IterateWrittenOut(v, node, F(v, node, h, data[..v.block], t + v.block, false), t + v.block, data[v.block..]);
      hs := [h] + more;
      LongerChain(v, node, h, t, data, more, Iterate(v, node, h, t, data));
    } else {
      hs := [h];
      assert data[0..] == data;
    }
  }

  lemma LongerChain(v: Variant, node: bool, h: seq<byte>, t: nat, data: seq<byte>, more: seq<seq<byte>>, r: seq<byte>)
    requires v.word > 0 && v.block > 0 && |data| > v.block
    requires IsChain(v, node, t + v.block, data[v.block..], more, r)
    requires more[0] == F(v, node, h, data[..v.block], t + v.block, false)
    ensures IsChain(v, node, t, data, [h] + more, r)
  {
    var hs, rest := [h] + more, data[v.block..];
    forall i | 0 <= i < |hs| - 1
      ensures IsLink(v, t, data, hs, i)
    {
      if i == 0 {
        assert data[0..v.block] == data[..v.block];
      } else {
        assert IsLink(v, t + v.block, rest, more, i - 1);
        LinkMoves(v, t, data, hs, more, i);
      }
    }
    MulDistributes(|more| - 1, 1, v.block);
    LastMoves(v, node, t, data, more[|more| - 1], (|more| - 1) * v.block, r);
  }

  lemma LinkMoves(v: Variant, t: nat, data: seq<byte>, hs: seq<seq<byte>>, more: seq<seq<byte>>, i: nat)
    requires v.word > 0 && v.block > 0 && |data| > v.block && 0 < i < |more| && |hs| == |more| + 1 && hs[1..] == more
    requires IsLink(v, t + v.block, data[v.block..], more, i - 1)
    ensures IsLink(v, t, data, hs, i)
  {
    var from, to := i * v.block, (i + 1) * v.block;
    assert (i - 1) * v.block == from - v.block && from + v.block == to;
    assert data[v.block..][from - v.block..to - v.block] == data[from..to];
  }

  lemma LastMoves(v: Variant, node: bool, t: nat, data: seq<byte>, h: seq<byte>, from: nat, r: seq<byte>)
    requires v.word > 0 && v.block > 0 && |data| > v.block
    requires IsLast(v, node, t + v.block, data[v.block..], h, from, r)
    ensures IsLast(v, node, t, data, h, from + v.block, r)
  {
    assert data[v.block..][from..] == data[from + v.block..];
    assert t + v.block + |data[v.block..]| == t + |data|;
  }

  /** A hash is such a chain over the message, behind the key filled up with zeros if there is one. It starts from the
      initialization vector xored with digest size, key length, 1, 1 and zeros. */
  ghost predicate IsHash(v: Variant, digestSize: byte, key: seq<byte>, node: bool, message: seq<byte>,
                         hs: seq<seq<byte>>, r: seq<byte>)
    requires KeyFits(v, key)
  {
    && IsChain(v, node, 0, (if key == [] then [] else key + Zeros(v.block - |key|)) + message, hs, r)
    && hs[0] == XorSeq(v.iv, [digestSize, |key|, 1, 1] + Zeros(v.size - 4))
  }

  lemma HashWrittenOut(v: Variant, digestSize: byte, key: seq<byte>, node: bool, message: seq<byte>)
    returns (hs: seq<seq<byte>>)
    requires KeyFits(v, key)
    ensures IsHash(v, digestSize, key, node, message, hs, Hash(v, digestSize, key, node, message))
  {
    hide IsChain, XorSeq, Iterate;
    hs := IterateWrittenOut(v, node, Start(v, digestSize, |key|), 0, KeyBlock(v, key) + message);
  }

  /** There is only one: a chain from the same start ends in the same value. */
  lemma {:induction false} ChainsAgree(v: Variant, node: bool, t: nat, text: seq<byte>, hs: seq<seq<byte>>, r: seq<byte>,
                                       gs: seq<seq<byte>>, q: seq<byte>)
    requires v.word > 0 && v.block > 0 && IsChain(v, node, t, text, hs, r) && IsChain(v, node, t, text, gs, q)
    requires hs[0] == gs[0]
    ensures hs == gs && r == q
  {
    assert |hs| == |gs| by { SameCount(v.block, |text|, |hs| - 1, |gs| - 1); }
    SameLinks(v, node, t, text, hs, r, gs, q, |hs| - 1);
    assert hs == gs;
  }

  lemma SameCount(block: nat, n: nat, a: nat, b: nat)
    requires block > 0
    requires a * block <= n <= a * block + block && (a * block > 0 ==> a * block < n)
    requires b * block <= n <= b * block + block && (b * block > 0 ==> b * block < n)
    ensures a == b
  {
    if a < b {
      assert (a + 1) * block == a * block + block;
      MulMonotone(a + 1, b, block);
    } else if b < a {
      assert (b + 1) * block == b * block + block;
      MulMonotone(b + 1, a, block);
    }
  }

  lemma {:induction false} SameLinks(v: Variant, node: bool, t: nat, text: seq<byte>, hs: seq<seq<byte>>, r: seq<byte>,
                                     gs: seq<seq<byte>>, q: seq<byte>, k: nat)
    requires v.word > 0 && v.block > 0 && IsChain(v, node, t, text, hs, r) && IsChain(v, node, t, text, gs, q)
    requires hs[0] == gs[0] && k < |hs| == |gs|
    ensures forall i :: 0 <= i <= k ==> hs[i] == gs[i]
  {
    if k > 0 {
      SameLinks(v, node, t, text, hs, r, gs, q, k - 1);
      assert IsLink(v, t, text, hs, k - 1) && IsLink(v, t, text, gs, k - 1);
    }
  }

  /** A message of at most one block, without a key. */
  lemma OneBlockHash(v: Variant, digestSize: byte, node: bool, message: seq<byte>)
    requires KeyFits(v, []) && |message| <= v.block
    ensures Hash(v, digestSize, [], node, message)
         == v.compress(XorSeq(v.iv, [digestSize, 0, 1, 1] + Zeros(v.size - 4)), |message| % v.word,
                       |message| / v.word % v.word, v.word - 1, if node then v.word - 1 else 0,
                       message + Zeros(v.block - |message|))
  {
    assert [] + message == message;
  }

  /** A key and no message: the key filled up with zeros is the only block. */
  lemma KeyAloneHash(v: Variant, digestSize: byte, key: seq<byte>, node: bool)
    requires KeyFits(v, key) && key != []
    ensures Hash(v, digestSize, key, node, [])
         == v.compress(XorSeq(v.iv, [digestSize, |key|, 1, 1] + Zeros(v.size - 4)), v.block % v.word,
                       v.block / v.word % v.word, v.word - 1, if node then v.word - 1 else 0,
                       key + Zeros(v.block - |key|))
  {
    var block := key + Zeros(v.block - |key|);
    assert block + [] == block && block + Zeros(0) == block;
  }

  // ----- the blocks that are not last -----

  ghost predicate Whole(block: nat, data: seq<byte>)
    requires block > 0
    decreases |data|
  {
    if |data| < block then data == [] else Whole(block, data[block..])
  }

  function Chain(v: Variant, node: bool, h: seq<byte>, t: nat, data: seq<byte>): seq<byte>
    requires v.word > 0 && v.block > 0
    decreases |data|
  {
    if |data| < v.block then h
    else Chain(v, node, F(v, node, h, data[..v.block], t + v.block, false), t + v.block, data[v.block..])
  }

  lemma {:induction false} ChainSnoc(v: Variant, node: bool, h: seq<byte>, t: nat, done: seq<byte>, m: seq<byte>)
    requires v.word > 0 && v.block > 0 && Whole(v.block, done) && |m| == v.block
    ensures Whole(v.block, done + m)
    ensures Chain(v, node, h, t, done + m) == F(v, node, Chain(v, node, h, t, done), m, t + |done| + v.block, false)
    decreases |done|
  {
    hide F;
    if |done| < v.block {
      assert done + m == m && m[..v.block] == m && m[v.block..] == [];
    } else {
      var h' := F(v, node, h, done[..v.block], t + v.block, false);
      ChainSnoc(v, node, h', t + v.block, done[v.block..], m);
      assert (done + m)[..v.block] == done[..v.block] && (done + m)[v.block..] == done[v.block..] + m;
    }
  }

  /** Whole blocks followed by something are chained first. */
  lemma {:induction false} IterateChain(v: Variant, node: bool, h: seq<byte>, t: nat, done: seq<byte>, rest: seq<byte>)
    requires v.word > 0 && v.block > 0 && Whole(v.block, done) && (done == [] || rest != [])
    ensures Iterate(v, node, h, t, done + rest) == Iterate(v, node, Chain(v, node, h, t, done), t + |done|, rest)
    decreases |done|
  {
    hide F;
    if |done| < v.block {
      assert done + rest == rest;
    } else {
      var h' := F(v, node, h, done[..v.block], t + v.block, false);
      IterateChain(v, node, h', t + v.block, done[v.block..], rest);
      assert (done + rest)[..v.block] == done[..v.block] && (done + rest)[v.block..] == done[v.block..] + rest;
    }
  }

  /** Whole blocks and a last part of at least one byte split a text in one way only. */
  lemma {:induction false} SplitIsUnique(block: nat, a: seq<byte>, x: seq<byte>, b: seq<byte>, y: seq<byte>)
    requires block > 0 && Whole(block, a) && Whole(block, b) && a + x == b + y
    requires |x| <= block && |y| <= block && (x == [] ==> a == []) && (y == [] ==> b == [])
    ensures a == b && x == y
    decreases |a| + |b|
  {
    assert |a| + |x| == |b| + |y|;
    if |a| >= block && |b| >= block {
      assert (a + x)[block..] == a[block..] + x && (b + y)[block..] == b[block..] + y;
      assert (a + x)[..block] == a[..block] && (b + y)[..block] == b[..block];
      SplitIsUnique(block, a[block..], x, b[block..], y);
      assert a == a[..block] + a[block..] && b == b[..block] + b[block..];
    } else if |a| < block && |b| < block {
      assert a + x == x && b + y == y;
    }
  }

  // ----- the two-word counter -----

  /** Adding at most a block carries into the second word exactly when the first wraps around. */
  lemma CounterAdds(word: nat, total: nat, count: nat)
    requires 0 < count < word || count == 0 < word
    ensures var t0 := (total % word + count) % word;
            var carry := if t0 < count then 1 else 0;
            t0 == (total + count) % word && (total / word % word + carry) % word == (total + count) / word % word
  {
    var q, r := total / word, total % word;
    var t0 := (r + count) % word;
    DivMod(total, word);
    if r + count < word {
      DivModUnique(r + count, word, 0, r + count);
      DivModUnique(total + count, word, q, r + count);
      DivModUnique(q % word, word, 0, q % word);
    } else {
      MulDistributes(q, 1, word);
      DivModUnique(r + count, word, 1, r + count - word);
      DivModUnique(total + count, word, q + 1, r + count - word);
      NextMod(q, word);
    }
  }

  lemma NextMod(q: nat, word: nat)
    requires word > 0
    ensures (q % word + 1) % word == (q + 1) % word
  {
    DivMod(q, word);
    if q % word + 1 < word {
      DivModUnique(q + 1, word, q / word, q % word + 1);
      DivModUnique(q % word + 1, word, 0, q % word + 1);
    } else {
      MulDistributes(q / word, 1, word);
      DivModUnique(q + 1, word, q / word + 1, 0);
      DivModUnique(word, word, 1, 0);
    }
  }

  lemma Sizes(v: Variant)
    requires IsBlake2(v)
    ensures 4 <= v.size < 256 && v.size < v.block < v.word && |v.iv| == v.size
  {
  }

  // ----- the object -----

  class Blake2 {
    const v: Variant
    const digestSize: byte
    const key: seq<byte>
    const treeMode: bool
    var h: seq<byte>
    var t0: nat
    var t1: nat
    var f0: nat
    var f1: nat
    const buf: array<byte>
    var len: nat
    /** The blocks compressed so far. */
    ghost var done: seq<byte>

    ghost predicate Shape() {
      IsBlake2(v) && |key| <= v.size && digestSize <= v.size && buf.Length == v.block
    }

    ghost function Begin(): seq<byte>
      requires Shape()
    {
      Start(v, digestSize, |key|)
    }

    /** h and the counter after the blocks in `done`. */
    ghost predicate Chained()
      requires Shape()
      reads `h, `t0, `t1, `done
    {
      && Whole(v.block, done) && h == Chain(v, treeMode, Begin(), 0, done)
      && t0 == |done| % v.word && t1 == |done| / v.word % v.word
    }

    /** The last block is held back: it is empty only when nothing has come yet. */
    ghost predicate Valid()
      reads this, buf
    {
      && Shape() && Chained() && f0 == 0 && f1 == 0
      && len <= v.block && (len == 0 ==> done == [])
    }

    /** Everything given so far, the key block included. */
    ghost function Absorbed(): seq<byte>
      requires Shape() && len <= v.block
      reads `len, `done, buf
    {
      done + buf[..len]
    }

    method IncrementCounter(count: nat, ghost total: nat)
      requires Shape() && count <= v.block && t0 == total % v.word && t1 == total / v.word % v.word
      modifies `t0, `t1
      ensures t0 == (total + count) % v.word && t1 == (total + count) / v.word % v.word
    {
      CounterAdds(v.word, total, count);
      t0 := (t0 + count) % v.word;
      t1 := (t1 + if t0 < count then 1 else 0) % v.word;
    }

    method Compress(block: seq<byte>)
      modifies `h
      ensures h == v.compress(old(h), t0, t1, f0, f1, block)
    {
      h := v.compress(h, t0, t1, f0, f1, block);
    }

    /** A block that is not the last one. */
    method CompressNext(block: seq<byte>)
      requires Shape() && Chained() && f0 == 0 && f1 == 0 && |block| == v.block
      modifies `h, `t0, `t1, `done
      ensures Chained() && done == old(done) + block
    {
      hide Chain, Whole, Start, IsBlake2;
      Sizes(v);
      ChainSnoc(v, treeMode, Begin(), 0, done, block);
      IncrementCounter(v.block, |done|);
      Compress(block);
      done := done + block;
    }

    method Fill(input: seq<byte>)
      requires Shape() && len + |input| <= v.block
      modifies `len, buf
      ensures len == old(len) + |input| && buf[..len] == old(buf[..len]) + input
    {
      forall i | 0 <= i < |input| {
        buf[len + i] := input[i];
      }
      len := len + |input|;
    }

    method Update(input: seq<byte>)
      requires Valid()
      modifies `h, `t0, `t1, `done, `len, buf
      ensures Valid() && Absorbed() == old(Absorbed()) + input
    {
      hide Chain, Whole, Start, IsBlake2;
      var rest := input;
      if |input| > v.block - len {
        rest := Overflow(input);
      }
      if rest != [] {
        ghost var before, held := done, buf[..len];
        Fill(rest);
        assert before + (held + rest) == before + held + rest;
      }
    }

    /** More than fits: the buffer is completed and compressed, then blocks of the input, but not the last one. */
    method Overflow(input: seq<byte>) returns (rest: seq<byte>)
      requires Valid() && |input| > v.block - len
      modifies `h, `t0, `t1, `done, `len, buf
      ensures Shape() && Chained() && len == 0 && 0 < |rest| <= v.block
      ensures done + rest == old(Absorbed()) + input
    {
      hide Chain, Whole, Start, IsBlake2, Blake2.Chained;
      Sizes(v);
      rest := input;
      assert len == 0 ==> Absorbed() + input == done + input;
      ghost var all := Absorbed() + input;
      if len != 0 {
        rest := CompleteBlock(input);
      }
      while |rest| > v.block
        invariant Shape() && Chained() && len == 0 && f0 == 0 && f1 == 0
        invariant 0 < |rest| && done + rest == all
        decreases |rest|
      {
        var m := rest[..v.block];
        assert done + rest == (done + m) + rest[v.block..];
        CompressNext(m);
        rest := rest[v.block..];
      }
    }

    method CompleteBlock(input: seq<byte>) returns (rest: seq<byte>)
      requires Valid() && 0 < len && |input| > v.block - len
      modifies `h, `t0, `t1, `done, `len, buf
      ensures Shape() && Chained() && len == 0 && 0 < |rest|
      ensures done + rest == old(Absorbed()) + input
    {
      hide Chain, Whole, Start, IsBlake2, Blake2.Chained;
      var fill := v.block - len;
      ghost var before, held := done, buf[..len];
      Fill(input[..fill]);
      assert buf[..] == buf[..len] == held + input[..fill];
      CompressNext(buf[..]);
      len := 0;
      rest := input[fill..];
      Regroup(before, held, input, fill);
    }

    /** A keyed object has absorbed the key block before the message. */
    ghost predicate Ready()
      reads this, buf
    {
      Valid() && KeyFits(v, key) && KeyBlock(v, key) <= Absorbed()
    }

    ghost function Message(): seq<byte>
      requires Ready()
      reads this, buf
    {
      Absorbed()[|KeyBlock(v, key)|..]
    }

    method Restart()
      requires Shape()
      modifies `h, `t0, `t1, `f0, `f1, `done, `len, buf
      ensures Ready() && Message() == []
    {
      hide IsBlake2, XorSeq;
      Sizes(v);
      h, t0, t1, f0, f1, len := Start(v, digestSize, |key|), 0, 0, 0, 0, 0;
      done := [];
      ZeroCounter(v.word);
      if |key| > 0 {
        Update(KeyBlock(v, key));
      }
    }

    constructor (v: Variant, key: seq<byte>, treeMode: bool, digestSize: byte)
      requires IsBlake2(v) && |key| <= v.size && digestSize <= v.size
      ensures Ready() && Message() == [] && fresh(buf)
      ensures this.v == v && this.key == key && this.treeMode == treeMode && this.digestSize == digestSize
    {
      this.v, this.key, this.treeMode, this.digestSize := v, key, treeMode, digestSize;
      buf := new byte[v.block];
      new;
      hide *;
      Restart();
    }

    /** Input to a ready object. */
    method Put(input: seq<byte>)
      requires Ready()
      modifies `h, `t0, `t1, `done, `len, buf
      ensures Ready() && Message() == old(Message()) + input
    {
      hide Blake2.Valid, KeyBlock;
      Update(input);
    }

    /** The last block: flags, the tail counted, zeros, and h with the key block and the message in it. */
    method CompressLast()
      requires Ready()
      modifies `h, `t0, `t1, `f0, `f1, buf
      ensures Shape() && KeyFits(v, key) && h == Hash(v, digestSize, key, treeMode, old(Message())) && |h| == v.size
    {
      FinalIsHash();
      hide Hash, Chain, Whole, Start, IsBlake2, KeyBlock, KeyFits;
      Sizes(v);
      ghost var held := buf[..len];
      f0 := v.word - 1;
      if treeMode {
        f1 := v.word - 1;
      }
      IncrementCounter(len, |done|);
      forall i | len <= i < v.block {
        buf[i] := 0;
      }
      assert buf[..] == held + Zeros(v.block - len);
      Compress(buf[..]);
    }

    /** The last compression gives the hash. */
    lemma FinalIsHash()
      requires Ready()
      ensures var h' := F(v, treeMode, h, buf[..len] + Zeros(v.block - len), |done| + len, true);
              h' == Hash(v, digestSize, key, treeMode, Message()) && |h'| == v.size
    {
      hide Iterate, Chain, Whole, Start, KeyBlock;
      ghost var held := buf[..len];
      IterateChain(v, treeMode, Begin(), 0, done, held);
      LastBlock(v, treeMode, h, |done|, held);
      assert Absorbed() == KeyBlock(v, key) + Message();
    }

    /** A prefix of the hash of the message, which leaves the object as it was when keyed. */
    method TruncatedFinal(size: nat) returns (r: DigestResult)
      requires Ready()
      modifies `h, `t0, `t1, `f0, `f1, `done, `len, buf
      ensures r.InvalidArgument? <==> size > digestSize
      ensures r.InvalidArgument? ==> unchanged(this) && unchanged(buf)
      ensures r.Digest? ==> Ready() && Message() == []
      ensures KeyFits(v, key)
      ensures r.Digest? ==> size <= |Hash(v, digestSize, key, treeMode, old(Message()))|
      ensures r.Digest? ==> r.bytes == Hash(v, digestSize, key, treeMode, old(Message()))[..size]
    {
      hide IsBlake2, Hash, KeyBlock, KeyFits, Blake2.Chained;
      if size > digestSize {
        return InvalidArgument;
      }
      CompressLast();
      r := Digest(h[..size]);
      Restart();
    }
  }

  lemma ZeroCounter(word: nat)
    requires word > 0
    ensures 0 % word == 0 && 0 / word % word == 0
  {
  }

  lemma LastBlock(v: Variant, node: bool, h: seq<byte>, t: nat, data: seq<byte>)
    requires v.word > 0 && v.block > 0 && |data| <= v.block
    ensures Iterate(v, node, h, t, data) == F(v, node, h, data + Zeros(v.block - |data|), t + |data|, true)
  {
  }

  /** Objects keyed alike that were given the same bytes are in the same state, however these were split: in
      particular a finished object and a new one. */
  lemma SameState(a: Blake2, b: Blake2)
    requires a.Ready() && b.Ready() && a.Message() == b.Message()
    requires a.v == b.v && a.key == b.key && a.treeMode == b.treeMode && a.digestSize == b.digestSize
    ensures a.h == b.h && a.t0 == b.t0 && a.t1 == b.t1 && a.f0 == b.f0 && a.f1 == b.f1
    ensures a.len == b.len && a.buf[..a.len] == b.buf[..b.len]
  {
    assert a.Absorbed() == KeyBlock(a.v, a.key) + a.Message();
    assert b.Absorbed() == KeyBlock(b.v, b.key) + b.Message();
    hide KeyBlock, Chain, Start;
    SplitIsUnique(a.v.block, a.done, a.buf[..a.len], b.done, b.buf[..b.len]);
  }

  /** Any division of a message into updates gives the hash of the whole. */
  method HashChunks(v: Variant, key: seq<byte>, treeMode: bool, digestSize: byte, chunks: seq<seq<byte>>) returns (r: seq<byte>)
    requires IsBlake2(v) && |key| <= v.size && digestSize <= v.size
    ensures KeyFits(v, key) && digestSize <= |Hash(v, digestSize, key, treeMode, Joined(chunks))|
    ensures r == Hash(v, digestSize, key, treeMode, Joined(chunks))[..digestSize]
    ensures exists hs :: IsHash(v, digestSize, key, treeMode, Joined(chunks), hs,
                                Hash(v, digestSize, key, treeMode, Joined(chunks)))
  {
    hide IsBlake2, Hash, KeyBlock, KeyFits, IsHash, Blake2.Valid;
    var hash := new Blake2(v, key, treeMode, digestSize);
    for i := 0 to |chunks|
      invariant hash.Ready() && hash.Message() == Joined(chunks[..i]) && fresh(hash) && fresh(hash.buf)
    {
      JoinedNext(chunks, i);
      hash.Put(chunks[i]);
    }
    assert chunks[..|chunks|] == chunks;
    var outcome := hash.TruncatedFinal(digestSize);
    r := outcome.bytes;
    ghost var hs := HashWrittenOut(v, digestSize, key, treeMode, Joined(chunks));
  }

  lemma Regroup(before: seq<byte>, held: seq<byte>, input: seq<byte>, fill: nat)
    requires fill <= |input|
    ensures (before + (held + input[..fill])) + input[fill..] == (before + held) + input
  {
  }
}
