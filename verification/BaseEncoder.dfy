/** `BaseN_Encoder` of basecode.cpp: bytes are packed into characters of `w` bits in a buffer of one block. */
module BaseEncoder {
  import opened Arithmetic
  import opened Bytes
  import opened BitStrings
  import opened BaseCodeSpec
  import opened Packing

  /** The smallest number of bits that is whole in bytes and in characters of `w` bits. */
  method CommonBits(w: nat) returns (i: nat)
    requires 1 <= w <= 7
    ensures i % w == 0 && i / w == BlockChars(w) && i % 8 == 0 && i > 0 && i == BitsIn(w, BlockChars(w))
  {
    i := 8;
    Common(w);
    ghost var j := 1;
    while i % w != 0
      invariant i == 8 * j && 8 <= i <= BlockChars(w) * w
      decreases BlockChars(w) * w - i
    {
      FirstCommon(w, j);
      i, j := i + 8, j + 1;
    }
    FirstCommon(w, j);
    DivModUnique(i, w, BlockChars(w), 0);
    BitsInTimes(w, BlockChars(w));
  }

  lemma Common(w: nat)
    requires 1 <= w <= 7
    ensures 8 <= BlockChars(w) * w && BlockChars(w) * w % 8 == 0
  {
  }

  lemma FirstCommon(w: nat, j: nat)
    requires 1 <= w <= 7 && 8 <= 8 * j <= BlockChars(w) * w
    ensures 8 * j % w == 0 <==> 8 * j == BlockChars(w) * w
    ensures 8 * j % w != 0 ==> 8 * (j + 1) <= BlockChars(w) * w
  {
  }

  lemma TopBits(rest: seq<bool>, t: nat)
    requires |rest| <= 8 && t <= 8
    ensures var padded := rest + Falses(8 - |rest|);
            Shr(ByteOf(padded), 8 - t) == ByteOf(padded[..t])
  {
    hide Value;
    ShiftRightBits(rest + Falses(8 - |rest|), 8 - t);
  }

  lemma DropBits(rest: seq<bool>, t: nat)
    requires t <= |rest| <= 8
    ensures ShiftLeft(ByteOf(rest + Falses(8 - |rest|)), t) == ByteOf(rest[t..] + Falses(8 - |rest| + t))
  {
    hide Value, ShiftLeft;
    var padded := rest + Falses(8 - |rest|);
    ShiftLeftBits(padded, t);
    assert (padded + Falses(t))[t..] == rest[t..] + Falses(8 - |rest| + t);
  }

  /** The source's top bits or-ed into a cell that holds `part`. */
  lemma FillCell(w: nat, part: seq<bool>, rest: seq<bool>)
    requires |part| < w <= 7 && 0 < |rest| <= 8
    ensures var t := w - |part|;
            var b := ByteOf(rest + Falses(8 - |rest|));
            Shr(b, 8 - t) < 256 &&
            Or(ByteOf(part + Falses(t)), Shr(b, 8 - t))
            == if |rest| >= t then ByteOf(part + rest[..t]) else ByteOf((part + rest) + Falses(t - |rest|))
  {
    hide Value, Or, Shr;
    var t := w - |part|;
    var padded := rest + Falses(8 - |rest|);
    TopBits(rest, t);
    OrAppendsByte(part, padded[..t]);
    if |rest| >= t {
      assert padded[..t] == rest[..t];
    } else {
      assert padded[..t] == rest + Falses(t - |rest|);
      ConcatAssociates(part, rest, Falses(t - |rest|));
    }
  }

  lemma PadCountIs(n: nat, w: nat, p: nat)
    requires WholeBlocks(n, w) && p <= BlockChars(w)
    ensures PadCount(n + p, BlockChars(w)) == if p == 0 then 0 else BlockChars(w) - p
  {
    if w == 4 {
    } else if w == 2 || w == 6 {
    } else {
    }
  }

  predicate WholeBlocks(n: nat, w: nat) {
    n % BlockChars(w) == 0
  }

  lemma NextBlock(n: nat, w: nat)
    ensures WholeBlocks(0, w)
    ensures WholeBlocks(n, w) ==> WholeBlocks(n + BlockChars(w), w)
  {
  }

  class Encoder {
    const alphabet: seq<byte>
    const padding: Padding
    const w: nat
    const block: nat
    const outBuf: array<byte>
    var bytePos: nat
    var bitPos: nat
    var output: seq<byte>
    /** Bytes per block. */
    ghost const blockBytes: nat
    /** The bytes of the message so far, and how many of them belong to the block in the buffer. */
    ghost var fed: seq<byte>
    ghost var blockFed: nat
    /** The complete characters of the message so far, and the bits after them. */
    ghost var values: seq<byte>
    ghost var part: seq<bool>
    /** Where this message's output begins. */
    ghost var base: nat

    ghost predicate Shape() {
      && IsAlphabet(alphabet, w) && block == BlockChars(w) && outBuf.Length == block
      && BitsIn(w, block) == 8 * blockBytes && 0 < blockBytes
    }

    /** The characters and the part of one are packed into the buffer. */
    ghost predicate Packed(bits: seq<bool>)
      reads `bytePos, `bitPos, `values, `part, outBuf
    {
      Shape() && bytePos <= block && bitPos == |part| && IsPacked(w, bits, values, part, outBuf[..bytePos])
    }

    ghost predicate Cleared()
      reads `bytePos, `part, outBuf
    {
      IsCleared(w, part, outBuf[..], bytePos)
    }

    ghost predicate Sent()
      requires Shape()
      reads `bytePos, `values, `output, `base
    {
      && bytePos <= |values| && WholeBlocks(|values| - bytePos, w) && Narrow(w, values)
      && base <= |output| && output[base..] == Letters(alphabet, values[..|values| - bytePos])
    }

    ghost predicate Valid()
      reads this, outBuf
    {
      && Packed(Join(8, fed)) && Sent()
      && bytePos < block && (bytePos == 0 ==> bitPos == 0) && (bytePos > 0 ==> Cleared())
      && 8 * blockFed == BitsIn(w, bytePos) + bitPos && blockFed < blockBytes
    }

    /** One turn of the inner loop: the cell takes as many of the remaining source bits as it has room for. */
    method TakeBits(b: byte, left: nat, ghost taken: seq<bool>, ghost rest: seq<bool>)
      returns (b': byte, left': nat, ghost taken': seq<bool>, ghost rest': seq<bool>)
      requires Packed(Join(8, fed) + taken) && Cleared()
      requires 0 < left <= 8 && |rest| == left && b == ByteOf(rest + Falses(8 - left))
      requires bytePos < block
      modifies `bytePos, `bitPos, `values, `part, outBuf
      ensures Packed(Join(8, fed) + taken') && Cleared()
      ensures left' < left && |rest'| == left' && b' == ByteOf(rest' + Falses(8 - left'))
      ensures taken' + rest' == taken + rest
      ensures BitsIn(w, bytePos) + bitPos + left' == BitsIn(w, old(bytePos)) + old(bitPos) + left
      ensures |values| - bytePos == |old(values)| - old(bytePos)
      ensures values[..|values| - bytePos] == old(values)[..|values| - bytePos]
    {
      hide Join, ByteOf, Or, Shr, ShiftLeft, BlockChars, BitsIn, WholeBlocks, Pow2, Narrow, Bits;
      Widths(alphabet, w);
      hide IsAlphabet;
      var t := w - bitPos;
      FillCell(w, part, rest);
      var cell := Or(outBuf[bytePos], Shr(b, 8 - t));
      if left >= t {
        DropBits(rest, t);
        SuffixSnoc(values, bytePos, cell);
        FillWhole(cell, taken, rest[..t]);
        taken', rest', left' := taken + rest[..t], rest[t..], left - t;
        b' := ShiftLeft(b, t);
        assert rest == rest[..t] + rest[t..];
        ConcatAssociates(taken, rest[..t], rest[t..]);
      } else {
        FillPart(cell, left, taken, rest);
        taken', rest', left' := taken + rest, [], 0;
        b' := ByteOf([] + Falses(8));
      }
    }

    /** The cell is complete: go on to the next one, which is still zero. */
    method FillWhole(cell: byte, ghost taken: seq<bool>, ghost more: seq<bool>)
      requires Packed(Join(8, fed) + taken) && Cleared() && bytePos < block
      requires bitPos + |more| == w && cell == ByteOf(part + more)
      modifies `bytePos, `bitPos, `values, `part, outBuf
      ensures Packed(Join(8, fed) + (taken + more)) && Cleared()
      ensures bitPos == 0 && bytePos == old(bytePos) + 1 && BitsIn(w, bytePos) == BitsIn(w, old(bytePos)) + w
      ensures values == old(values) + [cell]
    {
      hide Join, ByteOf, BlockChars, BitsIn, IsAlphabet, IsPacked, IsCleared, Narrow, Pow2, Falses;
      Widths(alphabet, w);
      ghost var buffer := outBuf[..];
      assert buffer[..bytePos] == outBuf[..bytePos];
      WholeCell(w, Join(8, fed), taken, more, values, part, buffer, bytePos);
      BitsInNext(w, bytePos);
      outBuf[bytePos] := cell;
      assert outBuf[..] == buffer[bytePos := cell] && outBuf[..bytePos + 1] == buffer[bytePos := cell][..bytePos + 1];
      values, part := values + [cell], [];
      bitPos, bytePos := 0, bytePos + 1;
    }

    /** The cell has room for all that is left. */
    method FillPart(cell: byte, left: nat, ghost taken: seq<bool>, ghost more: seq<bool>)
      requires Packed(Join(8, fed) + taken) && Cleared() && bytePos < block
      requires left == |more| && bitPos + left < w && cell == ByteOf((part + more) + Falses(w - bitPos - |more|))
      modifies `bitPos, `part, outBuf
      ensures Packed(Join(8, fed) + (taken + more)) && Cleared()
      ensures bitPos == old(bitPos) + left
    {
      hide Join, ByteOf, BlockChars, BitsIn, IsAlphabet, IsPacked, IsCleared, Narrow, Pow2, Falses;
      Widths(alphabet, w);
      ghost var buffer := outBuf[..];
      assert buffer[..bytePos] == outBuf[..bytePos];
      PartCell(w, Join(8, fed), taken, more, values, part, buffer, bytePos);
      outBuf[bytePos] := cell;
      assert outBuf[..] == buffer[bytePos := cell] && outBuf[..bytePos] == buffer[bytePos := cell][..bytePos];
      part, bitPos := part + more, bitPos + left;
    }

    /** All eight bits of a byte. */
    method PutByte(b: byte)
      requires Packed(Join(8, fed)) && Cleared() && 8 * blockFed == BitsIn(w, bytePos) + bitPos && blockFed < blockBytes
      modifies `bytePos, `bitPos, `values, `part, `fed, `blockFed, outBuf
      ensures fed == old(fed) + [b] && Packed(Join(8, fed)) && Cleared()
      ensures blockFed == old(blockFed) + 1 && 8 * blockFed == BitsIn(w, bytePos) + bitPos
      ensures |values| - bytePos == |old(values)| - old(bytePos)
      ensures values[..|values| - bytePos] == old(values)[..|values| - bytePos]
    {
      hide Join, ByteOf, Bits, Narrow, BlockChars, BitsIn, WholeBlocks, Pow2, IsAlphabet;
      var source, left := b, 8;
      ghost var taken, rest := [], Bits(8, b);
      StartByte(b);
      assert Join(8, fed) + taken == Join(8, fed);
      while left > 0
        invariant fed == old(fed) && blockFed == old(blockFed)
        invariant Packed(Join(8, fed) + taken) && Cleared()
        invariant 0 <= left <= 8 && |rest| == left && source == ByteOf(rest + Falses(8 - left))
        invariant taken + rest == Bits(8, b)
        invariant BitsIn(w, bytePos) + bitPos + left == 8 * (blockFed + 1)
        invariant |values| - bytePos == |old(values)| - old(bytePos)
        invariant values[..|values| - bytePos] == old(values)[..|values| - bytePos]
        decreases left
      {
        PositionFits(w, bytePos, bitPos, block);
        source, left, taken, rest := TakeBits(source, left, taken, rest);
      }
      assert rest == [] && taken == Bits(8, b);
      JoinSnoc(8, fed, b);
      fed, blockFed := fed + [b], blockFed + 1;
    }

    /** The first `n` cells become letters of the alphabet. */
    method ToLetters(n: nat)
      requires Shape() && n <= block && Narrow(w, outBuf[..n])
      modifies outBuf
      ensures Narrow(w, old(outBuf[..n])) && outBuf[..n] == Letters(alphabet, old(outBuf[..n]))
    {
      ghost var cells := outBuf[..n];
      assert forall c :: 0 <= c < n ==> cells[c] == outBuf[c] && cells[c] < Pow2(w);
      hide Pow2;
      for i := 0 to n
        invariant forall c :: 0 <= c < i ==> outBuf[c] == alphabet[cells[c]]
        invariant forall c :: i <= c < n ==> outBuf[c] == cells[c]
      {
        outBuf[i] := alphabet[outBuf[i]];
      }
    }

    /** A full buffer is output as letters. */
    method FlushBlock()
      requires Packed(Join(8, fed)) && Sent() && bytePos == block
      requires 8 * blockFed == BitsIn(w, bytePos) + bitPos && blockFed <= blockBytes
      modifies `bytePos, `bitPos, `output, `blockFed, outBuf
      ensures Valid() && output[..base] == old(output)[..base]
    {
      hide Join, ByteOf, Pow2, Narrow, IsAlphabet;
      ghost var cells, before := outBuf[..bytePos], values[..|values| - bytePos];
      assert values == before + cells;
      CellsNarrow(w, values, before, cells);
      ToLetters(bytePos);
      NextBlock(|before|, w);
      AlphabetCovers(alphabet, w, before);
      AlphabetCovers(alphabet, w, cells);
      LettersAppend(alphabet, before, cells);
      AppendAfter(output, base, outBuf[..bytePos]);
      assert outBuf[..] == outBuf[..bytePos];
      output := output + outBuf[..];
      bytePos, bitPos := 0, 0;
      blockFed := 0;
      assert values[..|values| - bytePos] == values;
      AlphabetCovers(alphabet, w, values);
    }

    /** What `IsolatedInitialize` sets up. */
    constructor (alphabet: seq<byte>, w: nat, padding: Padding)
      requires IsAlphabet(alphabet, w)
      ensures Valid() && this.alphabet == alphabet && this.w == w && this.padding == padding
      ensures fed == [] && output == [] && base == 0 && fresh(outBuf)
    {
      hide Join, Pow2, Narrow, IsAlphabet, Letters, ByteOf;
      Widths(alphabet, w);
      var i := CommonBits(w);
      hide BlockChars, BitsIn;
      this.alphabet, this.w, this.padding := alphabet, w, padding;
      block, blockBytes := i / w, i / 8;
      outBuf := new byte[i / w];
      output := [];
      new;
      StartMessage();
    }

    /** The bytes of `begin` join the message; whole blocks are output as they fill up. */
    method PutBytes(begin: seq<byte>)
      requires Valid()
      modifies `bytePos, `bitPos, `output, `values, `part, `fed, `blockFed, outBuf
      ensures Valid() && fed == old(fed) + begin && output[..base] == old(output)[..base]
    {
      hide Join, ByteOf, Pow2, Narrow, IsAlphabet, Letters, BlockChars, BitsIn, WholeBlocks;
      var i := 0;
      while i < |begin|
        invariant 0 <= i <= |begin| && Valid() && fed == old(fed) + begin[..i] && output[..base] == old(output)[..base]
      {
        if bytePos == 0 {
          ClearBuffer();
        }
        PutByte(begin[i]);
        i := i + 1;
        assert begin[..i] == begin[..i - 1] + [begin[i - 1]];
        BlockEnd();
      }
      assert begin[..i] == begin;
    }

    method ClearBuffer()
      requires Packed(Join(8, fed)) && bytePos == 0 && bitPos == 0
      modifies outBuf
      ensures Packed(Join(8, fed)) && Cleared()
    {
      hide Join, ByteOf;
      forall c | 0 <= c < block {
        outBuf[c] := 0;
      }
      assert part == [];
      ZeroCell(w);
    }

    /** Output the buffer if this byte has filled it. */
    method BlockEnd()
      requires Packed(Join(8, fed)) && Cleared() && Sent()
      requires 0 < blockFed <= blockBytes && 8 * blockFed == BitsIn(w, bytePos) + bitPos
      modifies `bytePos, `bitPos, `output, `blockFed, outBuf
      ensures Valid() && output[..base] == old(output)[..base]
    {
      assert 1 <= w <= 7;
      hide Join, ByteOf, Pow2, Narrow, IsAlphabet, Letters;
      if bytePos == block {
        FlushBlock();
      } else {
        ByteFillsChar(w, bytePos, bitPos, blockFed, block, blockBytes);
      }
    }

    /** The end of the message: the buffer is output, padded to a whole block if there is padding. */
    method EndMessage()
      requires Valid()
      modifies `bytePos, `bitPos, `output, `values, `part, `fed, `blockFed, `base, outBuf
      ensures Valid() && fed == [] && base == |output|
      ensures output == old(output)[..old(base)] + Encoded(alphabet, w, padding, old(fed))
    {
      var last := LastBlock();
      hide *;
      assert output == output[..base] + output[base..];
      ConcatAssociates(output[..base], output[base..], last);
      output := output + last;
      StartMessage();
    }

    method StartMessage()
      requires Shape()
      modifies `bytePos, `bitPos, `values, `part, `fed, `blockFed, `base
      ensures Valid() && fed == [] && base == |output|
    {
      hide Join, ByteOf, Pow2, Narrow, IsAlphabet, Letters, BlockChars, BitsIn, WholeBlocks;
      NothingYet(alphabet, w, output);
      bytePos, bitPos := 0, 0;
      fed, blockFed, values, part, base := [], 0, [], [], |output|;
      assert outBuf[..bytePos] == [] && values[..|values| - bytePos] == [];
    }

    /** The rest of the encoding, after what has been output. */
    method LastBlock() returns (last: seq<byte>)
      requires Valid()
      modifies outBuf
      ensures Encoded(alphabet, w, padding, fed) == output[base..] + last
    {
      hide Join, ByteOf, Pow2, Narrow, IsAlphabet, Letters, Chars, PaddingOf, BlockChars, BitsIn, WholeBlocks;
      ghost var before := values[..|values| - bytePos];
      Widths(alphabet, w);
      ghost var all := Chars(w, Join(8, fed));
      LastChar();
      var n := if bitPos > 0 then bytePos + 1 else bytePos;
      ghost var cells := outBuf[..n];
      CharsNarrow(w, Join(8, fed));
      CellsNarrow(w, all, before, cells);
      ToLetters(n);
      AlphabetCovers(alphabet, w, all);
      AlphabetCovers(alphabet, w, before);
      AlphabetCovers(alphabet, w, cells);
      LettersAppend(alphabet, before, cells);
      last := PadBuffer(n, |before|);
      ConcatAssociates(Letters(alphabet, before), Letters(alphabet, cells), PaddingOf(padding, |all|, block));
    }

    /** The characters of the message are those output, those in the buffer and an incomplete one. */
    lemma LastChar()
      requires Valid()
      ensures var n := if bitPos > 0 then bytePos + 1 else bytePos;
              n <= block && Chars(w, Join(8, fed)) == values[..|values| - bytePos] + outBuf[..n]
    {
      hide Join, ByteOf, Pow2, Narrow, IsAlphabet, Letters, Rest, Group;
      Widths(alphabet, w);
      GroupOfJoin(w, values, part);
      if bitPos > 0 {
        assert outBuf[..bytePos + 1] == outBuf[..bytePos] + [outBuf[bytePos]];
      }
    }

    /** The `n` letters in the buffer and the padding after them. */
    method PadBuffer(n: nat, ghost before: nat) returns (last: seq<byte>)
      requires Shape() && n <= block && WholeBlocks(before, w)
      modifies outBuf
      ensures last == old(outBuf[..n]) + PaddingOf(padding, before + n, block)
    {
      PadCountIs(before, w, n);
      last := outBuf[..n];
      if padding != -1 && n > 0 {
        forall c | n <= c < block {
          outBuf[c] := padding;
        }
        last := outBuf[..];
      }
    }

    /** Bytes given to the filter, and the end of a message if `messageEnd`. */
    method Put(begin: seq<byte>, messageEnd: bool)
      requires Valid()
      modifies this, outBuf
      ensures Valid() && fed == if messageEnd then [] else old(fed) + begin
      ensures messageEnd ==> base == |output|
      ensures messageEnd ==> output == old(output)[..old(base)] + Encoded(alphabet, w, padding, old(fed) + begin)
      ensures !messageEnd ==> base == old(base) && output[..base] == old(output)[..base]
    {
      PutBytes(begin);
      if messageEnd {
        EndMessage();
      }
    }
  }

  lemma Widths(alphabet: seq<byte>, w: nat)
    requires IsAlphabet(alphabet, w)
    ensures 1 <= w <= 7
  {
  }

  lemma NothingYet(alphabet: seq<byte>, w: nat, output: seq<byte>)
    requires IsAlphabet(alphabet, w)
    ensures 1 <= w && 0 < BlockChars(w) && BitsIn(w, 0) == 0 && WholeBlocks(0, w)
    ensures Join(8, []) == [] && Join(w, []) == [] && Narrow(w, []) && Letters(alphabet, []) == [] && output[|output|..] == []
  {
  }

  /** A whole number of bytes below a block leaves the position inside the buffer and past the first cell. */
  lemma ByteFillsChar(w: nat, bytePos: nat, bitPos: nat, blockFed: nat, block: nat, blockBytes: nat)
    requires 1 <= w <= 7 && bitPos < w && bytePos < block && 0 < blockFed <= blockBytes
    requires 8 * blockFed == BitsIn(w, bytePos) + bitPos && BitsIn(w, block) == 8 * blockBytes
    ensures 0 < bytePos && blockFed < blockBytes
  {
    BitsInGrows(w, bytePos + 1, block);
  }

  lemma AlphabetCovers(alphabet: seq<byte>, w: nat, values: seq<byte>)
    requires IsAlphabet(alphabet, w) && Narrow(w, values)
    ensures forall i :: 0 <= i < |values| ==> values[i] < |alphabet|
  {
  }

  lemma CellsNarrow(w: nat, values: seq<byte>, a: seq<byte>, b: seq<byte>)
    requires Narrow(w, values) && values == a + b
    ensures Narrow(w, a) && Narrow(w, b)
  {
    hide Pow2;
    assert forall i :: 0 <= i < |a| ==> values[i] == a[i];
    assert forall i :: 0 <= i < |b| ==> values[|a| + i] == b[i];
  }

  lemma LettersAppend(alphabet: seq<byte>, a: seq<byte>, b: seq<byte>)
    requires forall i :: 0 <= i < |a| ==> a[i] < |alphabet|
    requires forall i :: 0 <= i < |b| ==> b[i] < |alphabet|
    ensures Letters(alphabet, a + b) == Letters(alphabet, a) + Letters(alphabet, b)
  {
  }

  lemma StartByte(b: byte)
    ensures b == ByteOf(Bits(8, b) + Falses(0))
  {
    assert Pow2(8) == 256;
    ValueOfBits(8, b);
    assert Bits(8, b) + Falses(0) == Bits(8, b);
  }
}
