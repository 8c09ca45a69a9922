/** `BaseN_Decoder` of basecode.cpp: the values of characters are packed into bytes in a buffer of one block. */
module BaseDecoder {
  import opened Arithmetic
  import opened Bytes
  import opened BitStrings
  import opened BaseCodeSpec
  import opened Packing

  /** The smallest number of bits that is whole in characters of `w` bits and in bytes. */
  method CommonBits(w: nat) returns (i: nat)
    requires 1 <= w <= 7
    ensures i % 8 == 0 && i > 0 && i == BitsIn(w, BlockChars(w))
  {
    i := w;
    ghost var j := 1;
    while i % 8 != 0
      invariant i == j * w && 1 <= j <= BlockChars(w)
      decreases BlockChars(w) - j
    {
      FirstWhole(w, j);
      i, j := i + w, j + 1;
    }
    FirstWhole(w, j);
    BitsInTimes(w, j);
  }

  lemma FirstWhole(w: nat, j: nat)
    requires 1 <= w <= 7 && 1 <= j <= BlockChars(w)
    ensures (j * w) % 8 == 0 <==> j == BlockChars(w)
    ensures (j + 1) * w == j * w + w && j * w > 0
  {
  }

  /** Every value of the table fits in `w` bits. */
  ghost predicate TableFits(lookup: seq<int>, w: nat) {
    && 1 <= w <= 7 && IsLookup(lookup)
    && forall c :: 0 <= c < 256 && 0 <= lookup[c] < 256 ==> lookup[c] < Pow2(w)
  }

  /** A value shifted up to the room in a byte. */
  lemma ShiftedUp(w: nat, v: nat, part: seq<bool>)
    requires v < Pow2(w) && |part| + w <= 8
    ensures var room := 8 - |part| - w;
            Or(ByteOf(part + Falses(8 - |part|)), ShiftLeft(v, room)) == ByteOf((part + Bits(w, v)) + Falses(room))
  {
    hide Value, Or, ShiftLeft, Bits;
    var room := 8 - |part| - w;
    var more := Bits(w, v) + Falses(room);
    ValueOfBits(w, v);
    LowByte(w, v, room);
    OrAppendsByte(part, more);
    ConcatAssociates(part, Bits(w, v), Falses(room));
  }

  lemma LowByte(w: nat, v: nat, room: nat)
    requires v < Pow2(w) && w + room <= 8
    ensures ShiftLeft(v, room) == ByteOf(Bits(w, v) + Falses(room))
  {
    hide Value, Bits;
    ValueOfBits(w, v);
    ValueAppend(Bits(w, v), Falses(room));
    ValueFalses(room);
  }

  /** A value that does not fit: its high bits complete one byte and its low bits begin the next. */
  lemma ShiftedAcross(w: nat, v: nat, part: seq<bool>)
    requires v < Pow2(w) && |part| < 8 && w <= 8 < |part| + w
    ensures var over := |part| + w - 8;
            var bits := Bits(w, v);
            && Shr(v, over) < 256
            && Or(ByteOf(part + Falses(8 - |part|)), Shr(v, over)) == ByteOf(part + bits[..w - over])
            && Or(0, ShiftLeft(v, 8 - over)) == ByteOf(([] + bits[w - over..]) + Falses(8 - over))
  {
    hide Value, Or, ShiftLeft, Bits, Shr;
    var over := |part| + w - 8;
    var bits := Bits(w, v);
    ValueOfBits(w, v);
    ShiftRightBits(bits, over);
    OrAppendsByte(part, bits[..w - over]);
    ShiftLeftBits(bits, 8 - over);
    var low := bits[w - over..] + Falses(8 - over);
    assert (bits + Falses(8 - over))[w - over..] == low;
    assert [] + bits[w - over..] == bits[w - over..];
    OrAppendsByte([], low);
    assert [] + low == low;
    ZeroCell(8);
  }

  class Decoder {
    const lookup: seq<int>
    const w: nat
    const block: nat
    const outBuf: array<byte>
    var bytePos: nat
    var bitPos: nat
    var output: seq<byte>
    /** The text of the message so far, and how many of its values belong to the block in the buffer. */
    ghost var fed: seq<byte>
    ghost var blockFed: nat
    /** The complete bytes of the message so far, and the bits after them. */
    ghost var bytes: seq<byte>
    ghost var part: seq<bool>
    /** Where this message's output begins. */
    ghost var base: nat

    ghost predicate Shape() {
      |lookup| == 256 && TableFits(lookup, w) && outBuf.Length == block && BitsIn(w, BlockChars(w)) == 8 * block && 0 < block
    }

    ghost predicate Packed(bits: seq<bool>)
      reads `bytePos, `bitPos, `bytes, `part, outBuf
    {
      Shape() && bytePos <= block && bitPos == |part| && IsPacked(8, bits, bytes, part, outBuf[..bytePos])
    }

    ghost predicate Cleared()
      reads `bytePos, `part, outBuf
    {
      IsCleared(8, part, outBuf[..], bytePos)
    }

    ghost predicate Sent()
      reads `bytePos, `bytes, `output, `base
    {
      bytePos <= |bytes| && base <= |output| && output[base..] == bytes[..|bytes| - bytePos]
    }

    ghost predicate Valid()
      reads this, outBuf
    {
      && Shape() && Packed(Join(w, Values(lookup, fed))) && Sent()
      && bytePos < block && (bytePos > 0 || bitPos > 0 ==> Cleared())
      && BitsIn(w, blockFed) == 8 * bytePos + bitPos && blockFed < BlockChars(w)
    }

    /** A value that fits into the byte being filled. */
    method PutWithin(value: byte, ghost sofar: seq<bool>)
      requires Packed(sofar) && Cleared() && bytePos < block && value < Pow2(w) && bitPos + w <= 8
      modifies `bytePos, `bitPos, `bytes, `part, outBuf
      ensures Packed(sofar + Bits(w, value)) && Cleared() && Kept(old(bytes), old(bytePos))
      ensures 8 * bytePos + bitPos == 8 * old(bytePos) + old(bitPos) + w
    {
      hide TableFits, Pow2, Narrow, Join;
      assert bytePos <= |bytes| && outBuf.Length == block;
      hide Decoder.Shape, Falses, ByteOf, BitsIn, BlockChars, TableFits, IsPacked, Bits, Or, ShiftLeft, Pow2;
      var newBitPos := bitPos + w;
      ghost var buffer := outBuf[..];
      ShiftedUp(w, value, part);
      var cell := Or(outBuf[bytePos], ShiftLeft(value, 8 - newBitPos));
      hide IsCleared;
      WithinCell(sofar, Bits(w, value), bytes, part, buffer, bytePos, cell);
      ghost var whole := newBitPos == 8;
      outBuf[bytePos] := cell;
      assert outBuf[..] == buffer[bytePos := cell];
      SuffixSnoc(bytes, bytePos, cell);
      bytes := if whole then bytes + [cell] else bytes;
      part := if whole then [] else part + Bits(w, value);
      MoveTo(newBitPos);
      assert outBuf[..bytePos] == outBuf[..][..bytePos];
    }

    /** A value that ends in the next byte. */
    method PutAcross(value: byte, ghost sofar: seq<bool>)
      requires Packed(sofar) && Cleared() && bytePos + 1 < block && value < Pow2(w) && bitPos < 8 < bitPos + w && w <= 7
      modifies `bytePos, `bitPos, `bytes, `part, outBuf
      ensures Packed(sofar + Bits(w, value)) && Cleared() && Kept(old(bytes), old(bytePos))
      ensures 8 * bytePos + bitPos == 8 * old(bytePos) + old(bitPos) + w
    {
      hide TableFits, Pow2, IsPacked, ByteOf, BitsIn, BlockChars, Falses, Bits, Or, Shr, ShiftLeft;
      var newBitPos := bitPos + w;
      ShiftedAcross(w, value, part);
      var cell := Or(outBuf[bytePos], Shr(value, newBitPos - 8));
      var next := Or(outBuf[bytePos + 1], ShiftLeft(value, 16 - newBitPos));
      StoreAcross(cell, next, newBitPos, sofar, Bits(w, value));
    }

    method StoreAcross(cell: byte, next: byte, newBitPos: nat, ghost sofar: seq<bool>, ghost bits: seq<bool>)
      requires Packed(sofar) && Cleared() && bytePos + 1 < block
      requires |part| < 8 < newBitPos < 16 && newBitPos == |part| + |bits| && |bits| <= 8
      requires cell == ByteOf(part + bits[..8 - |part|]) && next == ByteOf(([] + bits[8 - |part|..]) + Falses(16 - newBitPos))
      modifies `bytePos, `bitPos, `bytes, `part, outBuf
      ensures Packed(sofar + bits) && Cleared() && Kept(old(bytes), old(bytePos))
      ensures 8 * bytePos + bitPos == 8 * old(bytePos) + newBitPos
    {
      hide TableFits, Narrow, Join, ByteOf, BitsIn, BlockChars, Falses;
      assert bytePos <= |bytes| && outBuf.Length == block;
      hide Decoder.Shape, IsPacked, IsCleared;
      ghost var buffer := outBuf[..];
      assert buffer[..bytePos] == outBuf[..bytePos];
      AcrossCells(sofar, bits, bytes, part, buffer, bytePos, cell, next);
      outBuf[bytePos] := cell;
      outBuf[bytePos + 1] := next;
      assert outBuf[..] == buffer[bytePos := cell][bytePos + 1 := next];
      assert outBuf[..bytePos + 1] == outBuf[..][..bytePos + 1];
      SuffixSnoc(bytes, bytePos, cell);
      bytes, part := bytes + [cell], bits[8 - |part|..];
      MoveTo(newBitPos);
    }

    ghost predicate Kept(before: seq<byte>, pos: nat)
      reads `bytePos, `bytes
    {
      && bytePos <= |bytes| && pos <= |before| && |bytes| - bytePos == |before| - pos
      && bytes[..|bytes| - bytePos] == before[..|before| - pos]
    }

    /** Whole bytes move from the bit position to the byte position. */
    method MoveTo(newBitPos: nat)
      modifies `bytePos, `bitPos
      ensures 8 * bytePos + bitPos == 8 * old(bytePos) + newBitPos && bitPos < 8
    {
      bitPos := newBitPos;
      while bitPos >= 8
        invariant 8 * bytePos + bitPos == 8 * old(bytePos) + newBitPos && bytePos >= old(bytePos)
      {
        bitPos := bitPos - 8;
        bytePos := bytePos + 1;
      }
    }

    /** One value, whether or not it ends in the byte being filled. */
    method PutValue(value: byte, ghost sofar: seq<bool>)
      requires Packed(sofar) && Cleared() && bytePos < block && value < Pow2(w)
      requires BitsIn(w, blockFed) == 8 * bytePos + bitPos && blockFed < BlockChars(w)
      modifies `bytePos, `bitPos, `bytes, `part, `blockFed, outBuf
      ensures Packed(sofar + Bits(w, value)) && Cleared() && Kept(old(bytes), old(bytePos))
      ensures blockFed == old(blockFed) + 1 && BitsIn(w, blockFed) == 8 * bytePos + bitPos
    {
      hide *;
      Bounds(sofar);
      BitsInNext(w, blockFed);
      BitsInGrows(w, blockFed + 1, BlockChars(w));
      if bitPos + w <= 8 {
        PutWithin(value, sofar);
      } else {
        PutAcross(value, sofar);
      }
      blockFed := blockFed + 1;
    }

    lemma Bounds(bits: seq<bool>)
      requires Packed(bits)
      ensures bitPos < 8 && 1 <= w <= 7 && BitsIn(w, BlockChars(w)) == 8 * block
    {
    }

    method ClearBuffer(ghost sofar: seq<bool>)
      requires Packed(sofar) && bytePos == 0 && bitPos == 0
      modifies outBuf
      ensures Packed(sofar) && Cleared()
    {
      hide Join, ByteOf, Narrow, TableFits, BitsIn, BlockChars;
      forall c | 0 <= c < block {
        outBuf[c] := 0;
      }
      assert part == [];
      ZeroCell(8);
    }

    /** Output the buffer if this value has filled it. */
    method BlockEnd()
      requires Shape() && Packed(Join(w, Values(lookup, fed))) && Cleared() && Sent()
      requires blockFed <= BlockChars(w) && BitsIn(w, blockFed) == 8 * bytePos + bitPos
      modifies `bytePos, `bitPos, `output, `blockFed
      ensures Valid() && output[..base] == old(output)[..base]
    {
      BitsInZero(w);
      hide Join, ByteOf, Values, Narrow, BitsIn, BlockChars, TableFits;
      if bytePos == block {
        FullBlock(w, blockFed, bytePos, bitPos, block);
        assert outBuf[..] == outBuf[..bytePos];
        AppendAfter(output, base, outBuf[..]);
        assert bytes == bytes[..|bytes| - bytePos] + outBuf[..];
        output := output + outBuf[..];
        bytePos, bitPos, blockFed := 0, 0, 0;
        assert bytes[..|bytes| - bytePos] == bytes;
      } else {
        PartBlock(w, blockFed, bytePos, bitPos, block);
      }
    }

    /** The characters of `begin` join the message; characters without a value are passed over. */
    method PutText(begin: seq<byte>)
      requires Valid()
      modifies `bytePos, `bitPos, `output, `bytes, `part, `fed, `blockFed, outBuf
      ensures Valid() && fed == old(fed) + begin && output[..base] == old(output)[..base]
    {
      hide Join, ByteOf, Pow2, Values, BitsIn, BlockChars;
      var i := 0;
      while i < |begin|
        invariant 0 <= i <= |begin| && Valid() && fed == old(fed) + begin[..i] && output[..base] == old(output)[..base]
      {
        var c := begin[i];
        i := i + 1;
        assert begin[..i] == begin[..i - 1] + [c];
        PutChar(c);
      }
      assert begin[..i] == begin;
    }

    method PutChar(c: byte)
      requires Valid()
      modifies `bytePos, `bitPos, `output, `bytes, `part, `fed, `blockFed, outBuf
      ensures Valid() && fed == old(fed) + [c] && output[..base] == old(output)[..base]
    {
      hide Join, ByteOf, Pow2, Values, BitsIn, BlockChars, IsPacked, IsCleared, TableFits, Bits, Decoder.Packed, Decoder.Sent;
      var value := lookup[c];
      NextValue(lookup, w, fed, c);
      if 0 <= value < 256 {
        TakeValue(c, value);
      } else {
        SkipChar(c);
      }
    }

    ghost method SkipChar(c: byte)
      requires Valid() && Join(w, Values(lookup, fed + [c])) == Join(w, Values(lookup, fed))
      modifies `fed
      ensures Valid() && fed == old(fed) + [c]
    {
      hide Join, ByteOf, Pow2, Values, BitsIn, BlockChars, IsPacked, IsCleared, TableFits, Bits;
      fed := fed + [c];
    }

    method TakeValue(c: byte, value: byte)
      requires Valid() && |lookup| == 256 && value == lookup[c]
      modifies `bytePos, `bitPos, `output, `bytes, `part, `fed, `blockFed, outBuf
      ensures Valid() && fed == old(fed) + [c] && output[..base] == old(output)[..base]
    {
      hide Join, ByteOf, Pow2, Values, BitsIn, BlockChars, Bits, IsPacked, IsCleared, TableFits;
      NextValue(lookup, w, fed, c);
      ghost var sofar := Join(w, Values(lookup, fed));
      if bytePos == 0 && bitPos == 0 {
        ClearBuffer(sofar);
      }
      PutValue(value, sofar);
      fed := fed + [c];
      BlockEnd();
    }

    /** The end of the message: the whole bytes in the buffer are output, spare bits are dropped. */
    method EndMessage()
      requires Valid()
      modifies `bytePos, `bitPos, `output, `bytes, `part, `fed, `blockFed, `base
      ensures Valid() && fed == [] && base == |output|
      ensures output == old(output)[..old(base)] + Decoded(lookup, w, old(fed))
    {
      hide Join, ByteOf, Values, Narrow, BitsIn, BlockChars, TableFits, Group, Rest;
      GroupOfJoin(8, bytes, part);
      ghost var kept := output[..base];
      assert output == kept + output[base..];
      assert bytes == bytes[..|bytes| - bytePos] + outBuf[..bytePos];
      ConcatAssociates(kept, output[base..], outBuf[..bytePos]);
      output := output + outBuf[..bytePos];
      StartMessage();
    }

    method StartMessage()
      requires Shape()
      modifies `bytePos, `bitPos, `bytes, `part, `fed, `blockFed, `base
      ensures Valid() && fed == [] && base == |output|
    {
      hide Join, ByteOf, Values, Narrow, BitsIn, BlockChars, TableFits;
      NothingYet(lookup, w);
      bytePos, bitPos := 0, 0;
      fed, blockFed, bytes, part, base := [], 0, [], [], |output|;
      assert outBuf[..bytePos] == [] && bytes[..|bytes| - bytePos] == [] && output[base..] == [];
    }

    constructor (lookup: seq<int>, w: nat)
      requires |lookup| == 256 && TableFits(lookup, w)
      ensures Valid() && this.lookup == lookup && this.w == w && fed == [] && output == [] && base == 0 && fresh(outBuf)
    {
      hide BitsIn, BlockChars, TableFits, Pow2, Decoder.Valid, Values, Join, IsLookup;
      Widths(lookup, w);
      var i := CommonBits(w);
      this.lookup, this.w, block := lookup, w, i / 8;
      outBuf := new byte[i / 8];
      output := [];
      new;
      StartMessage();
    }

    /** Characters given to the filter, and the end of a message if `messageEnd`. */
    method Put(begin: seq<byte>, messageEnd: bool)
      requires Valid()
      modifies this, outBuf
      ensures Valid() && fed == if messageEnd then [] else old(fed) + begin
      ensures messageEnd ==> base == |output| && output == old(output)[..old(base)] + Decoded(lookup, w, old(fed) + begin)
      ensures !messageEnd ==> base == old(base) && output[..base] == old(output)[..base]
    {
      PutText(begin);
      if messageEnd {
        EndMessage();
      }
    }
  }

  lemma WithinCell(sofar: seq<bool>, bits: seq<bool>, bytes: seq<byte>, part: seq<bool>, buffer: seq<byte>, pos: nat,
                   cell: byte)
    requires pos < |buffer| && |part| + |bits| <= 8
    requires IsPacked(8, sofar, bytes, part, buffer[..pos]) && IsCleared(8, part, buffer, pos)
    requires cell == ByteOf((part + bits) + Falses(8 - |part| - |bits|))
    ensures var after := buffer[pos := cell];
            if |part| + |bits| == 8
            then IsPacked(8, sofar + bits, bytes + [cell], [], after[..pos + 1]) && IsCleared(8, [], after, pos + 1)
            else IsPacked(8, sofar + bits, bytes, part + bits, after[..pos]) && IsCleared(8, part + bits, after, pos)
  {
    hide IsPacked, IsCleared, ByteOf;
    assert sofar + [] == sofar && [] + bits == bits;
    if |part| + |bits| == 8 {
      assert (part + bits) + Falses(0) == part + bits;
      WholeCell(8, sofar, [], bits, bytes, part, buffer, pos);
    } else {
      PartCell(8, sofar, [], bits, bytes, part, buffer, pos);
    }
  }

  lemma AcrossCells(sofar: seq<bool>, bits: seq<bool>, bytes: seq<byte>, part: seq<bool>, buffer: seq<byte>, pos: nat,
                    cell: byte, next: byte)
    requires pos + 1 < |buffer| && |part| < 8 < |part| + |bits| && |bits| <= 8
    requires IsPacked(8, sofar, bytes, part, buffer[..pos]) && IsCleared(8, part, buffer, pos)
    requires var over := |part| + |bits| - 8;
             cell == ByteOf(part + bits[..|bits| - over]) && next == ByteOf(([] + bits[|bits| - over..]) + Falses(8 - over))
    ensures var after := buffer[pos := cell][pos + 1 := next];
            && IsPacked(8, sofar + bits, bytes + [cell], bits[8 - |part|..], after[..pos + 1])
            && IsCleared(8, bits[8 - |part|..], after, pos + 1)
  {
    hide IsPacked, IsCleared, ByteOf;
    var first, second := bits[..8 - |part|], bits[8 - |part|..];
    assert sofar + [] == sofar && [] + first == first && [] + second == second && first + second == bits;
    WholeCell(8, sofar, [], first, bytes, part, buffer, pos);
    PartCell(8, sofar, first, second, bytes + [cell], [], buffer[pos := cell], pos + 1);
  }

  lemma Widths(lookup: seq<int>, w: nat)
    requires TableFits(lookup, w)
    ensures 1 <= w <= 7
  {
  }

  lemma BitsInZero(w: nat)
    ensures BitsIn(w, 0) == 0
  {
  }

  lemma FullBlock(w: nat, blockFed: nat, bytePos: nat, bitPos: nat, block: nat)
    requires BitsIn(w, BlockChars(w)) == 8 * block && blockFed <= BlockChars(w)
    requires bytePos == block && BitsIn(w, blockFed) == 8 * bytePos + bitPos
    ensures bitPos == 0 && 0 < BlockChars(w)
  {
    BitsInGrows(w, blockFed, BlockChars(w));
  }

  lemma PartBlock(w: nat, blockFed: nat, bytePos: nat, bitPos: nat, block: nat)
    requires BitsIn(w, BlockChars(w)) == 8 * block && blockFed <= BlockChars(w)
    requires bytePos < block && BitsIn(w, blockFed) == 8 * bytePos + bitPos && bitPos < 8
    ensures blockFed < BlockChars(w)
  {
  }

  lemma NextValue(lookup: seq<int>, w: nat, fed: seq<byte>, c: byte)
    requires TableFits(lookup, w)
    ensures var v := lookup[c];
            var values := Values(lookup, fed);
            Join(w, Values(lookup, fed + [c])) == if 0 <= v < 256 then Join(w, values) + Bits(w, v) else Join(w, values)
    ensures 0 <= lookup[c] < 256 ==> lookup[c] < Pow2(w)
  {
    var v := lookup[c];
    assert (fed + [c])[..|fed|] == fed;
    if 0 <= v < 256 {
      JoinSnoc(w, Values(lookup, fed), v);
    } else {
      assert Values(lookup, fed) + [] == Values(lookup, fed);
    }
  }

  lemma NothingYet(lookup: seq<int>, w: nat)
    requires TableFits(lookup, w)
    ensures Values(lookup, []) == [] && Join(w, []) == [] && Join(8, []) == []
    ensures Narrow(8, []) && BitsIn(w, 0) == 0 && 0 < BlockChars(w)
  {
  }
}
