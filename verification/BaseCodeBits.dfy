/** Encoded text, bit by bit and letter by letter. */
module BaseCodeBits {
  import opened Arithmetic
  import opened Bytes
  import opened BitStrings
  import opened BaseCodeSpec

  // ----- encoding -----

  /** Letters for `bits` bits, `w` to a letter. */
  function LetterCount(w: nat, bits: nat): nat
    requires w > 0
  {
    (bits + w - 1) / w
  }

  lemma CountIs(w: nat, n: nat)
    requires w > 0
    ensures LetterCount(w, n) == n / w + (if n % w == 0 then 0 else 1) && w * (n / w) + n % w == n
  {
    DivMod(n, w);
    if n % w == 0 {
      DivModUnique(n + w - 1, w, n / w, w - 1);
    } else {
      MulDistributes(n / w, 1, w);
      DivModUnique(n + w - 1, w, n / w + 1, n % w - 1);
    }
  }

  lemma CharsLength(w: nat, bits: seq<bool>)
    requires 1 <= w <= 8
    ensures |Chars(w, bits)| == LetterCount(w, |bits|)
  {
    hide LetterCount, Group, Rest, Value;
    GroupLength(w, bits);
    CountIs(w, |bits|);
  }

  lemma CharsAt(w: nat, bits: seq<bool>, i: nat, j: nat)
    requires 1 <= w <= 8 && j < w && i < |Chars(w, bits)|
    ensures w * i + j >= 0 && Bit(Chars(w, bits)[i], w - 1 - j) == if w * i + j < |bits| && bits[w * i + j] then 1 else 0
  {
    hide LetterCount, Chars, Group, Rest, Value, Bit;
    var n := |bits|;
    GroupLength(w, bits);
    CountIs(w, n);
    CharsLength(w, bits);
    if i < n / w {
      WholeGroup(w, i, n);
      CharsParts(w, bits);
      GroupAt(w, bits, i, j);
    } else {
      LastChar(w, bits, j);
    }
  }

  lemma WholeGroup(w: nat, i: nat, n: nat)
    requires w > 0 && i < n / w
    ensures 0 <= w * i && w * i + w <= n
  {
    DivMod(n, w);
    MulMonotone(i + 1, n / w, w);
    assert w * i + w == (i + 1) * w;
  }

  lemma CharsParts(w: nat, bits: seq<bool>)
    requires 1 <= w <= 8
    ensures Group(w, bits) <= Chars(w, bits)
    ensures Rest(w, bits) != [] ==>
              Chars(w, bits) == Group(w, bits) + [ByteOf(Rest(w, bits) + Falses(w - |Rest(w, bits)|))]
  {
    hide Group, Rest, Value;
  }

  lemma LastChar(w: nat, bits: seq<bool>, j: nat)
    requires 1 <= w <= 8 && j < w && |Rest(w, bits)| != 0
    ensures var i := |bits| / w;
            && i < |Chars(w, bits)| && w * i + j >= 0
            && Bit(Chars(w, bits)[i], w - 1 - j) == if w * i + j < |bits| && bits[w * i + j] then 1 else 0
  {
    hide Group, Rest, Value, Bit, Chars, LetterCount;
    GroupLength(w, bits);
    CharsParts(w, bits);
    CountIs(w, |bits|);
    var rest := Rest(w, bits);
    ValueAt(rest + Falses(w - |rest|), j);
    assert rest == bits[w * (|bits| / w)..];
  }

  /** Bit k of a message, most significant bits first, and zeros behind it. */
  function MessageBit(message: seq<byte>, k: nat): nat {
    if k < 8 * |message| then Bit(message[k / 8], 7 - k % 8) else 0
  }

  /** A letter whose number in the alphabet has bits w·i to w·i + w - 1 of the message, the first of them on top. */
  ghost predicate IsLetter(alphabet: seq<byte>, w: nat, message: seq<byte>, i: nat, letter: byte) {
    exists v: nat :: v < |alphabet| && letter == alphabet[v] && HasBits(w, message, i, v)
  }

  ghost predicate HasBits(w: nat, message: seq<byte>, i: nat, v: nat) {
    v < Pow2(w) && forall e: nat :: e < w ==> w * i >= 0 && Bit(v, e) == MessageBit(message, w * i + w - 1 - e)
  }

  lemma LetterIs(alphabet: seq<byte>, w: nat, message: seq<byte>, i: nat)
    requires IsAlphabet(alphabet, w) && i < |Chars(w, Join(8, message))|
    ensures var v := Chars(w, Join(8, message))[i]; v < |alphabet| && HasBits(w, message, i, v)
  {
    var v := Chars(w, Join(8, message))[i];
    CharsNarrow(w, Join(8, message));
    hide Chars, Join, Bit, Pow2, MessageBit;
    forall e: nat | e < w
      ensures w * i >= 0 && Bit(v, e) == MessageBit(message, w * i + w - 1 - e)
    {
      LetterBit(w, message, i, e);
    }
  }

  lemma LetterBit(w: nat, message: seq<byte>, i: nat, e: nat)
    requires 1 <= w <= 8 && i < |Chars(w, Join(8, message))| && e < w
    ensures w * i >= 0 && Bit(Chars(w, Join(8, message))[i], e) == MessageBit(message, w * i + w - 1 - e)
  {
    hide *;
    CharsAt(w, Join(8, message), i, w - 1 - e);
    JoinedBit(message, w * i + w - 1 - e);
  }

  lemma JoinedBit(message: seq<byte>, k: nat)
    ensures MessageBit(message, k) == if k < |Join(8, message)| && Join(8, message)[k] then 1 else 0
  {
    hide Join, Bit;
    JoinLength(8, message);
    if k < 8 * |message| { JoinAt(8, message, k); }
  }

  /** The shortest common length: `BlockChars` letters are the fewest that hold whole bytes. */
  lemma BlockIsLeast(w: nat, n: nat)
    requires 1 <= w <= 7
    ensures BlockChars(w) * w % 8 == 0
    ensures 0 < n < BlockChars(w) ==> n * w % 8 != 0
  {
    if w == 1 { } else if w == 2 { } else if w == 3 { } else if w == 4 { } else if w == 5 { } else if w == 6 { }
  }

  /** Exactly what an encoding is: one letter for every w bits and one for what is left over, each with its bits of the
      message; then, if there is padding, as few padding characters as complete a block. */
  lemma EncodedExactly(alphabet: seq<byte>, w: nat, padding: Padding, message: seq<byte>)
    requires IsAlphabet(alphabet, w)
    ensures var text, n := Encoded(alphabet, w, padding, message), LetterCount(w, 8 * |message|);
            && n <= |text|
            && (forall i :: 0 <= i < n ==> IsLetter(alphabet, w, message, i, text[i]))
            && (padding == -1 ==> |text| == n)
            && (padding != -1 ==> |text| % BlockChars(w) == 0 && |text| < n + BlockChars(w) &&
                                  forall i :: n <= i < |text| ==> text[i] == padding)
  {
    var bits := Join(8, message);
    var values := Chars(w, bits);
    var text := Encoded(alphabet, w, padding, message);
    CharsLength(w, bits);
    CharsNarrow(w, bits);
    hide Chars, Join, LetterCount, HasBits, Pow2;
    JoinLength(8, message);
    forall i | 0 <= i < |values|
      ensures IsLetter(alphabet, w, message, i, text[i])
    {
      LetterIs(alphabet, w, message, i);
      assert text[i] == alphabet[values[i]];
    }
    PadsToBlock(|values|, BlockChars(w));
  }

  lemma PadsToBlock(n: nat, block: nat)
    requires block > 0
    ensures PadCount(n, block) < block && (n + PadCount(n, block)) % block == 0
  {
    DivMod(n, block);
    var q, r := n / block, n % block;
    if r == 0 {
      DivModUnique(block, block, 1, 0);
    } else {
      DivModUnique(block - r, block, 0, block - r);
      MulDistributes(q, 1, block);
      DivModUnique(n + block - r, block, q + 1, 0);
    }
  }

  // ----- decoding -----

  /** A character counts if it has a value in the table. */
  lemma OneValue(lookup: seq<int>, c: byte)
    requires IsLookup(lookup)
    ensures Values(lookup, []) == []
    ensures Values(lookup, [c]) == if 0 <= lookup[c] < 256 then [lookup[c] as byte] else []
  {
    assert [c][..0] == [];
  }

  /** What does not fill a byte is dropped. */
  lemma DecodedLength(lookup: seq<int>, w: nat, text: seq<byte>)
    requires IsLookup(lookup)
    ensures |Decoded(lookup, w, text)| == w * |Values(lookup, text)| / 8
  {
    hide Values, Join, Group;
    JoinLength(w, Values(lookup, text));
    GroupLength(8, Join(w, Values(lookup, text)));
  }

  /** Exactly what a decoding is: byte q has bits 8q to 8q + 7 of the values of the characters that count, w from each. */
  lemma DecodedAt(lookup: seq<int>, w: nat, text: seq<byte>, q: nat, e: nat)
    requires IsLookup(lookup) && w > 0 && e < 8 && q < |Decoded(lookup, w, text)|
    ensures var values, k := Values(lookup, text), 8 * q + 7 - e;
            && k / w < |values| && k % w < w
            && Bit(Decoded(lookup, w, text)[q], e) == Bit(values[k / w], w - 1 - k % w)
  {
    hide Values, Join, Group, Bit;
    GroupedBit(w, Values(lookup, text), q, e);
  }

  lemma GroupedBit(w: nat, values: seq<byte>, q: nat, e: nat)
    requires w > 0 && e < 8 && q < |Group(8, Join(w, values))|
    ensures var k := 8 * q + 7 - e;
            && k / w < |values| && k % w < w
            && Bit(Group(8, Join(w, values))[q], e) == Bit(values[k / w], w - 1 - k % w)
  {
    hide Join, Group, Bit;
    var k := 8 * q + 7 - e;
    JoinLength(w, values);
    GroupLength(8, Join(w, values));
    WholeGroup(8, q, |Join(w, values)|);
    GroupAt(8, Join(w, values), q, 7 - e);
    JoinAt(w, values, k);
  }

  // ----- grouping -----

  /** Parts of `size` characters and a last one of at most that many, with a separator in front of each but the first. */
  lemma {:induction false} GroupedParts(size: nat, separator: seq<byte>, parts: seq<seq<byte>>)
    requires size > 0 && parts != [] && (forall i :: 0 <= i < |parts| - 1 ==> |parts[i]| == size)
    requires |parts[|parts| - 1]| <= size && (|parts| > 1 ==> parts[|parts| - 1] != [])
    ensures Grouped(size, separator, Joined(parts)) == parts[0] + Joined(Separated(separator, parts[1..]))
    decreases |parts|
  {
    hide Joined;
    JoinedCons(parts);
    var others := parts[1..];
    if others == [] {
      NothingJoined();
      assert Separated(separator, others) == [];
    } else {
      GroupedParts(size, separator, others);
      JoinedCons(others);
      var text := Joined(parts);
      assert text[..size] == parts[0] && text[size..] == Joined(others);
      var separated := Separated(separator, others);
      JoinedCons(separated);
      assert separated[1..] == Separated(separator, others[1..]);
    }
  }

  function Separated(separator: seq<byte>, parts: seq<seq<byte>>): (r: seq<seq<byte>>)
    ensures |r| == |parts| && forall i :: 0 <= i < |parts| ==> r[i] == separator + parts[i]
  {
    seq(|parts|, i requires 0 <= i < |parts| => separator + parts[i])
  }

  /** A size of 0 leaves the text as it is. */
  lemma NoGroups(separator: seq<byte>, text: seq<byte>)
    ensures Grouped(0, separator, text) == text
  {
  }

  // ----- letters -----

  /** A letter of the alphabet stands for itself and, where case does not matter, for the same letter in the other case. */
  lemma StandsForExactly(a: byte, c: byte, caseInsensitive: bool)
    ensures StandsFor(a, c, caseInsensitive) <==>
              || c == a
              || (caseInsensitive && 'A' as int <= a <= 'Z' as int && c == a + 32)
              || (caseInsensitive && 'a' as int <= a <= 'z' as int && a == c + 32)
  {
  }
}
