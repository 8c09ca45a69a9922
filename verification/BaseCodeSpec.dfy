/** Power-of-two base encodings with padding and grouping, on whole messages (sections 4, 5 and 7 of RFC 4648). */
module BaseCodeSpec {
  import opened Arithmetic
  import opened Bytes
  import opened BitStrings

  // ----- encoding -----

  /** Groups of `w` bits, the last one filled up with zeros. */
  function Chars(w: nat, bits: seq<bool>): (values: seq<byte>)
    requires 1 <= w <= 8
  {
    var rest := Rest(w, bits);
    Group(w, bits) + if rest == [] then [] else [ByteOf(rest + Falses(w - |rest|))]
  }

  ghost predicate IsAlphabet(alphabet: seq<byte>, w: nat) {
    1 <= w <= 7 && |alphabet| == Pow2(w)
  }

  function Letters(alphabet: seq<byte>, values: seq<byte>): (letters: seq<byte>)
    requires forall i :: 0 <= i < |values| ==> values[i] < |alphabet|
    ensures |letters| == |values| && forall i :: 0 <= i < |values| ==> letters[i] == alphabet[values[i]]
  {
    seq<byte>(|values|, i requires 0 <= i < |values| => alphabet[values[i]])
  }

  /** Characters per block: 8 for 1, 3, 5 and 7 bits, 4 for 2 and 6, 2 for 4. */
  function BlockChars(w: nat): nat {
    if w == 4 then 2 else if w == 2 || w == 6 then 4 else 8
  }

  /** How many padding characters complete `n` letters to whole blocks. */
  function PadCount(n: nat, block: nat): nat
    requires block > 0
  {
    (block - n % block) % block
  }

  /** `padding` is -1 when there is none. */
  type Padding = p: int | -1 <= p < 256

  function PaddingOf(padding: Padding, n: nat, block: nat): seq<byte>
    requires block > 0
  {
    if padding == -1 then [] else seq<byte>(PadCount(n, block), _ => padding)
  }

  function Encoded(alphabet: seq<byte>, w: nat, padding: Padding, message: seq<byte>): seq<byte>
    requires IsAlphabet(alphabet, w)
  {
    var values := Chars(w, Join(8, message));
    CharsNarrow(w, Join(8, message));
    Letters(alphabet, values) + PaddingOf(padding, |values|, BlockChars(w))
  }

  lemma CharsNarrow(w: nat, bits: seq<bool>)
    requires 1 <= w <= 8
    ensures Narrow(w, Chars(w, bits))
  {
    GroupNarrow(w, bits);
  }

  /** Encoded characters joined again are the message's bits, followed by fewer than `w` zeros. */
  lemma JoinOfChars(w: nat, bits: seq<bool>)
    requires 1 <= w <= 8
    ensures exists z: nat :: z < w && Join(w, Chars(w, bits)) == bits + Falses(z)
  {
    hide Join, Group, Bits, Value;
    JoinOfGroup(w, bits);
    var rest := Rest(w, bits);
    if rest == [] {
      assert Chars(w, bits) == Group(w, bits);
      assert Join(w, Chars(w, bits)) == bits + Falses(0);
    } else {
      var z := w - |rest|;
      JoinSnoc(w, Group(w, bits), ByteOf(rest + Falses(z)));
      BitsOfValue(rest + Falses(z));
      ConcatAssociates(Join(w, Group(w, bits)), rest, Falses(z));
      assert Join(w, Chars(w, bits)) == bits + Falses(z);
    }
  }

  // ----- decoding -----

  predicate IsLookup(lookup: seq<int>) {
    |lookup| == 256
  }

  /** The characters that have a value; all others are skipped. */
  function Values(lookup: seq<int>, text: seq<byte>): (values: seq<byte>)
    requires IsLookup(lookup)
  {
    if text == [] then []
    else
      var n := |text| - 1;
      var v := lookup[text[n]];
      Values(lookup, text[..n]) + if 0 <= v < 256 then [v as byte] else []
  }

  function Decoded(lookup: seq<int>, w: nat, text: seq<byte>): seq<byte>
    requires IsLookup(lookup)
  {
    Group(8, Join(w, Values(lookup, text)))
  }

  lemma {:induction false} ValuesAppend(lookup: seq<int>, a: seq<byte>, b: seq<byte>)
    requires IsLookup(lookup)
    ensures Values(lookup, a + b) == Values(lookup, a) + Values(lookup, b)
  {
    if b == [] {
      assert a + b == a;
    } else {
      var n := |b| - 1;
      ValuesAppend(lookup, a, b[..n]);
      assert (a + b)[..|a| + n] == a + b[..n];
    }
  }

  /** None of these characters has a value. */
  ghost predicate Skipped(lookup: seq<int>, text: seq<byte>)
    requires IsLookup(lookup)
  {
    forall i :: 0 <= i < |text| ==> !(0 <= lookup[text[i]] < 256)
  }

  lemma {:induction false} ValuesSkip(lookup: seq<int>, text: seq<byte>)
    requires IsLookup(lookup) && Skipped(lookup, text)
    ensures Values(lookup, text) == []
  {
    if text != [] {
      ValuesSkip(lookup, text[..|text| - 1]);
    }
  }

  ghost predicate Inverts(lookup: seq<int>, alphabet: seq<byte>)
    requires IsLookup(lookup)
  {
    forall i :: 0 <= i < |alphabet| ==> lookup[alphabet[i]] == i
  }

  lemma {:induction false} ValuesOfLetters(lookup: seq<int>, alphabet: seq<byte>, values: seq<byte>)
    requires IsLookup(lookup) && Inverts(lookup, alphabet)
    requires forall i :: 0 <= i < |values| ==> values[i] < |alphabet|
    ensures Values(lookup, Letters(alphabet, values)) == values
  {
    if values != [] {
      var n := |values| - 1;
      ValuesOfLetters(lookup, alphabet, values[..n]);
      assert Letters(alphabet, values)[..n] == Letters(alphabet, values[..n]);
      assert lookup[alphabet[values[n]]] == values[n];
    }
  }

  // ----- grouping -----

  /** `separator` between groups of `size` characters; a size of 0 means no groups. */
  function Grouped(size: nat, separator: seq<byte>, text: seq<byte>): seq<byte>
    decreases |text|
  {
    if size == 0 || |text| <= size then text
    else text[..size] + separator + Grouped(size, separator, text[size..])
  }

  lemma {:induction false} ValuesOfGrouped(lookup: seq<int>, size: nat, separator: seq<byte>, text: seq<byte>)
    requires IsLookup(lookup) && Skipped(lookup, separator)
    ensures Values(lookup, Grouped(size, separator, text)) == Values(lookup, text)
    decreases |text|
  {
    if size != 0 && |text| > size {
      ValuesOfGrouped(lookup, size, separator, text[size..]);
      ValuesAppend(lookup, text[..size] + separator, Grouped(size, separator, text[size..]));
      ValuesAppend(lookup, text[..size], separator);
      ValuesSkip(lookup, separator);
      ValuesAppend(lookup, text[..size], text[size..]);
      assert text == text[..size] + text[size..];
    }
  }

  /** Decoding the grouped encoding of any message gives that message. */
  lemma RoundTrip(alphabet: seq<byte>, w: nat, padding: Padding, lookup: seq<int>,
                  size: nat, separator: seq<byte>, terminator: seq<byte>, message: seq<byte>)
    requires IsAlphabet(alphabet, w) && IsLookup(lookup) && Inverts(lookup, alphabet)
    requires padding != -1 ==> !(0 <= lookup[padding] < 256)
    requires Skipped(lookup, separator) && Skipped(lookup, terminator)
    ensures Decoded(lookup, w, Grouped(size, separator, Encoded(alphabet, w, padding, message)) + terminator) == message
  {
    hide Values, Grouped, Encoded, Chars, Join, Group;
    var text := Encoded(alphabet, w, padding, message);
    EncodedValues(alphabet, w, padding, lookup, message);
    ValuesOfGrouped(lookup, size, separator, text);
    ValuesAppend(lookup, Grouped(size, separator, text), terminator);
    ValuesSkip(lookup, terminator);
    assert Values(lookup, text) + [] == Values(lookup, text);
    CharsRoundTrip(w, message);
  }

  lemma CharsRoundTrip(w: nat, message: seq<byte>)
    requires 1 <= w <= 7
    ensures Group(8, Join(w, Chars(w, Join(8, message)))) == message
  {
    assert Pow2(8) == 256;
    hide Chars, Join, Group;
    var bits := Join(8, message);
    JoinOfChars(w, bits);
    var z: nat :| z < w && Join(w, Chars(w, bits)) == bits + Falses(z);
    GroupOfJoin(8, message, Falses(z));
  }

  lemma EncodedValues(alphabet: seq<byte>, w: nat, padding: Padding, lookup: seq<int>, message: seq<byte>)
    requires IsAlphabet(alphabet, w) && IsLookup(lookup) && Inverts(lookup, alphabet)
    requires padding != -1 ==> !(0 <= lookup[padding] < 256)
    ensures Values(lookup, Encoded(alphabet, w, padding, message)) == Chars(w, Join(8, message))
  {
    var values := Chars(w, Join(8, message));
    CharsNarrow(w, Join(8, message));
    hide Chars, Join, Values;
    ValuesOfLetters(lookup, alphabet, values);
    var pad := PaddingOf(padding, |values|, BlockChars(w));
    ValuesAppend(lookup, Letters(alphabet, values), pad);
    ValuesSkip(lookup, pad);
  }

  // ----- the decoding table -----

  predicate IsUpper(c: byte) { 65 <= c <= 90 }
  predicate IsLower(c: byte) { 97 <= c <= 122 }
  predicate IsAlpha(c: byte) { IsUpper(c) || IsLower(c) }
  function ToUpper(c: byte): byte { if IsLower(c) then c - 32 else c }
  function ToLower(c: byte): byte { if IsUpper(c) then c + 32 else c }

  /** Whether letter `a` of the alphabet stands for character `c`. */
  predicate StandsFor(a: byte, c: byte, caseInsensitive: bool) {
    if caseInsensitive && IsAlpha(a) then c == ToUpper(a) || c == ToLower(a) else c == a
  }

  /** Each character has the value of the last letter that stands for it, and -1 if none does. */
  ghost predicate LastStanding(v: int, alphabet: seq<byte>, base: nat, c: byte, caseInsensitive: bool)
    requires base <= |alphabet|
  {
    && (v == -1 || (0 <= v < base && StandsFor(alphabet[v], c, caseInsensitive)))
    && (forall i :: 0 <= i < base && v < i ==> !StandsFor(alphabet[i], c, caseInsensitive))
  }

  method InitializeDecodingLookupArray(lookup: array<int>, alphabet: seq<byte>, base: nat, caseInsensitive: bool)
    requires lookup.Length == 256 && base <= |alphabet|
    modifies lookup
    ensures forall c: byte :: LastStanding(lookup[c], alphabet, base, c, caseInsensitive)
  {
    for c := 0 to 256
      invariant forall d :: 0 <= d < c ==> lookup[d] == -1
    {
      lookup[c] := -1;
    }
    for i := 0 to base
      invariant forall c: byte :: LastStanding(lookup[c], alphabet, i, c, caseInsensitive)
    {
      if caseInsensitive && IsAlpha(alphabet[i]) {
        lookup[ToUpper(alphabet[i])] := i;
        lookup[ToLower(alphabet[i])] := i;
      } else {
        lookup[alphabet[i]] := i;
      }
    }
  }

  /** The table inverts the alphabet exactly when no later letter stands for an earlier one. */
  lemma TableInvertsExactly(lookup: seq<int>, alphabet: seq<byte>, caseInsensitive: bool)
    requires IsLookup(lookup)
    requires forall c: byte :: LastStanding(lookup[c], alphabet, |alphabet|, c, caseInsensitive)
    ensures Inverts(lookup, alphabet) <==>
              forall i, j :: 0 <= i < j < |alphabet| ==> !StandsFor(alphabet[j], alphabet[i], caseInsensitive)
  {
  }

  /** Characters no letter stands for are skipped, and they alone. */
  lemma TableSkipsExactly(lookup: seq<int>, alphabet: seq<byte>, caseInsensitive: bool, c: byte)
    requires IsLookup(lookup) && |alphabet| <= 256
    requires LastStanding(lookup[c], alphabet, |alphabet|, c, caseInsensitive)
    ensures Skipped(lookup, [c]) <==> forall i :: 0 <= i < |alphabet| ==> !StandsFor(alphabet[i], c, caseInsensitive)
  {
    assert Skipped(lookup, [c]) <==> !(0 <= lookup[c] < 256) by { assert [c][0] == c; }
  }
}
