/** `Grouper` of basecode.cpp, and the encoder, grouper and decoder one after another. */
module GroupedCode {
  import opened Bytes
  import opened BaseCodeSpec
  import opened BaseEncoder
  import opened BaseDecoder
  import opened Packing

  /** Text that ends in an open group of `counter` characters goes on with that group. */
  lemma {:induction false} GroupedExtends(size: nat, separator: seq<byte>, text: seq<byte>, counter: nat, more: seq<byte>)
    requires Open(size, text, counter) && counter + |more| <= size
    ensures Grouped(size, separator, text + more) == Grouped(size, separator, text) + more
    ensures Open(size, text + more, counter + |more|)
    decreases |text|
  {
    if |text| <= size {
    } else {
      GroupedExtends(size, separator, text[size..], counter, more);
      assert (text + more)[..size] == text[..size] && (text + more)[size..] == text[size..] + more;
    }
  }

  /** After a full group and with more text to come, a separator is due. */
  lemma {:induction false} GroupedBreaks(size: nat, separator: seq<byte>, text: seq<byte>, more: seq<byte>)
    requires Open(size, text, size) && 0 < |more| <= size
    ensures Grouped(size, separator, text + more) == Grouped(size, separator, text) + separator + more
    ensures Open(size, text + more, |more|)
    decreases |text|
  {
    if |text| <= size {
      assert (text + more)[..size] == text && (text + more)[size..] == more;
    } else {
      GroupedBreaks(size, separator, text[size..], more);
      assert (text + more)[..size] == text[..size] && (text + more)[size..] == text[size..] + more;
    }
  }

  /** The last group of `text` has `counter` characters. */
  ghost predicate Open(size: nat, text: seq<byte>, counter: nat)
    decreases |text|
  {
    size > 0 && if |text| <= size then counter == |text| else Open(size, text[size..], counter)
  }

  class Grouper {
    const groupSize: nat
    const separator: seq<byte>
    const terminator: seq<byte>
    var counter: nat
    var output: seq<byte>
    /** The text of the message so far, and where its output begins. */
    ghost var fed: seq<byte>
    ghost var base: nat

    ghost predicate Valid()
      reads this
    {
      && base <= |output| && output[base..] == Grouped(groupSize, separator, fed)
      && (groupSize > 0 ==> Open(groupSize, fed, counter)) && counter <= groupSize
    }

    constructor (groupSize: nat, separator: seq<byte>, terminator: seq<byte>)
      ensures Valid() && fed == [] && output == [] && base == 0
      ensures this.groupSize == groupSize && this.separator == separator && this.terminator == terminator
    {
      this.groupSize, this.separator, this.terminator := groupSize, separator, terminator;
      counter, output, fed, base := 0, [], [], 0;
    }

    method PutText(begin: seq<byte>)
      requires Valid()
      modifies `counter, `output, `fed
      ensures Valid() && fed == old(fed) + begin && output[..base] == old(output)[..base]
    {
      if groupSize > 0 {
        var position := 0;
        while position < |begin|
          invariant 0 <= position <= |begin| && Valid() && fed == old(fed) + begin[..position]
          invariant output[..base] == old(output)[..base]
        {
          var len := PutGroup(begin[position..]);
          assert begin[..position + len] == begin[..position] + begin[position..][..len];
          position := position + len;
        }
        assert begin[..position] == begin;
      } else {
        AppendAfter(output, base, begin);
        output, fed := output + begin, fed + begin;
      }
    }

    /** As much of the text as the group has room for, after a separator if the last group was full. */
    method PutGroup(text: seq<byte>) returns (len: nat)
      requires Valid() && groupSize > 0 && text != []
      modifies `counter, `output, `fed
      ensures 0 < len <= |text| && Valid() && fed == old(fed) + text[..len] && output[..base] == old(output)[..base]
    {
      hide Grouped, Open;
      var due := counter == groupSize;
      var room := if due then groupSize else groupSize - counter;
      len := if |text| < room then |text| else room;
      var more := text[..len];
      if due {
        GroupedBreaks(groupSize, separator, fed, more);
        AppendAfter(output, base, separator);
        output := output + separator;
        counter := 0;
      } else {
        GroupedExtends(groupSize, separator, fed, counter, more);
      }
      AppendAfter(output, base, more);
      output := output + more;
      counter := counter + len;
      fed := fed + more;
    }

    method Put(begin: seq<byte>, messageEnd: bool)
      requires Valid()
      modifies this
      ensures Valid() && fed == if messageEnd then [] else old(fed) + begin
      ensures messageEnd ==> base == |output|
      ensures messageEnd ==> output == old(output)[..old(base)] + Grouped(groupSize, separator, old(fed) + begin) + terminator
      ensures !messageEnd ==> base == old(base) && output[..base] == old(output)[..base]
    {
      PutText(begin);
      if messageEnd {
        assert output == output[..base] + output[base..];
        output := output + terminator;
        counter, fed, base := 0, [], |output|;
      }
    }
  }

  // ----- whole pipelines, in any chunks -----

  method EncodeChunks(alphabet: seq<byte>, w: nat, padding: Padding, chunks: seq<seq<byte>>) returns (text: seq<byte>)
    requires IsAlphabet(alphabet, w)
    ensures text == Encoded(alphabet, w, padding, Joined(chunks))
  {
    hide IsAlphabet, Encoded, Encoder.Valid;
    var encoder := new Encoder(alphabet, w, padding);
    for i := 0 to |chunks|
      invariant fresh(encoder) && fresh(encoder.outBuf) && encoder.Valid() && encoder.fed == Joined(chunks[..i]) && encoder.base == 0
    {
      JoinedNext(chunks, i);
      encoder.Put(chunks[i], false);
    }
    assert chunks[..|chunks|] == chunks;
    encoder.Put([], true);
    assert Joined(chunks) + [] == Joined(chunks);
    text := encoder.output;
  }

  method GroupChunks(size: nat, separator: seq<byte>, terminator: seq<byte>, chunks: seq<seq<byte>>) returns (text: seq<byte>)
    ensures text == Grouped(size, separator, Joined(chunks)) + terminator
  {
    hide Grouped;
    var grouper := new Grouper(size, separator, terminator);
    for i := 0 to |chunks|
      invariant fresh(grouper) && grouper.Valid() && grouper.fed == Joined(chunks[..i]) && grouper.base == 0
    {
      JoinedNext(chunks, i);
      grouper.Put(chunks[i], false);
    }
    assert chunks[..|chunks|] == chunks;
    grouper.Put([], true);
    assert Joined(chunks) + [] == Joined(chunks);
    text := grouper.output;
  }

  method DecodeChunks(lookup: seq<int>, w: nat, chunks: seq<seq<byte>>) returns (message: seq<byte>)
    requires |lookup| == 256 && TableFits(lookup, w)
    ensures message == Decoded(lookup, w, Joined(chunks))
  {
    hide TableFits, Decoded, Decoder.Valid;
    var decoder := new Decoder(lookup, w);
    for i := 0 to |chunks|
      invariant fresh(decoder) && fresh(decoder.outBuf) && decoder.Valid() && decoder.fed == Joined(chunks[..i]) && decoder.base == 0
    {
      JoinedNext(chunks, i);
      decoder.Put(chunks[i], false);
    }
    assert chunks[..|chunks|] == chunks;
    decoder.Put([], true);
    assert Joined(chunks) + [] == Joined(chunks);
    message := decoder.output;
  }

  /** Encoded, grouped and decoded with the alphabet's own table, a message comes back whatever the chunks: `cut`
      and `cutAgain` may divide the text between the filters in any way. */
  method EncodeGroupDecode(alphabet: seq<byte>, w: nat, padding: Padding, size: nat, separator: seq<byte>, terminator: seq<byte>,
                           caseInsensitive: bool, chunks: seq<seq<byte>>,
                           cut: seq<byte> -> seq<seq<byte>>, cutAgain: seq<byte> -> seq<seq<byte>>)
    returns (message: seq<byte>)
    requires IsAlphabet(alphabet, w)
    requires forall i, j :: 0 <= i < j < |alphabet| ==> !StandsFor(alphabet[j], alphabet[i], caseInsensitive)
    requires Outside(alphabet, caseInsensitive, separator) && Outside(alphabet, caseInsensitive, terminator)
    requires padding != -1 ==> Outside(alphabet, caseInsensitive, [padding])
    requires forall text :: Joined(cut(text)) == text && Joined(cutAgain(text)) == text
    ensures message == Joined(chunks)
  {
    var table := new int[256];
    InitializeDecodingLookupArray(table, alphabet, |alphabet|, caseInsensitive);
    var lookup := table[..];
    TableReady(lookup, alphabet, w, caseInsensitive);
    OutsideSkipped(lookup, alphabet, caseInsensitive, separator);
    OutsideSkipped(lookup, alphabet, caseInsensitive, terminator);
    if padding != -1 {
      OutsideSkipped(lookup, alphabet, caseInsensitive, [padding]);
      assert [padding][0] == padding;
    }
    var text := EncodeChunks(alphabet, w, padding, chunks);
    var grouped := GroupChunks(size, separator, terminator, cut(text));
    message := DecodeChunks(lookup, w, cutAgain(grouped));
    RoundTrip(alphabet, w, padding, lookup, size, separator, terminator, Joined(chunks));
  }

  /** No letter of the alphabet stands for any of these characters. */
  ghost predicate Outside(alphabet: seq<byte>, caseInsensitive: bool, text: seq<byte>) {
    forall k, i :: 0 <= k < |text| && 0 <= i < |alphabet| ==> !StandsFor(alphabet[i], text[k], caseInsensitive)
  }

  lemma OutsideSkipped(lookup: seq<int>, alphabet: seq<byte>, caseInsensitive: bool, text: seq<byte>)
    requires IsLookup(lookup) && Outside(alphabet, caseInsensitive, text)
    requires forall c: byte :: LastStanding(lookup[c], alphabet, |alphabet|, c, caseInsensitive)
    ensures Skipped(lookup, text)
  {
  }

  lemma TableReady(lookup: seq<int>, alphabet: seq<byte>, w: nat, caseInsensitive: bool)
    requires IsLookup(lookup) && IsAlphabet(alphabet, w)
    requires forall c: byte :: LastStanding(lookup[c], alphabet, |alphabet|, c, caseInsensitive)
    requires forall i, j :: 0 <= i < j < |alphabet| ==> !StandsFor(alphabet[j], alphabet[i], caseInsensitive)
    ensures TableFits(lookup, w) && Inverts(lookup, alphabet)
  {
  }
}
