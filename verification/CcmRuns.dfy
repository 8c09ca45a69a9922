/** Whole runs of the streaming CCM object: any split of header and message gives the one-shot result. */
module CcmRuns {
  import opened Bytes
  import opened CcmSpec
  import opened AuthEncProtocol
  import opened CcmStream

  lemma {:induction false} JoinedGrows(chunks: seq<seq<byte>>, i: nat)
    requires i <= |chunks|
    ensures |Joined(chunks[..i])| <= |Joined(chunks)|
    decreases |chunks| - i
  {
    if i == |chunks| {
      assert chunks[..i] == chunks;
    } else {
      JoinedNext(chunks, i);
      JoinedGrows(chunks, i + 1);
    }
  }

  method FeedHeader(ccm: Ccm, chunks: seq<seq<byte>>)
    requires ccm.TakingHeader() && ccm.header == []
    modifies ccm
    ensures ccm.TakingHeader() && ccm.header == Joined(chunks)
    ensures ccm.nonce == old(ccm.nonce) && ccm.aadLength == old(ccm.aadLength) && ccm.messageLength == old(ccm.messageLength)
  {
    hide Ccm.TakingHeader;
    for i := 0 to |chunks|
      invariant ccm.TakingHeader() && ccm.header == Joined(chunks[..i])
      invariant ccm.nonce == old(ccm.nonce) && ccm.aadLength == old(ccm.aadLength)
      invariant ccm.messageLength == old(ccm.messageLength)
    {
      assert ccm.Valid() by { HeaderPhaseIsValid(ccm); }
      var ok := ccm.Update(chunks[i]);
      JoinedNext(chunks, i);
    }
    assert chunks[..|chunks|] == chunks;
  }

  lemma HeaderPhaseIsValid(ccm: Ccm)
    requires ccm.TakingHeader()
    ensures ccm.Valid() && ccm.message == [] && 7 <= |ccm.nonce| <= 13
  {}

  lemma CiphertextAppend(e: Cipher, nonce: seq<byte>, a: seq<byte>, b: seq<byte>)
    requires 7 <= |nonce| <= 13
    ensures Ciphertext(e, nonce, a + b)
         == Ciphertext(e, nonce, a) + XorSeq(b, KeyStream(e, nonce, BLOCK + |a|, |b|))
  {
    hide Xor, KeyByte, XorSeq, KeyStream;
    var whole, parts := Ciphertext(e, nonce, a + b), Ciphertext(e, nonce, a) + XorSeq(b, KeyStream(e, nonce, BLOCK + |a|, |b|));
    assert |whole| == |parts|;
    forall i | 0 <= i < |whole|
      ensures whole[i] == parts[i]
    {
      assert whole[i] == Xor((a + b)[i], KeyByte(e, nonce, BLOCK + i));
      if i >= |a| {
        assert parts[i] == Xor(b[i - |a|], KeyByte(e, nonce, (BLOCK + |a|) + (i - |a|)));
      } else {
        assert parts[i] == Xor(a[i], KeyByte(e, nonce, BLOCK + i));
      }
    }
  }

  /** Past the header check: in the header phase with the declared header in, or in the message phase. */
  ghost predicate Running(ccm: Ccm)
    reads ccm
  {
    && ccm.aadLength == |ccm.header|
    && (ccm.TakingHeader() || ccm.TakingMessage())
  }

  /** One chunk through a buffer of its own, or in place. */
  method FeedChunk(ccm: Ccm, chunk: seq<byte>, inPlace: bool) returns (out: seq<byte>)
    requires Running(ccm) && |ccm.message| + |chunk| <= ccm.MaxMessageLength()
    modifies ccm
    ensures Running(ccm) && ccm.TakingMessage() && 7 <= |ccm.nonce| <= 13
    ensures ccm.nonce == old(ccm.nonce) && ccm.header == old(ccm.header) && ccm.lengthSize == old(ccm.lengthSize)
    ensures ccm.aadLength == old(ccm.aadLength) && ccm.messageLength == old(ccm.messageLength)
    ensures out == XorSeq(chunk, KeyStream(ccm.cipher, ccm.nonce, BLOCK + |old(ccm.message)|, |chunk|))
    ensures ccm.message == old(ccm.message) + if ccm.forward then chunk else out
  {
    hide CbcMac, Tail, Pad, FirstBlock, HeaderPrefix, IsInitialCounter, Pow256, Ccm.Fed, XorSeq, KeyStream;
    var n := |chunk|;
    var input := new byte[n](i requires 0 <= i < n => chunk[i]);
    assert input[..n] == chunk;
    var output := input;
    if !inPlace {
      output := new byte[n](_ => 0);
    }
    AdmitsChunk(ccm, n);
    var ok := ccm.ProcessData(output, input, n);
    out := output[..n];
  }

  lemma AdmitsChunk(ccm: Ccm, length: nat)
    requires Running(ccm) && |ccm.message| + length <= ccm.MaxMessageLength()
    ensures DoProcessData(ccm.TheMode(), ccm.Protocol(), length).returned
  {}

  /** The message chunks, each in place or not as `inPlace` says. */
  method FeedMessage(ccm: Ccm, chunks: seq<seq<byte>>, inPlace: bool) returns (out: seq<byte>)
    requires Running(ccm) && ccm.TakingHeader() && |Joined(chunks)| <= ccm.MaxMessageLength()
    modifies ccm
    ensures Running(ccm) && 7 <= |ccm.nonce| <= 13
    ensures ccm.nonce == old(ccm.nonce) && ccm.header == old(ccm.header)
    ensures ccm.aadLength == old(ccm.aadLength) && ccm.messageLength == old(ccm.messageLength)
    ensures out == Ciphertext(ccm.cipher, ccm.nonce, Joined(chunks))
    ensures ccm.message == if ccm.forward then Joined(chunks) else out
  {
    hide Ccm.TakingHeader, Ccm.TakingMessage, Running, Joined, Ciphertext, XorSeq, KeyStream, Pow256;
    out := [];
    HeaderPhaseIsValid(ccm);
    NoCiphertext(ccm.cipher, ccm.nonce);
    assert Joined(chunks[..0]) == [] by { NothingJoined(); }
    for i := 0 to |chunks|
      invariant Running(ccm) && 7 <= |ccm.nonce| <= 13
      invariant ccm.nonce == old(ccm.nonce) && ccm.header == old(ccm.header)
      invariant ccm.aadLength == old(ccm.aadLength) && ccm.messageLength == old(ccm.messageLength)
      invariant ccm.lengthSize == old(ccm.lengthSize)
      invariant out == Ciphertext(ccm.cipher, ccm.nonce, Joined(chunks[..i])) && |out| == |Joined(chunks[..i])|
      invariant ccm.message == if ccm.forward then Joined(chunks[..i]) else out
    {
      JoinedNext(chunks, i);
      JoinedGrows(chunks, i + 1);
      var piece := FeedChunk(ccm, chunks[i], inPlace);
      CiphertextAppend(ccm.cipher, ccm.nonce, Joined(chunks[..i]), chunks[i]);
      out := out + piece;
    }
    assert chunks[..|chunks|] == chunks;
  }

  lemma NoCiphertext(e: Cipher, nonce: seq<byte>)
    requires 7 <= |nonce| <= 13
    ensures Ciphertext(e, nonce, []) == []
  {}

  /** With the declared lengths in, `TruncatedFinal` succeeds. */
  lemma FinalSucceeds(ccm: Ccm, macSize: nat)
    requires Running(ccm) && ccm.messageLength == |ccm.message| && |ccm.header| <= 0xffff_ffff_ffff_ffff
    ensures ccm.Valid() && DoTruncatedFinal(ccm.TheMode(), ccm.Protocol(), macSize).returned
  {}

  /** The part of a run after the lengths are declared. */
  method Continue(ccm: Ccm, headerChunks: seq<seq<byte>>, chunks: seq<seq<byte>>, inPlace: bool, macSize: nat)
    returns (out: seq<byte>, mac: seq<byte>)
    requires ccm.TakingHeader() && ccm.header == [] && macSize <= BLOCK
    requires ccm.aadLength == |Joined(headerChunks)| <= 0xffff_ffff_ffff_ffff && ccm.messageLength == |Joined(chunks)|
    modifies ccm
    ensures 7 <= |ccm.nonce| <= 13 && ccm.nonce == old(ccm.nonce) && 4 <= ccm.digestSize <= 16 && ccm.digestSize % 2 == 0
    ensures out == Ciphertext(ccm.cipher, ccm.nonce, Joined(chunks))
    ensures mac == Tag(ccm.cipher, ccm.nonce, ccm.digestSize, macSize, Joined(headerChunks),
                       if ccm.forward then Joined(chunks) else out)
  {
    hide CbcMac, Tail, Pad, FirstBlock, HeaderPrefix, IsInitialCounter, Pow256, Ccm.Fed, Ciphertext, Tag, Joined;
    hide DoTruncatedFinal;
    FeedHeader(ccm, headerChunks);
    out := FeedMessage(ccm, chunks, inPlace);
    SameLength(ccm.cipher, ccm.nonce, Joined(chunks));
    FinalSucceeds(ccm, macSize);
    var ok;
    ok, mac := ccm.TruncatedFinal(macSize);
  }

  /** A whole run over an object, encrypting or decrypting. */
  method Process(cipher: Cipher, digestSize: nat, forward: bool, nonce: seq<byte>, headerChunks: seq<seq<byte>>,
                 chunks: seq<seq<byte>>, inPlace: bool, macSize: nat)
    returns (ok: bool, out: seq<byte>, mac: seq<byte>)
    requires 4 <= digestSize <= 16 && digestSize % 2 == 0 && macSize <= BLOCK
    ensures ok <==> 7 <= |nonce| <= 13 && WithinBounds(nonce, Joined(headerChunks), Joined(chunks))
    ensures ok <==> 7 <= |nonce| <= 13 && |Joined(headerChunks)| < 0x1_0000_0000_0000_0000 &&
                    |Joined(chunks)| < Pow256(15 - |nonce|)
    ensures ok ==> out == Ciphertext(cipher, nonce, Joined(chunks))
    ensures ok ==> mac == Tag(cipher, nonce, digestSize, macSize, Joined(headerChunks),
                              if forward then Joined(chunks) else out)
    ensures ok ==> |out| == |Joined(chunks)| && forall i :: 0 <= i < |out| ==>
              out[i] == Xor(Joined(chunks)[i], cipher(CounterBlock(nonce, 1 + i / BLOCK))[i % BLOCK])
    ensures ok ==> |mac| == macSize
    ensures ok ==>
              var text := Formatted(nonce, digestSize, Joined(headerChunks), if forward then Joined(chunks) else out);
              XorSeq(mac, cipher(CounterBlock(nonce, 0))[..macSize]) == CbcMac(cipher, Zeros(BLOCK), text)[..macSize]
  {
    hide CbcMac, Tail, Pad, FirstBlock, HeaderPrefix, IsInitialCounter, Pow256, Ccm.Fed, Ciphertext, Tag, Joined;
    hide DoPreload, DoTruncatedFinal, Formatted, XorSeq, CounterBlock, Xor;
    out, mac := [], [];
    var ccm := new Ccm(cipher, digestSize, forward);
    ok := ccm.Resynchronize(nonce);
    if !ok {
      return;
    }
    ok := ccm.SpecifyDataLengths(|Joined(headerChunks)|, |Joined(chunks)|, 0);
    if !ok {
      return;
    }
    out, mac := Continue(ccm, headerChunks, chunks, inPlace, macSize);
    TagUnmasked(cipher, nonce, digestSize, macSize, Joined(headerChunks), if forward then Joined(chunks) else out);
    CiphertextBytes(cipher, nonce, Joined(chunks));
  }

  lemma CiphertextBytes(e: Cipher, nonce: seq<byte>, message: seq<byte>)
    requires 7 <= |nonce| <= 13
    ensures |Ciphertext(e, nonce, message)| == |message|
    ensures forall i :: 0 <= i < |message| ==>
              Ciphertext(e, nonce, message)[i] == Xor(message[i], e(CounterBlock(nonce, 1 + i / BLOCK))[i % BLOCK])
  {
    hide Xor, CounterBlock;
  }

  /** Encrypting with one split and decrypting with another gives the message and the tag back. */
  method RoundTrip(cipher: Cipher, digestSize: nat, nonce: seq<byte>, header1: seq<seq<byte>>, message: seq<seq<byte>>,
                   header2: seq<seq<byte>>, ciphertext: seq<seq<byte>>, inPlace1: bool, inPlace2: bool)
    returns (plain: seq<byte>, mac1: seq<byte>, mac2: seq<byte>)
    requires 4 <= digestSize <= 16 && digestSize % 2 == 0 && 7 <= |nonce| <= 13
    requires WithinBounds(nonce, Joined(header1), Joined(message)) && Joined(header1) == Joined(header2)
    requires Joined(ciphertext) == Ciphertext(cipher, nonce, Joined(message))
    ensures plain == Joined(message) && mac1 == mac2
  {
    hide Ciphertext, Tag, Pow256;
    var ok1, sent, m1 := Process(cipher, digestSize, true, nonce, header1, message, inPlace1, digestSize);
    assert |Ciphertext(cipher, nonce, Joined(message))| == |Joined(message)| by {
      SameLength(cipher, nonce, Joined(message));
    }
    var ok2, received, m2 := Process(cipher, digestSize, false, nonce, header2, ciphertext, inPlace2, digestSize);
    DecryptionInverts(cipher, nonce, Joined(message));
    plain, mac1, mac2 := received, m1, m2;
  }

  lemma SameLength(e: Cipher, nonce: seq<byte>, m: seq<byte>)
    requires 7 <= |nonce| <= 13
    ensures |Ciphertext(e, nonce, m)| == |m|
  {}
}
