/** The streaming CCM object (ccm.cpp on top of authenc.cpp). */
module CcmStream {
  import opened Bytes
  import opened CcmSpec
  import opened AuthEncProtocol

  ghost predicate IsInitialCounter(b: Block, nonce: seq<byte>) {
    7 <= |nonce| <= 13 && b == CounterBlock(nonce, 0)
  }

  class Ccm {
    const cipher: Cipher
    const digestSize: nat
    const forward: bool
    var data: Block                // first half of m_buffer: bytes being collected
    var chaining: Block            // second half of m_buffer: the CBC chaining value
    var state: State
    var totalHeaderLength: nat
    var totalMessageLength: nat
    var totalFooterLength: nat
    var bufferedDataLength: nat
    var lengthSize: nat            // m_L
    var aadLength: nat
    var messageLength: nat
    var register: Block            // initial counter block of the CTR cipher
    var position: nat              // its position in the key stream
    ghost var nonce: seq<byte>
    ghost var header: seq<byte>    // fed so far
    ghost var message: seq<byte>   // plaintext processed so far
    ghost var log: seq<Finalisation>

    /** Buffer and chaining value are what feeding `s` after chaining value `x` leaves. */
    ghost predicate Fed(x: Block, s: seq<byte>)
      reads `bufferedDataLength, `data, `chaining
    {
      && bufferedDataLength < BLOCK
      && chaining == CbcMac(cipher, x, s)
      && data[..bufferedDataLength] == Tail(s)
    }

    /** memcpy(m_buffer + at, bytes, |bytes|). */
    method Collect(at: nat, bytes: seq<byte>)
      requires at + |bytes| <= BLOCK
      modifies `data
      ensures data[..at] == old(data[..at]) && data[at..at + |bytes|] == bytes
    {
      data := data[..at] + bytes + data[at + |bytes|..];
    }

    /** Chains the whole blocks of `input`; returns the number of bytes left over. */
    method AuthenticateBlocks(input: seq<byte>) returns (leftOver: nat)
      modifies `chaining
      ensures chaining == CbcMac(cipher, old(chaining), input)
      ensures leftOver == |input| % BLOCK
    {
      var rest := input;
      while |rest| >= BLOCK
        invariant |rest| % BLOCK == |input| % BLOCK
        invariant CbcMac(cipher, chaining, rest) == CbcMac(cipher, old(chaining), input)
        decreases |rest|
      {
        chaining := cipher(XorSeq(chaining, rest[..BLOCK]));
        rest := rest[BLOCK..];
      }
      leftOver := |rest|;
    }

    /** Completes the collected block with the start of `input`, chains it, and returns the rest. */
    method CompleteBlock(input: seq<byte>) returns (rest: seq<byte>)
      requires 0 < bufferedDataLength < BLOCK <= bufferedDataLength + |input|
      modifies `data, `chaining, `bufferedDataLength
      ensures bufferedDataLength == 0
      ensures CbcMac(cipher, chaining, rest)
           == CbcMac(cipher, old(chaining), old(data[..bufferedDataLength]) + input)
      ensures Tail(rest) == Tail(old(data[..bufferedDataLength]) + input)
    {
      hide CbcMac, Tail;
      ghost var joined := data[..bufferedDataLength] + input;
      var fill := BLOCK - bufferedDataLength;
      Collect(bufferedDataLength, input[..fill]);
      assert data == joined[..BLOCK];
      var left := AuthenticateBlocks(data);
      rest := input[fill..];
      bufferedDataLength := 0;
      assert joined == joined[..BLOCK] + joined[BLOCK..] && joined[BLOCK..] == rest;
      CbcMacAppend(cipher, old(chaining), joined[..BLOCK], joined[BLOCK..]);
      WholeBlockTail(joined);
    }

    /** With nothing collected: chains whole blocks, then collects the rest. */
    method ChainRest(inputIn: seq<byte>)
      requires bufferedDataLength == 0
      modifies `data, `chaining, `bufferedDataLength
      ensures Fed(old(chaining), inputIn)
    {
      hide CbcMac, Tail;
      var input := inputIn;
      if |input| >= BLOCK {
        var leftOver := AuthenticateBlocks(input);
        input := input[|input| - leftOver..];
      } else {
        ShortData(cipher, chaining, input);
      }
      Collect(0, input);
      bufferedDataLength := |input|;
    }

    /** Adds input that does not complete a block. */
    method CollectShort(input: seq<byte>)
      requires bufferedDataLength + |input| < BLOCK
      modifies `data, `bufferedDataLength
      ensures Fed(chaining, old(data[..bufferedDataLength]) + input)
    {
      hide CbcMac, Tail;
      ghost var joined := data[..bufferedDataLength] + input;
      Collect(bufferedDataLength, input);
      bufferedDataLength := bufferedDataLength + |input|;
      assert data[..bufferedDataLength] == joined;
      ShortData(cipher, chaining, joined);
    }

    /** Feeds `input`, however the whole input is cut: the result depends only on the concatenation. */
    method AuthenticateData(input: seq<byte>, ghost x: Block, ghost s: seq<byte>)
      requires Fed(x, s)
      modifies `data, `chaining, `bufferedDataLength
      ensures Fed(x, s + input)
    {
      hide CbcMac, Tail;
      if input == [] {
        assert s + input == s;
        return;
      }
      ghost var joined := data[..bufferedDataLength] + input;
      if bufferedDataLength > 0 {
        if bufferedDataLength + |input| >= BLOCK {
          var rest := CompleteBlock(input);
          ChainRest(rest);
        } else {
          CollectShort(input);
        }
      } else {
        assert joined == input;
        ChainRest(input);
      }
      assert Fed(old(chaining), joined);
      CbcMacResumes(cipher, x, s, input);
    }

    // ----- the phases of a run -----

    ghost predicate Valid()
      reads this
    {
      && bufferedDataLength < BLOCK && 4 <= digestSize <= 16 && digestSize % 2 == 0 && 2 <= lengthSize <= 8
      && (state != Start && state != KeySet ==>
            && 7 <= |nonce| <= 13 && lengthSize == LengthSize(nonce) && IsInitialCounter(register, nonce)
            && totalMessageLength <= MaxMessageLength() && position <= BLOCK + totalMessageLength)
    }

    /** Just resynchronized: the buffer still holds the initial counter block. */
    ghost predicate Fresh()
      reads this
    {
      && Valid() && state == IVSet && bufferedDataLength == 0
      && totalHeaderLength == totalMessageLength == totalFooterLength == 0
      && aadLength == messageLength == 0 && position == BLOCK
      && header == message == [] && log == []
      && IsInitialCounter(data, nonce)
    }

    /** Chaining value after the first block. */
    ghost function AfterFirst(): Block
      reads this
      requires Valid() && state != Start && state != KeySet
    {
      cipher(FirstBlock(nonce, digestSize, aadLength, messageLength))
    }

    /** Chaining value after the padded header. */
    ghost function AfterHeader(): Block
      reads this
      requires Valid() && state != Start && state != KeySet
    {
      CbcMac(cipher, AfterFirst(), Pad(HeaderPrefix(aadLength) + header))
    }

    ghost predicate TakingHeader()
      reads this
    {
      && Valid() && state == IVSet
      && totalHeaderLength == |header| && totalMessageLength == totalFooterLength == 0
      && messageLength <= MaxMessageLength() && position == BLOCK && message == [] && log == []
      && Fed(AfterFirst(), HeaderPrefix(aadLength) + header)
    }

    ghost predicate TakingMessage()
      reads this
    {
      TakingMessageBut(0)
    }

    /** In the message phase, with `length` further bytes counted but not processed yet. */
    ghost predicate TakingMessageBut(length: nat)
      reads this
    {
      && Valid() && state == (if forward then AuthUntransformed else AuthTransformed)
      && totalHeaderLength == |header| == aadLength && totalFooterLength == 0
      && totalMessageLength == |message| + length && messageLength <= MaxMessageLength()
      && position == BLOCK + |message| && log == [HeaderDone]
      && Fed(AfterHeader(), message)
    }

    function MaxMessageLength(): nat
      reads this
    {
      Pow256(lengthSize) - 1
    }

    /** The base-class view of the object. */
    ghost function Protocol(): Machine
      reads this
    {
      Machine(state, totalHeaderLength, totalMessageLength, totalFooterLength, bufferedDataLength, log)
    }

    /** CCM as a mode of the base class: its hooks compare totals with the declared lengths. */
    ghost function TheMode(): (mode: Mode)
      reads this
      ensures mode.blockSize == BLOCK
    {
      var aad, len := aadLength, messageLength;
      Mode(BLOCK, 0xffff_ffff_ffff_ffff, MaxMessageLength(), 0, forward,
           (m: Machine) => m.header == aad, (m: Machine) => m.message == len, (m: Machine, size: nat) => true)
    }

    constructor (cipher: Cipher, digestSize: nat, forward: bool)
      requires 4 <= digestSize <= 16 && digestSize % 2 == 0
      ensures Valid() && state == KeySet
      ensures this.cipher == cipher && this.digestSize == digestSize && this.forward == forward
    {
      this.cipher, this.digestSize, this.forward := cipher, digestSize, forward;
      data, chaining, register := Zeros(BLOCK), Zeros(BLOCK), Zeros(BLOCK);
      state := KeySet;
      totalHeaderLength, totalMessageLength, totalFooterLength, bufferedDataLength := 0, 0, 0, 0;
      lengthSize, aadLength, messageLength, position := 8, 0, 0, 0;
      nonce, header, message, log := [], [], [], [];
    }

    /** CCM's part of `Resynchronize`: loads the initial counter block and skips its key stream. */
    method Resync(iv: seq<byte>)
      requires 7 <= |iv| <= 13
      modifies `data, `lengthSize, `register, `position, `aadLength, `messageLength, `nonce, `header, `message
      ensures nonce == iv && header == message == [] && aadLength == messageLength == 0 && position == BLOCK
      ensures lengthSize == LengthSize(nonce)
      ensures IsInitialCounter(register, nonce) && IsInitialCounter(data, nonce)
    {
      hide CounterBlock, Zeros;
      lengthSize := BLOCK - 1 - |iv|;
      data := [lengthSize - 1] + iv + Zeros(BLOCK - 1 - |iv|);
      CounterBlockZero(iv);
      register := data;
      position := BLOCK;
      aadLength, messageLength := 0, 0;
      nonce, header, message := iv, [], [];
    }

    method Resynchronize(iv: seq<byte>) returns (ok: bool)
      requires Valid()
      modifies this
      ensures Valid()
      ensures Outcome(Protocol(), ok) == DoResynchronize(old(Protocol()), 7 <= |iv| <= 13)
      ensures ok ==> Fresh() && nonce == iv
    {
      hide CbcMac, Tail, IsInitialCounter, Zeros, Pow256;
      if state == Start {
        return false;
      }
      bufferedDataLength := 0;
      totalHeaderLength, totalMessageLength, totalFooterLength := 0, 0, 0;
      state, log := KeySet, [];
      ok := 7 <= |iv| <= 13;
      if ok {
        Resync(iv);
        state := IVSet;
      }
    }

    /** Chains the first block, then puts the encoding of a non-zero header length into the buffer. */
    method UncheckedSpecifyDataLengths(headerLength: nat, length: nat)
      requires Fresh() && length <= MaxMessageLength()
      modifies `data, `chaining, `aadLength, `messageLength, `bufferedDataLength
      ensures TakingHeader() && bufferedDataLength == |HeaderPrefix(headerLength)|
      ensures aadLength == headerLength && messageLength == length
    {
      hide CbcMac, Tail, Pow256, HeaderPrefix, FirstBlock, IsInitialCounter;
      var first := FirstBlockInPlace(digestSize, lengthSize, headerLength, length, data, nonce);
      var prefix := HeaderPrefix(headerLength);
      var chained := cipher(first);
      NoPrefix();
      ShortData(cipher, chained, prefix);
      assert prefix + header == prefix;
      aadLength, messageLength, chaining := headerLength, length, chained;
      if headerLength > 0 {
        data := prefix + data[|prefix|..];
        bufferedDataLength := |prefix|;
      }
    }

    /** Declares the lengths; to be called before any input. */
    method SpecifyDataLengths(headerLength: nat, length: nat, footerLength: nat) returns (ok: bool)
      requires Valid() && (state == IVSet ==> Fresh())
      modifies `data, `chaining, `aadLength, `messageLength, `bufferedDataLength
      ensures ok <==> headerLength <= 0xffff_ffff_ffff_ffff && length <= MaxMessageLength()
                      && footerLength == 0 && state == IVSet
      ensures ok ==> TakingHeader() && aadLength == headerLength && messageLength == length
      ensures ok ==>
        Outcome(Protocol(), ok) == DoPreload(TheMode(), old(Protocol()), |HeaderPrefix(headerLength)|)
      ensures !ok ==> unchanged(this)
    {
      hide CbcMac, Tail, IsInitialCounter, Pow256, HeaderPrefix, FirstBlock, Fed;
      ok := headerLength <= 0xffff_ffff_ffff_ffff && length <= MaxMessageLength() && footerLength <= 0
            && state == IVSet;
      if ok {
        UncheckedSpecifyDataLengths(headerLength, length);
      }
    }

    /** Feeds data where the base class does, whatever the phase; `x` and `s` say what was fed before. */
    method AuthenticateCounted(input: seq<byte>, ghost x: Block, ghost s: seq<byte>)
      requires Fed(x, s)
      modifies `data, `chaining, `bufferedDataLength
      ensures Fed(x, s + input)
      ensures bufferedDataLength == (old(bufferedDataLength) + |input|) % BLOCK
    {
      hide CbcMac, Tail;
      assert bufferedDataLength == |Tail(s)|;
      AuthenticateData(input, x, s);
      assert bufferedDataLength == |Tail(s + input)|;
      ModAdd(|s|, |input|);
    }

    /** Chains the incomplete block, if any, padded with zeros. */
    method ChainPadded(ghost x: Block, ghost s: seq<byte>)
      requires Fed(x, s)
      modifies `chaining, `bufferedDataLength
      ensures bufferedDataLength == 0 && chaining == CbcMac(cipher, x, Pad(s))
    {
      hide CbcMac, Tail, Pad;
      CbcMacPads(cipher, x, s);
      if bufferedDataLength > 0 {
        chaining := cipher(XorPrefix(chaining, data[..bufferedDataLength]));
        bufferedDataLength := 0;
      }
    }

    method AuthenticateLastHeaderBlock(ghost x: Block, ghost s: seq<byte>) returns (ok: bool)
      requires Fed(x, s)
      modifies `chaining, `bufferedDataLength, `log
      ensures ok <==> aadLength == totalHeaderLength
      ensures ok ==> bufferedDataLength == 0 && chaining == CbcMac(cipher, x, Pad(s)) && log == old(log) + [HeaderDone]
      ensures !ok ==> unchanged(this)
    {
      hide CbcMac, Tail, Pad, Fed;
      ok := aadLength == totalHeaderLength;
      if ok {
        ChainPadded(x, s);
        log := log + [HeaderDone];
      }
    }

    method AuthenticateLastConfidentialBlock(ghost x: Block, ghost s: seq<byte>) returns (ok: bool)
      requires Fed(x, s)
      modifies `chaining, `bufferedDataLength, `log
      ensures ok <==> messageLength == totalMessageLength
      ensures ok ==> bufferedDataLength == 0 && chaining == CbcMac(cipher, x, Pad(s)) && log == old(log) + [ConfidentialDone]
      ensures !ok ==> unchanged(this)
    {
      hide CbcMac, Tail, Pad, Fed;
      ok := messageLength == totalMessageLength;
      if ok {
        ChainPadded(x, s);
        log := log + [ConfidentialDone];
      }
    }

    /** Whatever the phase, the buffer and chaining value are what feeding the buffered bytes leaves. */
    lemma AlwaysFed()
      requires bufferedDataLength < BLOCK
      ensures Fed(chaining, data[..bufferedDataLength])
    {
      ShortData(cipher, chaining, data[..bufferedDataLength]);
    }

    method UpdateHeader(input: seq<byte>)
      requires Valid() && state == IVSet
      modifies `data, `chaining, `bufferedDataLength, `totalHeaderLength, `header
      ensures bufferedDataLength == (old(bufferedDataLength) + |input|) % BLOCK
      ensures totalHeaderLength == old(totalHeaderLength) + |input|
      ensures old(TakingHeader()) ==> TakingHeader() && header == old(header) + input
    {
      hide CbcMac, Tail, IsInitialCounter, Pow256, HeaderPrefix, FirstBlock, Fed;
      AlwaysFed();
      ghost var fed := HeaderPrefix(aadLength) + header;
      AuthenticateCounted(input, if TakingHeader() then AfterFirst() else chaining,
                          if TakingHeader() then fed else data[..bufferedDataLength]);
      assert fed + input == HeaderPrefix(aadLength) + (header + input);
      header := header + input;
      totalHeaderLength := totalHeaderLength + |input|;
    }

    method UpdateFooter(input: seq<byte>)
      requires bufferedDataLength < BLOCK
      modifies `data, `chaining, `bufferedDataLength, `totalFooterLength
      ensures bufferedDataLength == (old(bufferedDataLength) + |input|) % BLOCK
      ensures totalFooterLength == old(totalFooterLength) + |input|
    {
      hide CbcMac, Tail, Fed;
      AlwaysFed();
      AuthenticateCounted(input, chaining, data[..bufferedDataLength]);
      totalFooterLength := totalFooterLength + |input|;
    }

    lemma EmptyFed()
      requires bufferedDataLength == 0
      ensures Fed(chaining, [])
    {
      ShortData(cipher, chaining, []);
    }

    /** The change of state at the start of the footer. */
    method BeginFooter() returns (ok: bool)
      requires Valid() && state != IVSet
      modifies `chaining, `bufferedDataLength, `log, `state
      ensures Valid() && Outcome(Protocol(), ok) == DoBeginFooter(TheMode(), old(Protocol()))
    {
      hide CbcMac, Tail, IsInitialCounter, Pow256, Fed, Pad, LengthSize;
      match state
      case Start | KeySet =>
        ok := false;
      case AuthUntransformed | AuthTransformed =>
        AlwaysFed();
        ok := AuthenticateLastConfidentialBlock(chaining, data[..bufferedDataLength]);
        if ok {
          bufferedDataLength := 0;
          state := AuthFooter;
        }
      case AuthFooter =>
        ok := true;
    }

    /** Header before the message, footer after it. */
    method Update(input: seq<byte>) returns (ok: bool)
      requires Valid()
      modifies `data, `chaining, `bufferedDataLength, `state, `totalHeaderLength, `totalFooterLength, `header, `log
      ensures Valid()
      ensures Outcome(Protocol(), ok) == DoUpdate(TheMode(), old(Protocol()), |input|)
      ensures old(TakingHeader()) ==> TakingHeader() && header == old(header) + input
    {
      hide CbcMac, Tail, IsInitialCounter, Pow256, HeaderPrefix, FirstBlock, Fed, LengthSize, DoBeginFooter;
      assert header + [] == header;
      if input == [] {
        return true;
      }
      if state == IVSet {
        UpdateHeader(input);
        ok := true;
      } else {
        ok := BeginFooter();
        if ok {
          UpdateFooter(input);
        }
      }
    }

    /** The counter-mode cipher: xors `length` bytes with the key stream and moves on. The output may
        be the input array. */
    method CtrProcess(output: array<byte>, input: array<byte>, length: nat)
      requires Valid() && state != Start && state != KeySet
      requires length <= input.Length && length <= output.Length && position + length < BLOCK * Pow256(lengthSize)
      modifies output, `position
      ensures position == old(position) + length
      ensures output[..length] == XorSeq(old(input[..length]), KeyStream(cipher, nonce, old(position), length))
      ensures output[length..] == old(output[length..])
    {
      hide Xor, Pow256, CounterBlock, AddCounter, LengthSize;
      for i := 0 to length
        invariant position == old(position) && Valid() && state == old(state)
        invariant forall j :: 0 <= j < i ==> output[j] == Xor(old(input[j]), KeyByte(cipher, nonce, position + j))
        invariant forall j :: i <= j < input.Length ==> input[j] == old(input[j])
        invariant forall j :: i <= j < output.Length ==> output[j] == old(output[j])
      {
        var pos := position + i;
        assert AddCounter(register, pos / BLOCK) == CounterBlock(nonce, pos / BLOCK) by {
          CounterIsAddition(nonce, pos / BLOCK);
        }
        output[i] := Xor(input[i], cipher(AddCounter(register, pos / BLOCK))[pos % BLOCK]);
      }
      position := position + length;
    }

    /** Ends the header and chooses the message state. */
    method BeginMessage(ghost x: Block, ghost s: seq<byte>) returns (ok: bool)
      requires Fed(x, s)
      modifies `chaining, `bufferedDataLength, `log, `state
      ensures ok <==> aadLength == totalHeaderLength
      ensures ok ==> bufferedDataLength == 0 && chaining == CbcMac(cipher, x, Pad(s)) && log == old(log) + [HeaderDone]
      ensures ok ==> state == if forward then AuthUntransformed else AuthTransformed
      ensures !ok ==> unchanged(this)
    {
      hide CbcMac, Tail, Pad, Fed;
      ok := AuthenticateLastHeaderBlock(x, s);
      if ok {
        bufferedDataLength := 0;
        state := if forward then AuthUntransformed else AuthTransformed;
      }
    }

    /** Transforms message bytes and authenticates the plaintext among them: the input before the
        cipher runs when encrypting, the output after it when decrypting. */
    method Transform(output: array<byte>, input: array<byte>, length: nat, ghost x: Block, ghost s: seq<byte>)
      requires Valid() && (state == AuthUntransformed || state == AuthTransformed) && Fed(x, s)
      requires length <= input.Length && length <= output.Length && position + length < BLOCK * Pow256(lengthSize)
      modifies output, `position, `data, `chaining, `bufferedDataLength
      ensures position == old(position) + length
      ensures output[..length] == XorSeq(old(input[..length]), KeyStream(cipher, nonce, old(position), length))
      ensures output[length..] == old(output[length..])
      ensures Fed(x, s + if state == AuthUntransformed then old(input[..length]) else output[..length])
      ensures bufferedDataLength == (old(bufferedDataLength) + length) % BLOCK
    {
      hide CbcMac, Tail, Fed, IsInitialCounter, Pow256, LengthSize;
      if state == AuthUntransformed {
        AuthenticateCounted(input[..length], x, s);
        CtrProcess(output, input, length);
      } else {
        CtrProcess(output, input, length);
        AuthenticateCounted(output[..length], x, s);
      }
    }

    /** Message bytes in a message state; the running total already counts them. */
    method ProcessNext(output: array<byte>, input: array<byte>, length: nat, ghost start: Block)
      requires Valid() && (state == AuthUntransformed || state == AuthTransformed)
      requires length <= input.Length && length <= output.Length && position + length <= BLOCK + totalMessageLength
      modifies output, `position, `data, `chaining, `bufferedDataLength, `message
      ensures position == old(position) + length
      ensures bufferedDataLength == (old(bufferedDataLength) + length) % BLOCK
      ensures output[length..] == old(output[length..])
      ensures output[..length] == XorSeq(old(input[..length]), KeyStream(cipher, nonce, old(position), length))
      ensures message == old(message) + if state == AuthUntransformed then old(input[..length]) else output[..length]
      ensures old(Fed(start, message)) ==> Fed(start, message)
    {
      hide CbcMac, Tail, Fed, IsInitialCounter, Pow256, LengthSize, XorSeq, KeyStream;
      AlwaysFed();
      CounterRoom(lengthSize, position + length);
      ghost var known := Fed(start, message);
      Transform(output, input, length, if known then start else chaining,
                if known then message else data[..bufferedDataLength]);
      message := message + if state == AuthUntransformed then old(input[..length]) else output[..length];
    }

    /** The checks and the change of state at the start of `ProcessData`. */
    method Admit(length: nat) returns (ok: bool)
      requires Valid()
      modifies `totalMessageLength, `chaining, `bufferedDataLength, `log, `state
      ensures Valid() && Outcome(Protocol(), ok) == DoAdmit(TheMode(), old(Protocol()), length)
      ensures ok ==> position + length <= BLOCK + totalMessageLength
      ensures ok && (old(TakingHeader()) || old(TakingMessage())) ==> TakingMessageBut(length)
    {
      hide CbcMac, Tail, IsInitialCounter, Pow256, HeaderPrefix, FirstBlock, Fed, Pad, LengthSize;
      if state != Start && state != KeySet && length > MaxMessageLength() - totalMessageLength {
        return false;
      }
      totalMessageLength := totalMessageLength + length;
      match state
      case Start | KeySet | AuthFooter =>
        ok := false;
      case IVSet =>
        AlwaysFed();
        ghost var taking := old(TakingHeader());
        ok := BeginMessage(if taking then AfterFirst() else chaining,
                           if taking then HeaderPrefix(aadLength) + header else data[..bufferedDataLength]);
        if ok { EmptyFed(); }
      case AuthUntransformed | AuthTransformed =>
        ok := true;
    }

    /** Encrypts or decrypts message bytes; the output may overwrite the input. */
    method ProcessData(output: array<byte>, input: array<byte>, length: nat) returns (ok: bool)
      requires Valid() && length <= input.Length && length <= output.Length
      modifies output, `totalMessageLength, `position, `data, `chaining, `bufferedDataLength, `message, `log, `state
      ensures Valid()
      ensures Outcome(Protocol(), ok) == DoProcessData(TheMode(), old(Protocol()), length)
      ensures output[length..] == old(output[length..]) && (!ok ==> output[..] == old(output[..]))
      ensures ok && (old(TakingHeader()) || old(TakingMessage())) ==>
        && TakingMessage()
        && output[..length] == XorSeq(old(input[..length]), KeyStream(cipher, nonce, BLOCK + |old(message)|, length))
        && message == old(message) + if forward then old(input[..length]) else output[..length]
    {
      hide CbcMac, Tail, IsInitialCounter, Pow256, HeaderPrefix, FirstBlock, Fed, Pad, LengthSize, XorSeq, KeyStream;
      hide DoAdmit, TakingHeader, FinishHeader, FinishConfidential, BufferedLength, CounterBlock, Xor, BigEndian, Zeros;
      ok := Admit(length);
      if ok {
        assert state == AuthUntransformed || state == AuthTransformed by { AdmitChoosesState(TheMode(), old(Protocol()), length); }
        ProcessNext(output, input, length, AfterHeader());
      }
    }

    /** The CBC-MAC of everything, when the lengths are the declared ones. */
    ghost function Mac(): Block
      reads this
      requires Valid() && state != Start && state != KeySet
    {
      CbcMac(cipher, Zeros(BLOCK), Formatted(nonce, digestSize, header, message))
    }

    lemma MacIsChained(x: Block, y: Block)
      requires Valid() && state != Start && state != KeySet && aadLength == |header| && messageLength == |message|
      requires x == CbcMac(cipher, AfterFirst(), Pad(HeaderPrefix(aadLength) + header))
      requires y == CbcMac(cipher, x, Pad(message))
      ensures y == Mac()
    {
      hide CbcMac, Formatted, FirstBlock, HeaderPrefix, Pad, IsInitialCounter, LengthSize, Pow256;
      FormattedChain(cipher, nonce, digestSize, header, message);
    }

    /** The finalisations `TruncatedFinal` still has to do. */
    method FinishAll() returns (ok: bool)
      requires Valid()
      modifies `chaining, `bufferedDataLength, `log
      ensures Valid() && Outcome(Protocol(), ok) == DoFinishAll(TheMode(), old(Protocol()))
      ensures ok ==> state != Start && state != KeySet
      ensures ok && (old(TakingHeader()) || old(TakingMessage())) ==> chaining == Mac()
    {
      hide CbcMac, Tail, IsInitialCounter, Pow256, HeaderPrefix, FirstBlock, Fed, Pad, LengthSize, Formatted;
      if state == Start || state == KeySet {
        return false;
      }
      AlwaysFed();
      ok := true;
      ghost var x, s := chaining, data[..bufferedDataLength];
      if old(TakingMessage()) {
        x, s := AfterHeader(), message;
      }
      if state == IVSet {
        ghost var taking := TakingHeader();
        ok := AuthenticateLastHeaderBlock(if taking then AfterFirst() else chaining,
                if taking then HeaderPrefix(aadLength) + header else data[..bufferedDataLength]);
        if !ok {
          return;
        }
        x, s := chaining, [];
        EmptyFed();
      }
      if state != AuthFooter {
        ok := AuthenticateLastConfidentialBlock(x, s);
      }
      if ok && (old(TakingHeader()) || old(TakingMessage())) {
        MacIsChained(x, chaining);
      }
    }

    /** Encrypts the chaining value with the key stream of counter block 0. */
    method AuthenticateLastFooterBlock(macSize: nat) returns (mac: seq<byte>)
      requires Valid() && state != Start && state != KeySet && macSize <= BLOCK
      modifies `position
      ensures position == macSize && mac == XorSeq(chaining[..macSize], KeyStream(cipher, nonce, 0, macSize))
    {
      hide IsInitialCounter, Pow256, LengthSize, XorSeq, KeyStream;
      position := 0;
      var input, output := new byte[BLOCK](i requires 0 <= i < BLOCK reads this => chaining[i]), new byte[BLOCK](_ => 0);
      assert input[..macSize] == chaining[..macSize];
      CounterRoom(lengthSize, macSize);
      CtrProcess(output, input, macSize);
      mac := output[..macSize];
    }

    /** Finishes the run: the tag, and the object ready for the next initialization vector. */
    method TruncatedFinal(macSize: nat) returns (ok: bool, mac: seq<byte>)
      requires Valid() && macSize <= BLOCK
      modifies `chaining, `bufferedDataLength, `log, `state, `position
      ensures Valid() && Outcome(Protocol(), ok) == DoTruncatedFinal(TheMode(), old(Protocol()), macSize)
      ensures ok && (old(TakingHeader()) || old(TakingMessage())) ==>
        mac == Tag(cipher, nonce, digestSize, macSize, header, message)
    {
      hide CbcMac, Tail, IsInitialCounter, Pow256, HeaderPrefix, FirstBlock, Fed, Pad, LengthSize, Formatted, DoFinishAll;
      mac := [];
      if totalHeaderLength > 0xffff_ffff_ffff_ffff || totalFooterLength > 0 {
        return false, [];
      }
      ok := FinishAll();
      if ok {
        mac := AuthenticateLastFooterBlock(macSize);
        bufferedDataLength := 0;
        state, log := KeySet, log + [FooterDone];
      }
    }
  }

  lemma AdmitChoosesState(mode: Mode, m: Machine, length: nat)
    requires DoAdmit(mode, m, length).returned
    ensures DoAdmit(mode, m, length).after.state == AuthUntransformed
         || DoAdmit(mode, m, length).after.state == AuthTransformed
  {}

  lemma WholeBlockTail(s: seq<byte>)
    requires |s| >= BLOCK
    ensures Tail(s) == Tail(s[BLOCK..])
  {}

  lemma ShortData(e: Cipher, x: Block, s: seq<byte>)
    requires |s| < BLOCK
    ensures CbcMac(e, x, s) == x && Tail(s) == s
  {}

  lemma NoPrefix()
    ensures HeaderPrefix(0) == []
  {}

  /** The first block as it is built in place: the 64-bit length, overlaid with the nonce. */
  function Overlay(flags: byte, data: Block, l: nat, length: nat): (b: Block)
    requires 2 <= l <= 8
  {
    [flags] + data[1..BLOCK - l] + BigEndian(length, 8)[8 - l..]
  }

  lemma Overlaid(flags: byte, data: Block, l: nat, length: nat, iv: seq<byte>)
    requires 7 <= |iv| <= 13 && l == LengthSize(iv)
    ensures IsInitialCounter(data, iv) ==> Overlay(flags, data, l, length) == [flags] + iv + BigEndian(length, l)
  {
    hide BigEndian;
    BigEndianLow(length, 8, l);
    if IsInitialCounter(data, iv) {
      assert data[1..BLOCK - l] == iv;
    }
  }

  /** Flags, the nonce still in the buffer, and the low bytes of the length make the first block. */
  method FirstBlockInPlace(digestSize: nat, l: nat, headerLength: nat, length: nat, data: Block, ghost iv: seq<byte>)
    returns (b: Block)
    requires 4 <= digestSize <= 16 && digestSize % 2 == 0
    requires IsInitialCounter(data, iv) && l == LengthSize(iv)
    ensures b == FirstBlock(iv, digestSize, headerLength, length)
  {
    hide BigEndian;
    var flags: byte := (if headerLength > 0 then 64 else 0) + 8 * ((digestSize - 2) / 2) + (l - 1);
    Overlaid(flags, data, l, length, iv);
    b := Overlay(flags, data, l, length);
  }

  lemma ModAdd(a: nat, b: nat)
    ensures (a % BLOCK + b) % BLOCK == (a + b) % BLOCK
  {}

  lemma CounterRoom(l: nat, pos: nat)
    requires 2 <= l && pos <= BLOCK + Pow256(l) - 1
    ensures pos < BLOCK * Pow256(l)
  {
    assert Pow256(l) == 256 * Pow256(l - 1);
  }
}
