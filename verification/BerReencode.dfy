/** Re-encoding BER as DER (asn.cpp, `DERReencode`; sections 8.1.3, 8.1.5 and 10.1 of X.690). */
module BerReencode {
  import opened Arithmetic
  import opened Bytes
  import opened BerLength

  // ----- BER objects with single-byte tags -----

  /** A definite object keeps its contents as they are and its length octets in any valid form; an
      indefinite one has objects for contents and ends with two zero octets. */
  datatype Ber =
    | Plain(tag: byte, lengthOctets: seq<byte>, contents: seq<byte>)
    | Nested(tag: byte, children: Bers)

  datatype Bers = None | More(first: Ber, others: Bers)

  predicate IsConstructed(tag: byte) {
    tag / 0x20 % 2 == 1
  }

  function Encoding(b: Ber): (s: seq<byte>)
    ensures |s| >= 1
  {
    match b
    case Plain(tag, lengthOctets, contents) => [tag] + lengthOctets + contents
    case Nested(tag, children) => [tag, 0x80] + Encodings(children) + [0, 0]
  }

  function Encodings(bs: Bers): seq<byte> {
    match bs
    case None => []
    case More(first, others) => Encoding(first) + Encodings(others)
  }

  /** Well-formed, and no child of an indefinite object reads as its end. */
  ghost predicate WellFormed(b: Ber) {
    match b
    case Plain(_, lengthOctets, contents) => DecodeLength(lengthOctets) == Definite(|contents|, [])
    case Nested(tag, children) => IsConstructed(tag) && AllWellFormed(children)
  }

  ghost predicate AllWellFormed(bs: Bers) {
    match bs
    case None => true
    case More(first, others) => WellFormed(first) && !IsEnd(Encoding(first)) && AllWellFormed(others)
  }

  predicate IsEnd(s: seq<byte>) {
    |s| >= 2 && s[0] == 0 && s[1] == 0
  }

  /** The same tags and contents with minimal definite lengths. */
  function Der(b: Ber): seq<byte> {
    match b
    case Plain(tag, _, contents) => Wrapped(tag, contents)
    case Nested(tag, children) => Wrapped(tag, Ders(children))
  }

  function Ders(bs: Bers): seq<byte> {
    match bs
    case None => []
    case More(first, others) => Der(first) + Ders(others)
  }

  /** Tag, length, contents; sizes are counted in 64 bits. */
  function Wrapped(tag: byte, contents: seq<byte>): seq<byte> {
    [tag] + DerLength(|contents| % LWORD_LIMIT) + contents
  }

  // ----- the re-encoder -----

  datatype Result = Fail | Ok(output: seq<byte>, rest: seq<byte>)

  function Reencode(s: seq<byte>): (r: Result)
    ensures r.Ok? ==> |r.rest| < |s|
    decreases |s|, 0
  {
    if s == [] then Fail
    else match DecodeLength(s[1..])
      case Truncated(_) => Fail
      case Overflow(_) => Fail
      case Definite(n, rest) =>
        if n > |rest| then Fail else Ok(Wrapped(s[0], rest[..n]), rest[n..])
      case Indefinite(rest) =>
        if !IsConstructed(s[0]) then Fail
        else match ReencodeAll(rest)
          case Fail => Fail
          case Ok(body, after) => Ok(Wrapped(s[0], body), after)
  }

  /** Objects up to the two zero octets. */
  function ReencodeAll(s: seq<byte>): (r: Result)
    ensures r.Ok? ==> |r.rest| < |s|
    decreases |s|, 1
  {
    if IsEnd(s) then Ok([], s[2..])
    else match Reencode(s)
      case Fail => Fail
      case Ok(first, rest) =>
        match ReencodeAll(rest)
        case Fail => Fail
        case Ok(others, after) => Ok(first + others, after)
  }

  // ----- what it does -----

  /** An object at the front of the input is consumed exactly and comes out in distinguished form. */
  lemma {:induction false} ReencodeObject(b: Ber, rest: seq<byte>)
    requires WellFormed(b)
    ensures Reencode(Encoding(b) + rest) == Ok(Der(b), rest)
    decreases b
  {
    hide DecodeLength, DerLength;
    var s := Encoding(b) + rest;
    match b
    case Plain(tag, lengthOctets, contents) =>
      assert s[1..] == lengthOctets + (contents + rest);
      LengthThen(lengthOctets, |contents|, contents + rest);
    case Nested(tag, children) =>
      assert s[1..] == [0x80] + (Encodings(children) + ([0, 0] + rest));
      IndefiniteThen(Encodings(children) + ([0, 0] + rest));
      ReencodeObjects(children, rest);
  }

  lemma {:induction false} ReencodeObjects(bs: Bers, rest: seq<byte>)
    requires AllWellFormed(bs)
    ensures ReencodeAll(Encodings(bs) + ([0, 0] + rest)) == Ok(Ders(bs), rest)
    decreases bs
  {
    hide DecodeLength, DerLength;
    var s := Encodings(bs) + ([0, 0] + rest);
    match bs
    case None =>
      assert s[2..] == rest;
    case More(first, others) =>
      var after := Encodings(others) + ([0, 0] + rest);
      assert s == Encoding(first) + after;
      assert !IsEnd(s) by { NotEnd(first, after); }
      ReencodeObject(first, after);
      ReencodeObjects(others, rest);
  }

  lemma IndefiniteThen(rest: seq<byte>)
    ensures DecodeLength([0x80] + rest) == Indefinite(rest)
  {
    assert ([0x80] + rest)[1..] == rest;
  }

  /** An object never ends before its second octet, so what follows cannot make it read as an end. */
  lemma NotEnd(b: Ber, after: seq<byte>)
    requires WellFormed(b) && !IsEnd(Encoding(b))
    ensures |Encoding(b)| >= 2 && !IsEnd(Encoding(b) + after)
  {}

  /** Conversely, whatever is accepted is such an object followed by the rest. */
  lemma {:induction false} AcceptedObject(s: seq<byte>) returns (b: Ber)
    requires Reencode(s).Ok?
    ensures WellFormed(b) && s == Encoding(b) + Reencode(s).rest && Reencode(s).output == Der(b)
    decreases |s|, 0
  {
    hide DecodeLength, DerLength;
    match DecodeLength(s[1..])
    case Definite(n, rest) =>
      b := AcceptedPlain(s, n, rest);
    case Indefinite(rest) =>
      IndefiniteAlone(s[1..], rest);
      var children := AcceptedObjects(rest);
      b := Nested(s[0], children);
      assert s == [s[0]] + s[1..];
      NestedForm(s[0], children, ReencodeAll(rest).rest);
  }

  lemma AcceptedPlain(s: seq<byte>, n: nat, rest: seq<byte>) returns (b: Ber)
    requires s != [] && DecodeLength(s[1..]) == Definite(n, rest) && n <= |rest|
    ensures WellFormed(b) && s == Encoding(b) + rest[n..] && Wrapped(s[0], rest[..n]) == Der(b)
  {
    hide DecodeLength, DerLength;
    LengthAlone(s[1..], n, rest);
    var octets := s[1..][..|s[1..]| - |rest|];
    b := Plain(s[0], octets, rest[..n]);
    hide *;
    PlainForm(s, octets, rest, n);
    PlainIs(s[0], octets, rest[..n]);
  }

  lemma PlainForm(s: seq<byte>, octets: seq<byte>, rest: seq<byte>, n: nat)
    requires s != [] && s[1..] == octets + rest && n <= |rest|
    ensures s == ([s[0]] + octets + rest[..n]) + rest[n..]
  {
  }

  lemma PlainIs(tag: byte, octets: seq<byte>, contents: seq<byte>)
    ensures Encoding(Plain(tag, octets, contents)) == [tag] + octets + contents
    ensures Der(Plain(tag, octets, contents)) == Wrapped(tag, contents)
    ensures WellFormed(Plain(tag, octets, contents)) <==> DecodeLength(octets) == Definite(|contents|, [])
  {
    hide DecodeLength, DerLength, Wrapped;
  }

  lemma NestedForm(tag: byte, children: Bers, after: seq<byte>)
    ensures [tag] + ([0x80] + (Encodings(children) + [0, 0] + after)) == Encoding(Nested(tag, children)) + after
  {
  }

  lemma IndefiniteAlone(s: seq<byte>, rest: seq<byte>)
    requires DecodeLength(s) == Indefinite(rest)
    ensures s == [0x80] + rest
  {
    hide DecodeLong;
  }

  lemma {:induction false} AcceptedObjects(s: seq<byte>) returns (bs: Bers)
    requires ReencodeAll(s).Ok?
    ensures AllWellFormed(bs) && s == Encodings(bs) + [0, 0] + ReencodeAll(s).rest && ReencodeAll(s).output == Ders(bs)
    decreases |s|, 1
  {
    hide DecodeLength, DerLength;
    if IsEnd(s) {
      bs := None;
      assert s == [0, 0] + s[2..];
    } else {
      var first := AcceptedObject(s);
      var rest := Reencode(s).rest;
      var others := AcceptedObjects(rest);
      bs := More(first, others);
      assert !IsEnd(Encoding(first)) by { assert Encoding(first) <= s; }
    }
  }

  /** The octets of a length, cut off from what follows, decode to the same length. */
  lemma LengthAlone(s: seq<byte>, n: nat, rest: seq<byte>)
    requires DecodeLength(s) == Definite(n, rest)
    ensures |rest| <= |s| && s == s[..|s| - |rest|] + rest
    ensures DecodeLength(s[..|s| - |rest|]) == Definite(n, [])
  {
    hide DecodeLong, Fold;
    if s[0] < 0x80 {
      assert s[..1] == [s[0]] && [s[0]][1..] == [];
    } else {
      var k := s[0] - 0x80;
      DecodeLongExact(s[1..], k, 0, n, rest);
      var octets := s[..|s| - |rest|];
      assert octets[1..] == s[1..][..k] && octets[1..][..k] == octets[1..] && octets[1..][k..] == [];
      DecodeLongExact(octets[1..], k, 0, n, []);
    }
  }

  /** The re-encoder accepts exactly the inputs that start with a well-formed object. */
  lemma AcceptsExactlyObjects(s: seq<byte>)
    ensures Reencode(s).Ok? <==> exists b: Ber, rest: seq<byte> :: WellFormed(b) && s == Encoding(b) + rest
  {
    if Reencode(s).Ok? {
      var b := AcceptedObject(s);
    }
    if b: Ber, rest: seq<byte> :| WellFormed(b) && s == Encoding(b) + rest {
      ReencodeObject(b, rest);
    }
  }

  /** The output is one definite object with the shortest length octets, so re-encoding it again
      changes nothing. */
  lemma ReencodeIdempotent(s: seq<byte>, rest: seq<byte>)
    requires Reencode(s).Ok? && |Reencode(s).output| < LWORD_LIMIT
    ensures Reencode(Reencode(s).output + rest) == Ok(Reencode(s).output, rest)
  {
    hide *;
    var b := AcceptedObject(s);
    var contents := if b.Plain? then b.contents else Ders(b.children);
    DerForm(b, contents);
    var octets := DerLength(|contents|);
    LengthRoundTrip(|contents|, []);
    assert octets + [] == octets;
    DefiniteExactly(b.tag, octets, contents, rest);
  }

  lemma DerForm(b: Ber, contents: seq<byte>)
    requires contents == (if b.Plain? then b.contents else Ders(b.children)) && |Der(b)| < LWORD_LIMIT
    ensures |contents| < LWORD_LIMIT && Der(b) == [b.tag] + DerLength(|contents|) + contents
  {
    hide DerLength;
  }

  // ----- the same in octets -----

  /** A definite object keeps its tag and contents, under the shortest length octets. */
  lemma DefiniteExactly(tag: byte, octets: seq<byte>, contents: seq<byte>, rest: seq<byte>)
    requires DecodeLength(octets) == Definite(|contents|, []) && |contents| < LWORD_LIMIT
    ensures Reencode([tag] + octets + contents + rest) == Ok([tag] + DerLength(|contents|) + contents, rest)
  {
    hide DecodeLength, DerLength, Reencode;
    ReencodeObject(Plain(tag, octets, contents), rest);
  }

  /** What is accepted on its own is re-encoded alike in front of anything. */
  lemma AcceptedThen(x: seq<byte>, d: seq<byte>, rest: seq<byte>)
    requires Reencode(x) == Ok(d, [])
    ensures Reencode(x + rest) == Ok(d, rest) && |x| >= 2
  {
    hide DecodeLength, DerLength;
    var b := AcceptedObject(x);
    assert Encoding(b) + [] == Encoding(b);
    ReencodeObject(b, rest);
  }

  lemma {:induction false} AllAccepted(xs: seq<seq<byte>>, ds: seq<seq<byte>>, rest: seq<byte>)
    requires |ds| == |xs| && forall i :: 0 <= i < |xs| ==> Reencode(xs[i]) == Ok(ds[i], []) && !IsEnd(xs[i])
    ensures ReencodeAll(Joined(xs) + ([0, 0] + rest)) == Ok(Joined(ds), rest)
    decreases |xs|
  {
    hide Joined, Reencode;
    if xs == [] {
      NothingJoined();
      assert ([0, 0] + rest)[2..] == rest && [] + ([0, 0] + rest) == [0, 0] + rest;
    } else {
      JoinedCons(xs);
      JoinedCons(ds);
      var others := Joined(xs[1..]) + ([0, 0] + rest);
      assert Joined(xs) + ([0, 0] + rest) == xs[0] + others;
      AcceptedThen(xs[0], ds[0], others);
      assert !IsEnd(xs[0] + others);
      AllAccepted(xs[1..], ds[1..], rest);
    }
  }

  lemma ConstructedIsBit5(tag: byte)
    ensures IsConstructed(tag) <==> Bit(tag, 5) == 1
  {
    ShiftIsDivision(tag, 5);
    ThirtyTwo();
    hide Shr, Pow2, LowBits;
  }

  lemma ThirtyTwo()
    ensures Pow2(5) == 32
  {
  }

  lemma ConstructedInTag(tag: byte)
    ensures IsConstructed(tag) <==> 0x20 <= tag % 0x40
  {
    var q, r := tag / 0x40, tag % 0x40;
    if r < 0x20 {
      DivModUnique(tag, 0x20, 2 * q, r);
    } else {
      DivModUnique(tag, 0x20, 2 * q + 1, r - 0x20);
    }
  }

  lemma IndefiniteWith(tag: byte, body: seq<byte>, output: seq<byte>, rest: seq<byte>)
    requires ReencodeAll(body) == Ok(output, rest) && |output| < LWORD_LIMIT
    ensures Reencode([tag, 0x80] + body)
         == if IsConstructed(tag) then Ok([tag] + DerLength(|output|) + output, rest) else Fail
  {
    hide DecodeLength, DerLength, IsConstructed;
    assert ([tag, 0x80] + body)[1..] == [0x80] + body;
    IndefiniteThen(body);
  }

  /** An indefinite object of any objects that are accepted becomes a definite one of what they become, if bit 5 of its
      tag is set, and is refused otherwise. */
  lemma IndefiniteExactly(tag: byte, xs: seq<seq<byte>>, ds: seq<seq<byte>>, rest: seq<byte>)
    requires |ds| == |xs| && forall i :: 0 <= i < |xs| ==> Reencode(xs[i]) == Ok(ds[i], []) && !([0, 0] <= xs[i])
    requires |Joined(ds)| < LWORD_LIMIT
    ensures Reencode([tag, 0x80] + Joined(xs) + [0, 0] + rest)
         == if Bit(tag, 5) == 1 then Ok([tag] + DerLength(|Joined(ds)|) + Joined(ds), rest) else Fail
  {
    hide Reencode, ReencodeAll, DerLength, Joined, Bit, IsConstructed;
    ConstructedIsBit5(tag);
    var body := Joined(xs) + ([0, 0] + rest);
    assert [tag, 0x80] + Joined(xs) + [0, 0] + rest == [tag, 0x80] + body;
    AllAccepted(xs, ds, rest);
    IndefiniteWith(tag, body, Joined(ds), rest);
  }

  /** 30 80 00 00 becomes 30 00; 04 80 00 00 is refused. */
  lemma EmptyIndefinite(tag: byte)
    ensures Reencode([tag, 0x80, 0, 0]) == if 0x20 <= tag % 0x40 then Ok([tag, 0], []) else Fail
  {
    assert ReencodeAll([0, 0]) == Ok([], []) && DerLength(0) == [0];
    hide Reencode, ReencodeAll, DerLength, IsConstructed;
    ConstructedInTag(tag);
    IndefiniteWith(tag, [0, 0], [], []);
    assert [tag, 0x80] + [0, 0] == [tag, 0x80, 0, 0];
  }

  /** `DERReencode`: moves one object from the source to the destination. A nested decoder of an
      indefinite object reads straight from its source. */
  method DERReencode(source: ByteQueue, dest: ByteQueue) returns (ok: bool)
    requires source != dest
    modifies source, dest
    ensures ok <==> Reencode(old(source.bytes)).Ok?
    ensures ok ==> source.bytes == Reencode(old(source.bytes)).rest
    ensures ok ==> dest.bytes == old(dest.bytes) + Reencode(old(source.bytes)).output
    decreases |source.bytes|, 0
  {
    hide DecodeLength, DerLength;
    var peeked, tag := source.Get();
    if !peeked {
      return false;
    }
    var length := BERLengthDecode(source);
    if length.Truncated? || length.Overflow? || (length.Indefinite? && !IsConstructed(tag)) {
      return false;
    }
    var encoder := new ByteQueue();
    if length.Definite? {
      if length.length > |source.bytes| {
        return false;
      }
      encoder.PutAll(source.bytes[..length.length]);
      source.bytes := source.bytes[length.length..];
    } else {
      ok := ReencodeContents(source, encoder);
      if !ok {
        return;
      }
    }
    dest.Put(tag);
    var octets := DERLengthEncode(dest, |encoder.bytes| % LWORD_LIMIT);
    dest.PutAll(encoder.bytes);
    ok := true;
  }

  /** The loop over the contents of an indefinite object, and its end-of-contents octets. */
  method ReencodeContents(source: ByteQueue, encoder: ByteQueue) returns (ok: bool)
    requires source != encoder
    modifies source, encoder
    ensures ok <==> ReencodeAll(old(source.bytes)).Ok?
    ensures ok ==> source.bytes == ReencodeAll(old(source.bytes)).rest
    ensures ok ==> encoder.bytes == old(encoder.bytes) + ReencodeAll(old(source.bytes)).output
    decreases |source.bytes|, 1
  {
    hide Reencode;
    ghost var all := ReencodeAll(source.bytes);
    while !IsEnd(source.bytes)
      invariant |source.bytes| <= |old(source.bytes)|
      invariant all.Ok? <==> ReencodeAll(source.bytes).Ok?
      invariant all.Ok? ==> all.rest == ReencodeAll(source.bytes).rest
      invariant all.Ok? ==> old(encoder.bytes) + all.output == encoder.bytes + ReencodeAll(source.bytes).output
      decreases |source.bytes|
    {
      ok := DERReencode(source, encoder);
      if !ok {
        return;
      }
    }
    source.bytes := source.bytes[2..];
    ok := true;
  }
}
