/** SELECT of the OATH application: the fixed command, and the decode of the
    version, the device name and, when the application is password protected, the
    challenge and its HMAC algorithm. */
module Select {
  import opened Bytes
  import opened Errors
  import opened Tlv
  import opened Apdu

  /** The OATH application identifier. */
  const AID: seq<byte> := [0xA0, 0x00, 0x00, 0x05, 0x27, 0x21, 0x01]

  const VERSION_TAG: byte := 0x79
  const NAME_TAG: byte := 0x71
  const CHALLENGE_TAG: byte := 0x74
  const ALGORITHM_TAG: byte := 0x7B

  datatype Algorithm = HmacSha1 | HmacSha256 | HmacSha512

  /** The challenge of a protected application and the algorithm that answers it. */
  datatype Inner = Inner(challenge: seq<byte>, algorithm: Algorithm)

  datatype SelectResponse = SelectResponse(version: seq<byte>, name: seq<byte>, inner: Option<Inner>)

  /** The command select builds: the SELECT header with a zero Lc, and the raw AID
      (not a TLV). */
  function SelectCommand(): seq<byte> {
    [0x00, 0xA4, 0x04, 0x00, 0x00] + AID
  }

  /** What goes to the card: transmit sets Lc to 7, the length of the AID. */
  lemma SelectSent()
    ensures FixLc(SelectCommand()) == [0x00, 0xA4, 0x04, 0x00, 0x07] + AID
  {
  }

  /** The byte a card sends for an algorithm. */
  function AlgorithmByte(a: Algorithm): byte {
    match a
    case HmacSha1 => 0x01
    case HmacSha256 => 0x02
    case HmacSha512 => 0x03
  }

  /** The slice-pattern match on the algorithm value: exactly one of the bytes 1, 2
      and 3 names an algorithm; any other single byte is reported as itself, and a
      value of any other length by its length modulo 256. */
  function AlgorithmOf(value: seq<byte>): (r: Result<Algorithm>)
    ensures r.Ok? <==> |value| == 1 && 1 <= value[0] <= 3
    ensures r.Ok? ==> value == [AlgorithmByte(r.value)]
    ensures |value| == 1 && r.Err? ==> r.error == UnexpectedValue(value[0])
    ensures |value| != 1 ==> r == Err(UnexpectedValue(|value| % 256))
  {
    if |value| == 1 then
      if value[0] == 0x01 then Ok(HmacSha1)
      else if value[0] == 0x02 then Ok(HmacSha256)
      else if value[0] == 0x03 then Ok(HmacSha512)
      else Err(UnexpectedValue(value[0]))
    else Err(UnexpectedValue(|value| % 256))
  }

  lemma AlgorithmRoundTrip(a: Algorithm)
    ensures AlgorithmOf([AlgorithmByte(a)]) == Ok(a)
  {
  }

  /** The part of the decode after the name: nothing left means an unprotected
      application; otherwise a challenge under 0x74 and an algorithm under 0x7B must
      follow, and whatever comes after them is ignored. */
  function DecodeInner(rest: seq<byte>): (r: Result<Option<Inner>>)
    ensures rest == [] <==> r == Ok(None)
    ensures rest != [] && rest[0] != CHALLENGE_TAG ==> r == Err(UnexpectedValue(rest[0]))
  {
    if rest == [] then Ok(None)
    else
      var challenge :- Pop(rest, [CHALLENGE_TAG]);
      var algorithm :- Pop(challenge.rest, [ALGORITHM_TAG]);
      var alg :- AlgorithmOf(algorithm.value);
      Ok(Some(Inner(challenge.value, alg)))
  }

  /** The decode after transmit: the version under 0x79, the name under 0x71, and
      then DecodeInner of what is left. */
  function DecodeSelect(reply: seq<byte>): (r: Result<SelectResponse>)
    ensures reply == [] ==> r == Err(InsufficientData)
    ensures reply != [] && reply[0] != VERSION_TAG ==> r == Err(UnexpectedValue(reply[0]))
  {
    var version :- Pop(reply, [VERSION_TAG]);
    var name :- Pop(version.rest, [NAME_TAG]);
    var inner :- DecodeInner(name.rest);
    Ok(SelectResponse(version.value, name.value, inner))
  }

  /** The encoding of the optional part. */
  function EncodeInner(inner: Option<Inner>): seq<byte> {
    match inner
    case None => []
    case Some(i) => Encoded(CHALLENGE_TAG, Slice(i.challenge)) + Encoded(ALGORITHM_TAG, Slice([AlgorithmByte(i.algorithm)]))
  }

  /** The reply a card sends for a SELECT response. */
  function EncodeSelect(s: SelectResponse): seq<byte> {
    Encoded(VERSION_TAG, Slice(s.version)) + Encoded(NAME_TAG, Slice(s.name)) + EncodeInner(s.inner)
  }

  /** A response whose fields fit their length bytes. */
  predicate Sendable(s: SelectResponse) {
    |s.version| <= 255 && |s.name| <= 255 &&
    (s.inner.Some? ==> |s.inner.value.challenge| <= 255)
  }

  /** Once a well-formed version and name TLV are read, the outcome is that of
      DecodeInner on what follows. */
  lemma DecodeSelectSplit(version: seq<byte>, name: seq<byte>, rest: seq<byte>)
    requires |version| <= 255 && |name| <= 255
    ensures DecodeSelect(Encoded(VERSION_TAG, Slice(version)) + Encoded(NAME_TAG, Slice(name)) + rest)
      == match DecodeInner(rest)
         case Err(e) => Err(e)
         case Ok(inner) => Ok(SelectResponse(version, name, inner))
  {
    var v := Encoded(VERSION_TAG, Slice(version));
    var n := Encoded(NAME_TAG, Slice(name));
    AppendAssoc(v, n, rest);
    PopEncoded(VERSION_TAG, Slice(version), n + rest, [VERSION_TAG]);
    PopEncoded(NAME_TAG, Slice(name), rest, [NAME_TAG]);
  }

  lemma DecodeInnerRoundTrip(inner: Option<Inner>, trailing: seq<byte>)
    requires inner.Some? ==> |inner.value.challenge| <= 255
    requires inner.None? ==> trailing == []
    ensures DecodeInner(EncodeInner(inner) + trailing) == Ok(inner)
  {
    match inner
    case None =>
      assert EncodeInner(inner) + trailing == [];
    case Some(i) =>
      var c := Encoded(CHALLENGE_TAG, Slice(i.challenge));
      var a := Encoded(ALGORITHM_TAG, Slice([AlgorithmByte(i.algorithm)]));
      AppendAssoc(c, a, trailing);
      PopEncoded(CHALLENGE_TAG, Slice(i.challenge), a + trailing, [CHALLENGE_TAG]);
      PopEncoded(ALGORITHM_TAG, Slice([AlgorithmByte(i.algorithm)]), trailing, [ALGORITHM_TAG]);
      AlgorithmRoundTrip(i.algorithm);
  }

  /** Decoding what a card sends gives the response back. Bytes after the
      algorithm TLV are ignored; an unprotected response must end after the name,
      since anything there is read as a challenge. */
  lemma DecodeSelectRoundTrip(s: SelectResponse, trailing: seq<byte>)
    requires Sendable(s)
    requires s.inner.None? ==> trailing == []
    ensures DecodeSelect(EncodeSelect(s) + trailing) == Ok(s)
  {
    var v := Encoded(VERSION_TAG, Slice(s.version));
    var n := Encoded(NAME_TAG, Slice(s.name));
    AppendAssoc(v + n, EncodeInner(s.inner), trailing);
    DecodeSelectSplit(s.version, s.name, EncodeInner(s.inner) + trailing);
    DecodeInnerRoundTrip(s.inner, trailing);
  }

  /** Every remainder DecodeInner accepts is the encoding of what it returns,
      followed by bytes it ignored; those exist only when the challenge is present. */
  lemma DecodeInnerSound(rest: seq<byte>)
    requires DecodeInner(rest).Ok?
    ensures var inner := DecodeInner(rest).value;
      && (inner.Some? ==> |inner.value.challenge| <= 255)
      && |EncodeInner(inner)| <= |rest|
      && rest == EncodeInner(inner) + rest[|EncodeInner(inner)|..]
      && (inner.None? ==> rest == [])
  {
    if rest != [] {
      var inner := DecodeInner(rest).value;
      var challenge := Pop(rest, [CHALLENGE_TAG]).value;
      var algorithm := Pop(challenge.rest, [ALGORITHM_TAG]).value;
      var c := Encoded(CHALLENGE_TAG, Slice(challenge.value));
      var a := Encoded(ALGORITHM_TAG, Slice(algorithm.value));
      PopDecoded(rest, [CHALLENGE_TAG]);
      PopDecoded(challenge.rest, [ALGORITHM_TAG]);
      assert algorithm.value == [AlgorithmByte(inner.value.algorithm)];
      AppendAssoc(c, a, algorithm.rest);
      assert rest == EncodeInner(inner) + algorithm.rest;
    }
  }

  /** The version and name TLVs at the front of an accepted reply. */
  lemma DecodeSelectHead(reply: seq<byte>)
    requires DecodeSelect(reply).Ok?
    ensures var s := DecodeSelect(reply).value;
      var head := Encoded(VERSION_TAG, Slice(s.version)) + Encoded(NAME_TAG, Slice(s.name));
      && |s.version| <= 255 && |s.name| <= 255
      && |head| <= |reply| && reply == head + reply[|head|..]
      && DecodeInner(reply[|head|..]) == Ok(s.inner)
  {
    var version := Pop(reply, [VERSION_TAG]).value;
    var name := Pop(version.rest, [NAME_TAG]).value;
    var v := Encoded(VERSION_TAG, Slice(version.value));
    var n := Encoded(NAME_TAG, Slice(name.value));
    PopDecoded(reply, [VERSION_TAG]);
    PopDecoded(version.rest, [NAME_TAG]);
    AppendAssoc(v, n, name.rest);
    assert reply[|v + n|..] == name.rest;
  }

  /** Every reply the decoder accepts is the encoding of what it returns, followed
      by bytes it ignored; those exist only when the challenge is present. */
  lemma DecodeSelectSound(reply: seq<byte>)
    requires DecodeSelect(reply).Ok?
    ensures var s := DecodeSelect(reply).value;
      && Sendable(s)
      && |EncodeSelect(s)| <= |reply|
      && reply == EncodeSelect(s) + reply[|EncodeSelect(s)|..]
      && (s.inner.None? ==> reply == EncodeSelect(s))
  {
    var s := DecodeSelect(reply).value;
    DecodeSelectHead(reply);
    var head := Encoded(VERSION_TAG, Slice(s.version)) + Encoded(NAME_TAG, Slice(s.name));
    var rest := reply[|head|..];
    DecodeInnerSound(rest);
    var e := EncodeInner(s.inner);
    var t := rest[|e|..];
    assert reply == head + (e + t);
    AppendAssoc(head, e, t);
    assert EncodeSelect(s) == head + e;
    assert reply[|head + e|..] == t;
  }

  /** An unprotected response it cannot read: a version TLV without a name TLV. */
  lemma DecodeSelectNoName(version: seq<byte>)
    requires |version| <= 255
    ensures DecodeSelect(Encoded(VERSION_TAG, Slice(version))) == Err(InsufficientData)
  {
    PopEncoded(VERSION_TAG, Slice(version), [], [VERSION_TAG]);
    assert Encoded(VERSION_TAG, Slice(version)) + [] == Encoded(VERSION_TAG, Slice(version));
  }

  /** A challenge without an algorithm is InsufficientData. */
  lemma DecodeSelectNoAlgorithm(version: seq<byte>, name: seq<byte>, challenge: seq<byte>)
    requires |version| <= 255 && |name| <= 255 && |challenge| <= 255
    ensures DecodeSelect(Encoded(VERSION_TAG, Slice(version)) + Encoded(NAME_TAG, Slice(name)) +
                         Encoded(CHALLENGE_TAG, Slice(challenge))) == Err(InsufficientData)
  {
    var c := Encoded(CHALLENGE_TAG, Slice(challenge));
    DecodeSelectSplit(version, name, c);
    PopEncoded(CHALLENGE_TAG, Slice(challenge), [], [CHALLENGE_TAG]);
    assert c + [] == c;
  }

  /** An algorithm byte outside 1..3 is reported as itself. */
  lemma DecodeSelectUnknownAlgorithm(version: seq<byte>, name: seq<byte>, challenge: seq<byte>, b: byte)
    requires |version| <= 255 && |name| <= 255 && |challenge| <= 255 && !(1 <= b <= 3)
    ensures DecodeSelect(Encoded(VERSION_TAG, Slice(version)) + Encoded(NAME_TAG, Slice(name)) +
                         (Encoded(CHALLENGE_TAG, Slice(challenge)) + Encoded(ALGORITHM_TAG, Slice([b]))))
      == Err(UnexpectedValue(b))
  {
    var c := Encoded(CHALLENGE_TAG, Slice(challenge));
    var a := Encoded(ALGORITHM_TAG, Slice([b]));
    DecodeSelectSplit(version, name, c + a);
    PopEncoded(CHALLENGE_TAG, Slice(challenge), a, [CHALLENGE_TAG]);
    PopEncoded(ALGORITHM_TAG, Slice([b]), [], [ALGORITHM_TAG]);
    assert a + [] == a;
  }

  /** YubiKey::select: build the command in the caller's buffer, transmit it, and
      decode the reply. A transmit error is returned as it is. */
  method Select(card: Card, buf: Buffer) returns (r: Result<SelectResponse>)
    modifies card, buf
    ensures var t := Exchange(true, SelectCommand(), card.script, old(card.pos));
      && t.outcome.Returned? && buf.data == t.buf && card.pos == t.pos && card.sent == old(card.sent) + t.sent
      && r == match t.outcome.result
              case Err(e) => Err(e)
              case Ok(reply) => DecodeSelect(reply)
  {
    buf.Clear();
    buf.Extend([0x00, 0xA4, 0x04, 0x00]);
    buf.Push(0x00);
    buf.Extend(AID);
    assert buf.data == SelectCommand();
    var reply := Transmit(card, buf);
    if reply.Err? {
      return Err(reply.error);
    }
    r := DecodeSelect(reply.value);
  }
}
