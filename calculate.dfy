/** CALCULATE (instruction 0xA2): one credential's response to a challenge, and how
    that response is read out of the reply and shown as a code. */
module Calculate {
  import opened Bytes
  import opened Errors
  import opened Tlv
  import opened Apdu

  /** A computed response: how many digits to show, and the 32-bit value. */
  datatype Response = Response(digits: byte, response: uint32)

  lemma Pow256Four()
    ensures Pow256(4) == 0x1_0000_0000
  {
  }

  /** Response::try_from: the digits byte, then a big-endian u32; anything after the
      first five bytes is ignored, and fewer than five bytes is InsufficientData. */
  function ResponseFrom(value: seq<byte>): (r: Result<Response>)
    ensures r.Ok? <==> |value| >= 5
    ensures r.Err? ==> r.error == InsufficientData
    ensures r.Ok? ==> r.value.digits == value[0] && BeBytes(r.value.response, 4) == value[1..5]
  {
    if |value| == 0 then Err(InsufficientData)
    else if |value| < 5 then Err(InsufficientData)
    else
      Pow256Four();
      BeUintRoundTrip(value[1..5]);
      Ok(Response(value[0], BeUint(value[1..5])))
  }

  /** The five bytes a card sends for a response. */
  function ResponseBytes(r: Response): (s: seq<byte>)
    ensures |s| == 5
  {
    [r.digits] + BeBytes(r.response, 4)
  }

  /** Reading back what a card sends gives the response, whatever follows it. */
  lemma ResponseRoundTrip(r: Response, rest: seq<byte>)
    ensures ResponseFrom(ResponseBytes(r) + rest) == Ok(r)
  {
    var s := ResponseBytes(r) + rest;
    Pow256Four();
    BeBytesRoundTrip(r.response, 4);
    assert s[1..5] == BeBytes(r.response, 4);
  }

  // ---------------------------------------------------------------------------
  // Display

  /** 10 to the power n. */
  function Pow10(n: nat): (p: nat)
    ensures p >= 1
  {
    if n == 0 then 1 else 10 * Pow10(n - 1)
  }

  predicate IsDigit(c: char) {
    '0' <= c <= '9'
  }

  predicate AllDigits(s: string) {
    forall i | 0 <= i < |s| :: IsDigit(s[i])
  }

  /** The decimal digit for d < 10. */
  function DigitChar(d: nat): (c: char)
    requires d < 10
    ensures IsDigit(c)
  {
    ('0' as int + d) as char
  }

  /** The value of a digit character (0 for anything else). */
  function DigitValue(c: char): nat {
    if IsDigit(c) then c as int - '0' as int else 0
  }

  /** The number a string of decimal digits denotes, most significant first. */
  function ParseDecimal(s: string): nat {
    if s == [] then 0 else ParseDecimal(s[..|s| - 1]) * 10 + DigitValue(s[|s| - 1])
  }

  /** `{}` of an unsigned number: its decimal digits without leading zeros ("0" for
      zero). */
  function Decimal(n: nat): (s: string)
    ensures 1 <= |s| && AllDigits(s) && ParseDecimal(s) == n
    ensures s[0] == '0' <==> n == 0
    ensures n == 0 ==> s == "0"
  {
    if n < 10 then
      assert ParseDecimal([DigitChar(n)]) == n by {
        assert [DigitChar(n)][..0] == [];
      }
      [DigitChar(n)]
    else
      var s := Decimal(n / 10) + [DigitChar(n % 10)];
      assert s[..|s| - 1] == Decimal(n / 10);
      s
  }

  /** A number below 10^k takes at most k digits. */
  lemma {:induction false} DecimalLength(n: nat, k: nat)
    requires 1 <= k && n < Pow10(k)
    ensures |Decimal(n)| <= k
  {
    if n >= 10 {
      DecimalLength(n / 10, k - 1);
    }
  }

  function Zeros(m: nat): (z: string)
    ensures |z| == m && AllDigits(z)
  {
    seq(m, _ => '0')
  }

  /** Leading zeros do not change the number a string denotes. */
  lemma {:induction false} ParseZeros(m: nat, s: string)
    ensures ParseDecimal(Zeros(m) + s) == ParseDecimal(s)
    decreases |s|, m
  {
    if s != [] {
      var z := Zeros(m) + s;
      assert z[..|z| - 1] == Zeros(m) + s[..|s| - 1];
      ParseZeros(m, s[..|s| - 1]);
    } else if m > 0 {
      var z := Zeros(m) + s;
      assert z == Zeros(m);
      assert z[..m - 1] == Zeros(m - 1) + [];
      assert DigitValue(z[m - 1]) == 0;
      ParseZeros(m - 1, []);
    } else {
      assert Zeros(0) + s == [];
    }
  }

  /** `{:0w$}`: s padded on the left with zeros to at least w characters. */
  function ZeroPad(s: string, w: nat): string {
    if |s| < w then Zeros(w - |s|) + s else s
  }

  function Max(a: nat, b: nat): nat {
    if a < b then b else a
  }

  /** `impl Display for Response`: the response reduced modulo 10^digits, in decimal,
      zero-padded to `digits` characters. 10u32.pow(digits) overflows a u32 from ten
      digits on, which checked arithmetic turns into a panic: None. Otherwise the
      code has exactly max(1, digits) characters, all of them decimal digits, and
      reads back as the response modulo 10^digits. */
  function Display(r: Response): (s: Option<string>)
    ensures s.Some? <==> r.digits <= 9
    ensures s.Some? ==> |s.value| == Max(1, r.digits as nat) && AllDigits(s.value)
    ensures s.Some? ==> ParseDecimal(s.value) == r.response % Pow10(r.digits as nat)
  {
    if r.digits > 9 then None
    else
      var code := r.response % Pow10(r.digits as nat);
      var d := Decimal(code);
      if r.digits == 0 then
        assert code == 0;
        Some(d)
      else
        DecimalLength(code, r.digits as nat);
        ParseZeros(r.digits as nat - |d|, d);
        Some(ZeroPad(d, r.digits as nat))
  }

  /** A six-digit code keeps its leading zeros. */
  lemma DisplayPadsWithZeros()
    ensures Display(Response(6, 1234)) == Some("001234")
  {
    assert Pow10(6) == 1000000;
    var d := Decimal(1234);
    assert d == Decimal(123) + ['4'];
    assert Decimal(123) == Decimal(12) + ['3'];
    assert Decimal(12) == Decimal(1) + ['2'];
    assert d == "1234";
    assert Zeros(2) == "00";
    assert "00" + "1234" == "001234";
  }

  /** A six-digit code drops the high-order digits. */
  lemma DisplayDropsHighDigits()
    ensures Display(Response(6, 123456789)) == Some("456789")
  {
    assert Pow10(6) == 1000000;
    var d := Decimal(456789);
    assert d == Decimal(45678) + ['9'];
    assert Decimal(45678) == Decimal(4567) + ['8'];
    assert Decimal(4567) == Decimal(456) + ['7'];
    assert Decimal(456) == Decimal(45) + ['6'];
    assert Decimal(45) == Decimal(4) + ['5'];
    assert d == "456789";
  }

  /** Zero digits still show one: every response shows as "0". */
  lemma DisplayZeroDigits(v: uint32)
    ensures Display(Response(0, v)) == Some("0")
  {
    var s := Display(Response(0, v)).value;
    assert |s| == 1 && IsDigit(s[0]);
    assert ParseDecimal(s) == DigitValue(s[0]) by {
      assert s[..0] == [];
    }
  }

  // ---------------------------------------------------------------------------
  // The command

  /** P2 of CALCULATE and CALCULATE ALL: 1 asks for a truncated response. */
  function P2(truncate: bool): byte {
    if truncate then 0x01 else 0x00
  }

  /** The tag a response comes back under: 0x76 when truncated, 0x75 in full. */
  function ResponseTag(truncate: bool): byte {
    if truncate then 0x76 else 0x75
  }

  /** The command calculate builds, before transmit fixes Lc: the header with a zero
      Lc, the name under tag 0x71 and the challenge under tag 0x74. */
  function CalculateCommand(truncate: bool, name: seq<byte>, challenge: Payload): seq<byte> {
    [0x00, 0xA2, 0x00, P2(truncate), 0x00] + Encoded(0x71, Slice(name)) + Encoded(0x74, challenge)
  }

  /** transmit sets Lc of the command to the length of its body (name and
      challenge TLVs) modulo 256, and leaves the rest of the header alone. */
  lemma CalculateLc(truncate: bool, name: seq<byte>, challenge: Payload)
    ensures var cmd := FixLc(CalculateCommand(truncate, name, challenge));
      && cmd[..4] == [0x00, 0xA2, 0x00, P2(truncate)]
      && cmd[4] == (4 + |name| + |Contents(challenge)|) % 256
  {
    var raw := CalculateCommand(truncate, name, challenge);
    var cmd := FixLc(raw);
    assert |raw| == 9 + |name| + |Contents(challenge)|;
    assert cmd[..4] == raw[..4];
  }

  /** The body of the command reads back as the name and then the challenge. */
  lemma CalculateBody(truncate: bool, name: seq<byte>, challenge: Payload)
    requires |name| <= 255 && Fits(challenge)
    ensures var body := FixLc(CalculateCommand(truncate, name, challenge))[5..];
      && Pop(body, [0x71]) == Ok(Popped(0x71, name, Encoded(0x74, challenge)))
      && Pop(Encoded(0x74, challenge), [0x74]) == Ok(Popped(0x74, Contents(challenge), []))
  {
    var raw := CalculateCommand(truncate, name, challenge);
    var body := FixLc(raw)[5..];
    assert body == raw[5..];
    assert raw[5..] == Encoded(0x71, Slice(name)) + Encoded(0x74, challenge);
    PopEncoded(0x71, Slice(name), Encoded(0x74, challenge), [0x71]);
    PopEncoded(0x74, challenge, [], [0x74]);
    assert Encoded(0x74, challenge) + [] == Encoded(0x74, challenge);
  }

  /** The decode after transmit: one TLV under the response tag, whose value is read
      as a Response. Whatever follows that TLV is ignored. */
  function DecodeCalculate(truncate: bool, reply: seq<byte>): (r: Result<Response>)
    ensures reply == [] ==> r == Err(InsufficientData)
    ensures reply != [] && reply[0] != ResponseTag(truncate) ==>
      r == Err(UnexpectedValue(reply[0]))
    ensures r.Err? ==> r.error == InsufficientData || r.error == UnexpectedValue(reply[0])
    ensures reply != [] && reply[0] == ResponseTag(truncate) && r.Err? ==> r.error == InsufficientData
    ensures r.Ok? <==> |reply| >= 2 && reply[0] == ResponseTag(truncate) && 5 <= reply[1] as int <= |reply| - 2
    ensures r.Ok? ==>
      |reply| >= 7 && reply[0] == ResponseTag(truncate) && 5 <= reply[1] <= |reply| - 2 &&
      r.value.digits == reply[2] && BeBytes(r.value.response, 4) == reply[3..7]
  {
    match Pop(reply, [ResponseTag(truncate)])
    case Err(e) => Err(e)
    case Ok(p) =>
      assert reply[2..] == p.value + p.rest;
      var r := ResponseFrom(p.value);
      if r.Ok? then
        assert reply[2..7] == p.value[..5];
        assert reply[3..7] == p.value[1..5];
        r
      else r
  }

  /** The reply a card sends for a response decodes to that response. */
  lemma DecodeCalculateRoundTrip(truncate: bool, r: Response, rest: seq<byte>)
    ensures DecodeCalculate(truncate, Encoded(ResponseTag(truncate), Slice(ResponseBytes(r))) + rest)
      == Ok(r)
  {
    var tag := ResponseTag(truncate);
    PopEncoded(tag, Slice(ResponseBytes(r)), rest, [tag]);
    ResponseRoundTrip(r, []);
    assert ResponseBytes(r) + [] == ResponseBytes(r);
  }

  /** A response under the other tag (full where truncated was asked for, or the
      reverse) is rejected with that tag. */
  lemma DecodeCalculateOtherTag(truncate: bool, r: Response, rest: seq<byte>)
    ensures DecodeCalculate(truncate, Encoded(ResponseTag(!truncate), Slice(ResponseBytes(r))) + rest)
      == Err(UnexpectedValue(ResponseTag(!truncate)))
  {
    PopWrongTag(ResponseTag(!truncate), Slice(ResponseBytes(r)), rest, [ResponseTag(truncate)]);
  }

  /** As written, the status pops of transmit take whatever ends the buffer, so a
      frame shorter than the status word lets them reach into the command. A
      challenge ending in 90 00 and an empty frame make the status word 0x9000 while
      the buffer is shorter than the command, and `&buf[mid..]` panics. The
      corrected exchange returns InsufficientData. */
  lemma CalculateShortFrame()
    ensures var cmd := CalculateCommand(false, [], Slice([0x90, 0x00]));
      && Exchange(false, cmd, [Frame([])], 0).outcome == Panicked
      && Exchange(true, cmd, [Frame([])], 0).outcome == Returned(Err(InsufficientData))
  {
    var cmd := CalculateCommand(false, [], Slice([0x90, 0x00]));
    assert cmd == [0x00, 0xA2, 0x00, 0x00, 0x00, 0x71, 0x00, 0x74, 0x02, 0x90, 0x00];
    var buf := FixLc(cmd);
    assert buf == [0x00, 0xA2, 0x00, 0x00, 0x06, 0x71, 0x00, 0x74, 0x02, 0x90, 0x00];
    assert buf + [] == buf;
    assert StatusWord(0x90, 0x00) == 0x9000;
  }

  /** The same with a challenge ending in 6A 84: as written, an empty frame is
      reported as the card's NoSpace, a status the card never sent. */
  lemma CalculateShortFrameStatus()
    ensures var cmd := CalculateCommand(false, [], Slice([0x6A, 0x84]));
      && Exchange(false, cmd, [Frame([])], 0).outcome == Returned(Err(NoSpace))
      && Exchange(true, cmd, [Frame([])], 0).outcome == Returned(Err(InsufficientData))
  {
    var cmd := CalculateCommand(false, [], Slice([0x6A, 0x84]));
    assert cmd == [0x00, 0xA2, 0x00, 0x00, 0x00, 0x71, 0x00, 0x74, 0x02, 0x6A, 0x84];
    var buf := FixLc(cmd);
    assert buf == [0x00, 0xA2, 0x00, 0x00, 0x06, 0x71, 0x00, 0x74, 0x02, 0x6A, 0x84];
    assert buf + [] == buf;
    assert StatusWord(0x6A, 0x84) == 0x6A84;
  }

  /** As written, a short frame can also lose the card's payload. With a challenge
      ending in 61 00, an empty frame makes the pops read 0x6100 off the command:
      the loop goes on from the command without its last two bytes and sends SEND
      REMAINING. The next frame's payload AA BB then fills the place of the popped
      bytes, so it lies before `mid`, and 0x9000 returns an empty reply. The
      corrected exchange stops at the empty frame with InsufficientData, as
      GuardedShortFrame states for every short frame. */
  lemma CalculateLostPayload()
    ensures var cmd := CalculateCommand(false, [], Slice([0x61, 0x00]));
      var script := [Frame([]), Frame([0xAA, 0xBB, 0x90, 0x00])];
      && Exchange(false, cmd, script, 0).outcome == Returned(Ok([]))
      && Exchange(false, cmd, script, 0).sent == [FixLc(cmd), SEND_REMAINING]
  {
    var cmd := CalculateCommand(false, [], Slice([0x61, 0x00]));
    var script := [Frame([]), Frame([0xAA, 0xBB, 0x90, 0x00])];
    assert cmd == [0x00, 0xA2, 0x00, 0x00, 0x00, 0x71, 0x00, 0x74, 0x02, 0x61, 0x00];
    var buf := FixLc(cmd);
    LostPayloadFirstTurn(buf, script);
    LostPayloadSecondTurn(buf[..9], script);
    RunAgain(false, 11, buf, script, 0, buf[..9]);
  }

  /** The first turn of CalculateLostPayload: the empty frame, and 0x6100 popped off
      the end of the command. */
  lemma LostPayloadFirstTurn(buf: seq<byte>, script: seq<Reply>)
    requires buf == [0x00, 0xA2, 0x00, 0x00, 0x06, 0x71, 0x00, 0x74, 0x02, 0x61, 0x00]
    requires script == [Frame([]), Frame([0xAA, 0xBB, 0x90, 0x00])]
    ensures Turn(false, 11, buf, script, 0) == Again(buf[..9])
  {
    assert buf + [] == buf;
    assert StatusWord(0x61, 0x00) == 0x6100;
  }

  /** The second turn of CalculateLostPayload: SEND REMAINING, and a payload that
      lands before `mid`. */
  lemma LostPayloadSecondTurn(rest: seq<byte>, script: seq<Reply>)
    requires |rest| == 9
    requires script == [Frame([]), Frame([0xAA, 0xBB, 0x90, 0x00])]
    ensures Turn(false, 11, rest, script, 1) ==
      Stop(Trace(Returned(Ok([])), rest + [0xAA, 0xBB], [SEND_REMAINING], 2))
  {
    var b := rest + [0xAA, 0xBB, 0x90, 0x00];
    var left := rest + [0xAA, 0xBB];
    assert |b| == 13 && b[..11] == left && b[11] == 0x90 && b[12] == 0x00;
    assert Turn(false, 11, rest, script, 1) == Received(11, b, SEND_REMAINING, 2);
    assert StatusWord(0x90, 0x00) == 0x9000;
    assert left[11..] == [];
  }

  /** YubiKey::calculate: build the command in the caller's buffer, transmit it, and
      decode the reply. A transmit error is returned as it is. */
  method Calculate(card: Card, truncate: bool, name: seq<byte>, challenge: Payload, buf: Buffer)
    returns (r: Result<Response>)
    modifies card, buf
    ensures var t := Exchange(true, CalculateCommand(truncate, name, challenge), card.script, old(card.pos));
      && t.outcome.Returned? && buf.data == t.buf && card.pos == t.pos && card.sent == old(card.sent) + t.sent
      && r == match t.outcome.result
              case Err(e) => Err(e)
              case Ok(reply) => DecodeCalculate(truncate, reply)
  {
    buf.Clear();
    buf.Extend([0x00, 0xA2, 0x00, P2(truncate)]);
    buf.Push(0x00);
    Tlv.Push(buf, 0x71, Slice(name));
    Tlv.Push(buf, 0x74, challenge);
    assert buf.data == CalculateCommand(truncate, name, challenge);
    var reply := Transmit(card, buf);
    if reply.Err? {
      return Err(reply.error);
    }
    r := DecodeCalculate(truncate, reply.value);
  }
}
