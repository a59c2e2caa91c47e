/** CALCULATE ALL (instruction 0xA4): responses for every credential at once, read
    back by an iterator that pulls one name and one payload TLV at a time. */
module CalculateAll {
  import opened Bytes
  import opened Errors
  import opened Tlv
  import opened Apdu
  import opened Utf8Text
  import opened Calculate

  /** What a credential's payload says: a response, an HOTP credential (which
      CALCULATE ALL does not compute), or a credential that needs a touch. */
  datatype BulkData = Totp(response: Response) | Hotp | Touch

  /** One credential: its name (valid UTF-8) and its payload. */
  datatype BulkResponse = BulkResponse(name: seq<byte>, data: BulkData)

  const NAME_TAG: byte := 0x71
  const HOTP_TAG: byte := 0x77
  const TOUCH_TAG: byte := 0x7C

  /** The payload tags one pull accepts: the response tag for this truncation, the
      HOTP tag and the touch tag. */
  function DataTags(truncate: bool): seq<byte> {
    [ResponseTag(truncate), HOTP_TAG, TOUCH_TAG]
  }

  /** The command calculate_all builds, before transmit fixes Lc: the header and the
      challenge under tag 0x74. */
  function CalculateAllCommand(truncate: bool, challenge: Payload): seq<byte> {
    [0x00, 0xA4, 0x00, P2(truncate), 0x00] + Encoded(0x74, challenge)
  }

  /** transmit sets Lc to the length of the challenge TLV modulo 256, and the body is
      exactly that one TLV. */
  lemma CalculateAllLayout(truncate: bool, challenge: Payload)
    requires Fits(challenge)
    ensures var cmd := FixLc(CalculateAllCommand(truncate, challenge));
      && cmd[..4] == [0x00, 0xA4, 0x00, P2(truncate)]
      && cmd[4] == (2 + |Contents(challenge)|) % 256
      && Pop(cmd[5..], [0x74]) == Ok(Popped(0x74, Contents(challenge), []))
  {
    var raw := CalculateAllCommand(truncate, challenge);
    var cmd := FixLc(raw);
    assert cmd[..4] == raw[..4];
    assert cmd[5..] == raw[5..] == Encoded(0x74, challenge) + [];
    PopEncoded(0x74, challenge, [], [0x74]);
  }

  /** The tag-to-variant match: a response tag reads its value as a Response, the
      HOTP and touch tags ignore the value. */
  function EntryData(tag: byte, value: seq<byte>): (r: Result<BulkData>)
    ensures tag == HOTP_TAG ==> r == Ok(Hotp)
    ensures tag == TOUCH_TAG ==> r == Ok(Touch)
    ensures tag == 0x75 || tag == 0x76 ==>
      && (r.Ok? <==> |value| >= 5)
      && (r.Ok? ==> r.value.Totp? && ResponseBytes(r.value.response) == value[..5])
      && (r.Err? ==> r.error == InsufficientData)
    ensures tag !in [0x75, 0x76, HOTP_TAG, TOUCH_TAG] ==> r == Err(UnexpectedValue(tag))
  {
    if tag == 0x75 || tag == 0x76 then
      match ResponseFrom(value)
      case Ok(resp) =>
        assert value[..5] == [value[0]] + value[1..5];
        Ok(Totp(resp))
      case Err(e) => Err(e)
    else if tag == HOTP_TAG then Ok(Hotp)
    else if tag == TOUCH_TAG then Ok(Touch)
    else Err(UnexpectedValue(tag))
  }

  /** What one pull yields, and the cursor it leaves. */
  datatype Pulled = Pulled(item: Result<BulkResponse>, rest: seq<byte>)

  /** One pull of the iterator from a non-empty cursor: the name TLV, then the
      payload TLV, then the variant, and only then the UTF-8 check of the name. The
      cursor moves past each TLV as it is popped, and a pop that fails leaves it, so
      the cursor stays put exactly when the name TLV cannot be popped. */
  function Pull(truncate: bool, cursor: seq<byte>): (p: Pulled)
    ensures |p.rest| <= |cursor|
    ensures p.rest == cursor <==> Pop(cursor, [NAME_TAG]).Err?
    ensures p.rest == cursor ==> p.item == Err(Pop(cursor, [NAME_TAG]).error)
    ensures p.item.Ok? ==> ValidUtf8(p.item.value.name) && |p.rest| + 4 <= |cursor|
  {
    match Pop(cursor, [NAME_TAG])
    case Err(e) => Pulled(Err(e), cursor)
    case Ok(name) =>
      PopAdvances(cursor, [NAME_TAG]);
      PullData(truncate, name.value, name.rest)
  }

  /** The rest of a pull once the name TLV is popped, from the cursor after it. */
  function PullData(truncate: bool, name: seq<byte>, cursor: seq<byte>): (p: Pulled)
    ensures |p.rest| <= |cursor|
    ensures p.item.Ok? ==> p.item.value.name == name && ValidUtf8(name) && |p.rest| + 2 <= |cursor|
  {
    match Pop(cursor, DataTags(truncate))
    case Err(e) => Pulled(Err(e), cursor)
    case Ok(payload) =>
      PopAdvances(cursor, DataTags(truncate));
      match EntryData(payload.tag, payload.value)
      case Err(e) => Pulled(Err(e), payload.rest)
      case Ok(data) =>
        if ValidUtf8(name) then Pulled(Ok(BulkResponse(name, data)), payload.rest)
        else Pulled(Err(Utf8), payload.rest)
  }

  /** A pull only moves the cursor forward: what it leaves is a suffix of what it
      was given. */
  lemma PullSuffix(truncate: bool, cursor: seq<byte>)
    ensures var p := Pull(truncate, cursor);
      p.rest == cursor[|cursor| - |p.rest|..]
  {
    if Pop(cursor, [NAME_TAG]).Ok? {
      var name := Pop(cursor, [NAME_TAG]).value;
      PopAdvances(cursor, [NAME_TAG]);
      if Pop(name.rest, DataTags(truncate)).Ok? {
        PopAdvances(name.rest, DataTags(truncate));
      }
    }
  }

  /** The state the closure of calculate_all captures: the truncation flag and the
      reply cursor, which every pull advances. */
  class Entries {
    const truncate: bool
    var rest: seq<byte>

    constructor (truncate: bool, reply: seq<byte>)
      ensures this.truncate == truncate && rest == reply
    {
      this.truncate := truncate;
      rest := reply;
    }

    /** Iterator::next: None once the cursor is empty, otherwise one pull. */
    method Next() returns (item: Option<Result<BulkResponse>>)
      modifies this
      ensures old(rest) == [] ==> item == None && rest == []
      ensures old(rest) != [] ==>
        item == Some(Pull(truncate, old(rest)).item) && rest == Pull(truncate, old(rest)).rest
    {
      if rest == [] {
        return None;
      }
      var name := Pop(rest, [NAME_TAG]);
      if name.Err? {
        return Some(Err(name.error));
      }
      rest := name.value.rest;
      var payload := Pop(rest, DataTags(truncate));
      if payload.Err? {
        return Some(Err(payload.error));
      }
      rest := payload.value.rest;
      var data := EntryData(payload.value.tag, payload.value.value);
      if data.Err? {
        return Some(Err(data.error));
      }
      if !ValidUtf8(name.value.value) {
        return Some(Err(Utf8));
      }
      return Some(Ok(BulkResponse(name.value.value, data.value)));
    }
  }

  /** YubiKey::calculate_all: build the command in the caller's buffer, transmit it,
      and hand out an iterator over the reply. A transmit error is returned as it
      is. */
  method CalculateAll(card: Card, truncate: bool, challenge: Payload, buf: Buffer)
    returns (r: Result<Entries>)
    modifies card, buf
    ensures var t := Exchange(true, CalculateAllCommand(truncate, challenge), card.script, old(card.pos));
      && t.outcome.Returned? && buf.data == t.buf && card.pos == t.pos && card.sent == old(card.sent) + t.sent
      && (t.outcome.result.Err? ==> r == Err(t.outcome.result.error))
      && (t.outcome.result.Ok? ==>
            r.Ok? && fresh(r.value) && r.value.truncate == truncate &&
            r.value.rest == t.outcome.result.value)
  {
    buf.Clear();
    buf.Extend([0x00, 0xA4, 0x00, P2(truncate)]);
    buf.Push(0x00);
    Tlv.Push(buf, 0x74, challenge);
    assert buf.data == CalculateAllCommand(truncate, challenge);
    var reply := Transmit(card, buf);
    if reply.Err? {
      return Err(reply.error);
    }
    var entries := new Entries(truncate, reply.value);
    return Ok(entries);
  }

  // ---------------------------------------------------------------------------
  // What the iterator yields

  /** The first n items the iterator yields from `cursor` (fewer when it ends). */
  function Take(truncate: bool, cursor: seq<byte>, n: nat): (items: seq<Result<BulkResponse>>)
    ensures |items| <= n
    ensures cursor == [] ==> items == []
    decreases n
  {
    if n == 0 || cursor == [] then []
    else
      var p := Pull(truncate, cursor);
      [p.item] + Take(truncate, p.rest, n - 1)
  }

  /** The payload TLV a card sends for a credential. HOTP and touch entries carry
      `marker` as their value, which the decoder ignores. */
  function EncodeData(truncate: bool, d: BulkData, marker: seq<byte>): seq<byte> {
    match d
    case Totp(resp) => Encoded(ResponseTag(truncate), Slice(ResponseBytes(resp)))
    case Hotp => Encoded(HOTP_TAG, Slice(marker))
    case Touch => Encoded(TOUCH_TAG, Slice(marker))
  }

  /** The two TLVs a card sends for a credential. */
  function EncodeEntry(truncate: bool, e: BulkResponse, marker: seq<byte>): seq<byte> {
    Encoded(NAME_TAG, Slice(e.name)) + EncodeData(truncate, e.data, marker)
  }

  /** The reply a card sends for a list of credentials, in order. */
  function EncodeEntries(truncate: bool, es: seq<BulkResponse>, marker: seq<byte>): seq<byte> {
    if es == [] then [] else EncodeEntry(truncate, es[0], marker) + EncodeEntries(truncate, es[1..], marker)
  }

  /** A credential a card can send: a name that is UTF-8 and fits a TLV. */
  predicate Sendable(e: BulkResponse) {
    |e.name| <= 255 && ValidUtf8(e.name)
  }

  /** Every credential of the list is Sendable. */
  predicate AllSendable(es: seq<BulkResponse>) {
    es == [] || (Sendable(es[0]) && AllSendable(es[1..]))
  }

  /** A name TLV that pops hands the rest of the pull to PullData. */
  lemma PullName(truncate: bool, name: seq<byte>, tail: seq<byte>)
    requires |name| <= 255
    ensures Pull(truncate, Encoded(NAME_TAG, Slice(name)) + tail) == PullData(truncate, name, tail)
  {
    PopEncoded(NAME_TAG, Slice(name), tail, [NAME_TAG]);
  }

  /** The payload TLV of an encoded credential reads back as its data; the pull
      then succeeds exactly when the name is UTF-8. */
  lemma PullDataEncoded(truncate: bool, name: seq<byte>, d: BulkData, marker: seq<byte>, rest: seq<byte>)
    requires |marker| <= 255
    ensures PullData(truncate, name, EncodeData(truncate, d, marker) + rest) ==
      Pulled(if ValidUtf8(name) then Ok(BulkResponse(name, d)) else Err(Utf8), rest)
  {
    match d
    case Totp(resp) =>
      PopEncoded(ResponseTag(truncate), Slice(ResponseBytes(resp)), rest, DataTags(truncate));
      ResponseRoundTrip(resp, []);
      assert ResponseBytes(resp) + [] == ResponseBytes(resp);
    case Hotp =>
      PopEncoded(HOTP_TAG, Slice(marker), rest, DataTags(truncate));
    case Touch =>
      PopEncoded(TOUCH_TAG, Slice(marker), rest, DataTags(truncate));
  }

  /** One pull reads back one encoded credential and stops right after it. */
  lemma PullEncoded(truncate: bool, e: BulkResponse, marker: seq<byte>, rest: seq<byte>)
    requires Sendable(e) && |marker| <= 255
    ensures Pull(truncate, EncodeEntry(truncate, e, marker) + rest) == Pulled(Ok(e), rest)
  {
    var data := EncodeData(truncate, e.data, marker);
    AppendAssoc(Encoded(NAME_TAG, Slice(e.name)), data, rest);
    PullName(truncate, e.name, data + rest);
    PullDataEncoded(truncate, e.name, e.data, marker, rest);
  }

  /** The converse of PullDataEncoded: a payload TLV that reads back as a variant
      was one TLV of at most 255 bytes under an accepted tag, and the pull stops
      right after it. The raw value is kept: a response value may be longer than
      the five bytes it is read from. */
  lemma PullDataDecoded(truncate: bool, name: seq<byte>, cursor: seq<byte>)
    requires PullData(truncate, name, cursor).item.Ok?
    ensures var p := PullData(truncate, name, cursor);
      exists tag: byte, v: seq<byte> ::
        && tag in DataTags(truncate) && |v| <= 255
        && EntryData(tag, v) == Ok(p.item.value.data)
        && cursor == Encoded(tag, Slice(v)) + p.rest
  {
    var p := PullData(truncate, name, cursor);
    var q := Pop(cursor, DataTags(truncate)).value;
    PopDecoded(cursor, DataTags(truncate));
    assert EntryData(q.tag, q.value) == Ok(p.item.value.data) && p.rest == q.rest;
  }

  /** The converse of PullEncoded: whatever a pull accepts is a name TLV followed
      by one payload TLV under an accepted tag, each of at most 255 bytes, and the
      pull leaves exactly what follows the two. */
  lemma PullDecoded(truncate: bool, cursor: seq<byte>)
    requires Pull(truncate, cursor).item.Ok?
    ensures var p := Pull(truncate, cursor);
      var e := p.item.value;
      && |e.name| <= 255 && ValidUtf8(e.name)
      && exists tag: byte, v: seq<byte> ::
        && tag in DataTags(truncate) && |v| <= 255
        && EntryData(tag, v) == Ok(e.data)
        && cursor == Encoded(NAME_TAG, Slice(e.name)) + Encoded(tag, Slice(v)) + p.rest
  {
    var p := Pull(truncate, cursor);
    var n := Pop(cursor, [NAME_TAG]).value;
    PopDecoded(cursor, [NAME_TAG]);
    assert p == PullData(truncate, n.value, n.rest);
    PullDataDecoded(truncate, n.value, n.rest);
    var tag: byte, v: seq<byte> :|
      && tag in DataTags(truncate) && |v| <= 255
      && EntryData(tag, v) == Ok(p.item.value.data)
      && n.rest == Encoded(tag, Slice(v)) + p.rest;
    AppendAssoc(Encoded(NAME_TAG, Slice(n.value)), Encoded(tag, Slice(v)), p.rest);
  }

  /** `.collect::<Result<Vec<_>, _>>()` over the iterator: every credential up to
      the end of the reply, or the first error. Each credential took at least four
      bytes of the reply. */
  function Collect(truncate: bool, cursor: seq<byte>): (r: Result<seq<BulkResponse>>)
    ensures r.Ok? ==> 4 * |r.value| <= |cursor|
    ensures cursor != [] && Pop(cursor, [NAME_TAG]).Err? ==> r == Err(Pop(cursor, [NAME_TAG]).error)
    decreases |cursor|
  {
    if cursor == [] then Ok([])
    else
      var p := Pull(truncate, cursor);
      if p.item.Err? then Err(p.item.error)
      else
        var t :- Collect(truncate, p.rest);
        Ok([p.item.value] + t)
  }

  /** Every name a successful collect returns is UTF-8. */
  lemma {:induction false} CollectNamesValid(truncate: bool, cursor: seq<byte>)
    requires Collect(truncate, cursor).Ok?
    ensures var es := Collect(truncate, cursor).value;
      forall i | 0 <= i < |es| :: ValidUtf8(es[i].name)
    decreases |cursor|
  {
    if cursor != [] {
      var p := Pull(truncate, cursor);
      CollectNamesValid(truncate, p.rest);
      var t := Collect(truncate, p.rest).value;
      var es := Collect(truncate, cursor).value;
      assert es == [p.item.value] + t;
      forall i | 0 <= i < |es| ensures ValidUtf8(es[i].name) {
        if i > 0 { assert es[i] == t[i - 1]; }
      }
    }
  }

  /** Collecting after one encoded credential puts that credential in front. */
  lemma CollectStep(truncate: bool, e: BulkResponse, marker: seq<byte>, rest: seq<byte>)
    requires Sendable(e) && |marker| <= 255
    ensures Collect(truncate, EncodeEntry(truncate, e, marker) + rest) ==
      match Collect(truncate, rest)
      case Ok(t) => Ok([e] + t)
      case Err(x) => Err(x)
  {
    var cursor := EncodeEntry(truncate, e, marker) + rest;
    PullEncoded(truncate, e, marker, rest);
    assert cursor[0] == NAME_TAG;
  }

  /** CollectStep when the rest collects: the first credential goes in front of the
      others. */
  lemma CollectCons(truncate: bool, es: seq<BulkResponse>, marker: seq<byte>, rest: seq<byte>)
    requires es != [] && Sendable(es[0]) && |marker| <= 255 && Collect(truncate, rest) == Ok(es[1..])
    ensures Collect(truncate, EncodeEntry(truncate, es[0], marker) + rest) == Ok(es)
  {
    CollectStep(truncate, es[0], marker, rest);
    ConsTail(es);
  }

  lemma ConsTail<T>(s: seq<T>)
    requires s != []
    ensures [s[0]] + s[1..] == s
  {
  }

  /** Collecting the credentials a card sends yields each of them, in order. */
  lemma {:induction false} CollectEncoded(truncate: bool, es: seq<BulkResponse>, marker: seq<byte>)
    requires AllSendable(es) && |marker| <= 255
    ensures Collect(truncate, EncodeEntries(truncate, es, marker)) == Ok(es)
  {
    if es != [] {
      var tail := EncodeEntries(truncate, es[1..], marker);
      assert EncodeEntries(truncate, es, marker) == EncodeEntry(truncate, es[0], marker) + tail;
      CollectEncoded(truncate, es[1..], marker);
      CollectCons(truncate, es, marker, tail);
    }
  }

  /** A failing name TLV leaves the cursor where it was, so the iterator yields the
      same error on every pull and never ends. */
  lemma {:induction false} NameFailureRepeats(truncate: bool, cursor: seq<byte>, n: nat)
    requires cursor != [] && Pop(cursor, [NAME_TAG]).Err?
    ensures Take(truncate, cursor, n) == seq(n, _ => Err(Pop(cursor, [NAME_TAG]).error))
  {
    if n > 0 {
      NameFailureRepeats(truncate, cursor, n - 1);
    }
  }

  /** A reply holding one well-formed credential yields exactly that credential and
      then ends, however many pulls are asked for. */
  lemma TakeOne(truncate: bool, e: BulkResponse, marker: seq<byte>, n: nat)
    requires Sendable(e) && |marker| <= 255 && n >= 1
    ensures Take(truncate, EncodeEntry(truncate, e, marker), n) == [Ok(e)]
  {
    var c := EncodeEntry(truncate, e, marker);
    PullEncoded(truncate, e, marker, []);
    assert c + [] == c;
    assert c != [];
  }

  /** A full response where a truncated one was asked for is rejected by the payload
      pop: the pull fails with that tag, past the name only. */
  lemma PullFullWhenTruncated(e: BulkResponse, rest: seq<byte>)
    requires Sendable(e) && e.data.Totp?
    ensures var cursor := EncodeEntry(false, e, []) + rest;
      Pull(true, cursor) == Pulled(Err(UnexpectedValue(0x75)), cursor[2 + |e.name|..])
  {
    var data := Encoded(0x75, Slice(ResponseBytes(e.data.response)));
    var cursor := EncodeEntry(false, e, []) + rest;
    AppendAssoc(Encoded(NAME_TAG, Slice(e.name)), data, rest);
    PopEncoded(NAME_TAG, Slice(e.name), data + rest, [NAME_TAG]);
    PopWrongTag(0x75, Slice(ResponseBytes(e.data.response)), rest, DataTags(true));
    assert cursor[2 + |e.name|..] == data + rest;
  }

  /** A name that is not UTF-8 fails the pull with Utf8, after both TLVs: the next
      pull starts at the following credential. */
  lemma PullBadName(truncate: bool, e: BulkResponse, marker: seq<byte>, rest: seq<byte>)
    requires |e.name| <= 255 && !ValidUtf8(e.name) && |marker| <= 255
    ensures Pull(truncate, EncodeEntry(truncate, e, marker) + rest) == Pulled(Err(Utf8), rest)
  {
    var data := EncodeData(truncate, e.data, marker);
    AppendAssoc(Encoded(NAME_TAG, Slice(e.name)), data, rest);
    PullName(truncate, e.name, data + rest);
    PullDataEncoded(truncate, e.name, e.data, marker, rest);
  }

  /** A response value shorter than five bytes fails the pull with InsufficientData
      and the iterator goes on after it. */
  lemma PullShortResponse(truncate: bool, name: seq<byte>, value: seq<byte>, rest: seq<byte>)
    requires |name| <= 255 && |value| < 5
    ensures var cursor := Encoded(NAME_TAG, Slice(name)) + Encoded(ResponseTag(truncate), Slice(value)) + rest;
      Pull(truncate, cursor) == Pulled(Err(InsufficientData), rest)
  {
    var data := Encoded(ResponseTag(truncate), Slice(value));
    AppendAssoc(Encoded(NAME_TAG, Slice(name)), data, rest);
    PopEncoded(NAME_TAG, Slice(name), data + rest, [NAME_TAG]);
    PopEncoded(ResponseTag(truncate), Slice(value), rest, DataTags(truncate));
  }
}
