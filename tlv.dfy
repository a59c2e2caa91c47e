/** The one-byte-length TLV codec of YKOATH: `push` appends tag, length and value to
    the command buffer, `pop` takes one TLV off the front of a reply cursor. */
module Tlv {
  import opened Bytes
  import opened Errors

  /** What `push` can carry (the two Payload impls): a byte slice, or an i64 that
      travels as its eight big-endian bytes. */
  datatype Payload = Slice(bytes: seq<byte>) | Int64(number: int64)

  /** The length byte push writes: the slice length cast to u8 (so it wraps above
      255), or 8 for an i64. */
  function Len(p: Payload): byte {
    match p
    case Slice(b) => |b| % 256
    case Int64(_) => 8
  }

  /** The value bytes push writes. */
  function Contents(p: Payload): seq<byte> {
    match p
    case Slice(b) => b
    case Int64(v) => Int64Bytes(v)
  }

  /** The bytes one push appends. */
  function Encoded(tag: byte, p: Payload): seq<byte> {
    [tag, Len(p)] + Contents(p)
  }

  /** A payload whose length fits the length byte. */
  predicate Fits(p: Payload) {
    |Contents(p)| <= 255
  }

  /** The length byte is the value length modulo 256, and the length itself when
      the value fits. */
  lemma LenWraps(p: Payload)
    ensures Len(p) as int == |Contents(p)| % 256
    ensures Fits(p) ==> Len(p) as int == |Contents(p)|
  {
  }

  /** Payload::push_into. */
  method PushInto(buf: Buffer, data: Payload)
    modifies buf
    ensures buf.data == old(buf.data) + Contents(data)
  {
    match data
    case Slice(b) => buf.Extend(b);
    case Int64(v) => buf.Extend(Int64Bytes(v));
  }

  /** YubiKey::push: appends [tag, length] and then the value; what was in the
      buffer before stays as it was. */
  method Push(buf: Buffer, tag: byte, data: Payload)
    modifies buf
    ensures buf.data == old(buf.data) + Encoded(tag, data)
    ensures buf.data[..|old(buf.data)|] == old(buf.data)
    ensures |buf.data| == |old(buf.data)| + 2 + |Contents(data)|
  {
    buf.Push(tag);
    buf.Push(Len(data));
    PushInto(buf, data);
  }

  /** One TLV taken off a cursor: its tag, its value, and what follows it. */
  datatype Popped = Popped(tag: byte, value: seq<byte>, rest: seq<byte>)

  /** YubiKey::pop: the tag must be one of `tags` and the length byte must not run
      past the cursor. On success the value and the rest take up the cursor after
      the two header bytes (PopDecoded states the split); on failure the caller's
      cursor is left where it was. */
  function Pop(cursor: seq<byte>, tags: seq<byte>): (r: Result<Popped>)
    ensures r.Ok? <==> |cursor| >= 2 && cursor[0] in tags && cursor[1] <= |cursor| - 2
    ensures r.Ok? ==>
      r.value.tag == cursor[0] && r.value.tag in tags &&
      |r.value.value| == cursor[1] as int && |r.value.rest| == |cursor| - 2 - |r.value.value|
    ensures cursor == [] ==> r == Err(InsufficientData)
    ensures cursor != [] && cursor[0] !in tags ==> r == Err(UnexpectedValue(cursor[0]))
    ensures cursor != [] && cursor[0] in tags && r.Err? ==> r == Err(InsufficientData)
  {
    if |cursor| == 0 then Err(InsufficientData)
    else
      var tag := cursor[0];
      if tag in tags then
        if |cursor| < 2 then Err(InsufficientData)
        else
          var len := cursor[1];
          if 2 + len > |cursor| then Err(InsufficientData)
          else Ok(Popped(tag, cursor[2..2 + len], cursor[2 + len..]))
      else Err(UnexpectedValue(tag))
  }

  /** A successful pop consumes exactly two bytes more than the value it returns. */
  lemma PopAdvances(cursor: seq<byte>, tags: seq<byte>)
    requires Pop(cursor, tags).Ok?
    ensures |Pop(cursor, tags).value.rest| == |cursor| - 2 - |Pop(cursor, tags).value.value|
    ensures Pop(cursor, tags).value.rest == cursor[2 + |Pop(cursor, tags).value.value|..]
  {
    var p := Pop(cursor, tags).value;
  }

  /** The round trip: popping what push wrote, with an allowed tag and a value that
      fits the length byte, gives back the tag and the value and leaves the cursor
      at whatever followed. */
  lemma PopEncoded(tag: byte, data: Payload, rest: seq<byte>, tags: seq<byte>)
    requires tag in tags && Fits(data)
    ensures Pop(Encoded(tag, data) + rest, tags) == Ok(Popped(tag, Contents(data), rest))
  {
    var c := Encoded(tag, data) + rest;
    var v := Contents(data);
    assert c[0] == tag && c[1] == |v|;
    assert c[2..2 + |v|] == v;
    assert c[2 + |v|..] == rest;
  }

  /** The converse of PopEncoded: whatever pop accepts is a TLV as push writes it,
      with a value of at most 255 bytes, followed by the rest. */
  lemma PopDecoded(cursor: seq<byte>, tags: seq<byte>)
    requires Pop(cursor, tags).Ok?
    ensures var p := Pop(cursor, tags).value;
      |p.value| <= 255 && cursor == Encoded(p.tag, Slice(p.value)) + p.rest
  {
    var p := Pop(cursor, tags).value;
    assert p.value == cursor[2..2 + |p.value|] && p.rest == cursor[2 + |p.value|..];
    assert cursor == [p.tag, |p.value|] + p.value + p.rest;
    assert Len(Slice(p.value)) == |p.value|;
  }

  /** A tag outside the allowed set is reported, whatever follows it. */
  lemma PopWrongTag(tag: byte, data: Payload, rest: seq<byte>, tags: seq<byte>)
    requires tag !in tags
    ensures Pop(Encoded(tag, data) + rest, tags) == Err(UnexpectedValue(tag))
  {
    assert (Encoded(tag, data) + rest)[0] == tag;
  }

  /** A TLV cut short anywhere after its tag is InsufficientData. */
  lemma PopTruncated(tag: byte, data: Payload, k: nat, tags: seq<byte>)
    requires tag in tags && Fits(data)
    requires 1 <= k < |Encoded(tag, data)|
    ensures Pop(Encoded(tag, data)[..k], tags) == Err(InsufficientData)
  {
    var c := Encoded(tag, data)[..k];
    assert c[0] == tag;
    assert k >= 2 ==> c[1] == |Contents(data)|;
  }

  /** What happens to a slice longer than 255 bytes: its length byte wraps, so pop
      returns only the first |value| mod 256 bytes and leaves the remainder of the
      value in front of the rest. */
  lemma PopOverlong(tag: byte, value: seq<byte>, rest: seq<byte>, tags: seq<byte>)
    requires tag in tags && |value| > 255
    ensures Pop(Encoded(tag, Slice(value)) + rest, tags)
      == Ok(Popped(tag, value[..|value| % 256], value[|value| % 256..] + rest))
  {
    var c := Encoded(tag, Slice(value)) + rest;
    var n := |value| % 256;
    assert c[0] == tag && c[1] == n;
    assert c[2..2 + n] == value[..n];
    assert c[2 + n..] == value[n..] + rest;
  }
}
