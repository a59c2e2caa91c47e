/** UTF-8 well-formedness as defined by the syntax in section 4 of RFC 3629, which is
    what Rust's std::str::from_utf8 accepts. */
module Utf8Text {
  import opened Bytes

  predicate IsTail(b: byte) {
    0x80 <= b <= 0xBF
  }

  /** The length of the well-formed character that starts s, or 0 when s does not
      start with one (section 4 of RFC 3629, rules UTF8-1 to UTF8-4). */
  function CharLength(s: seq<byte>): (n: nat)
    requires s != []
    ensures n <= |s| && n <= 4
  {
    var b := s[0];
    if b <= 0x7F then 1
    else if 0xC2 <= b <= 0xDF then
      if |s| >= 2 && IsTail(s[1]) then 2 else 0
    else if b == 0xE0 then
      if |s| >= 3 && 0xA0 <= s[1] <= 0xBF && IsTail(s[2]) then 3 else 0
    else if (0xE1 <= b <= 0xEC) || (0xEE <= b <= 0xEF) then
      if |s| >= 3 && IsTail(s[1]) && IsTail(s[2]) then 3 else 0
    else if b == 0xED then
      if |s| >= 3 && 0x80 <= s[1] <= 0x9F && IsTail(s[2]) then 3 else 0
    else if b == 0xF0 then
      if |s| >= 4 && 0x90 <= s[1] <= 0xBF && IsTail(s[2]) && IsTail(s[3]) then 4 else 0
    else if 0xF1 <= b <= 0xF3 then
      if |s| >= 4 && IsTail(s[1]) && IsTail(s[2]) && IsTail(s[3]) then 4 else 0
    else if b == 0xF4 then
      if |s| >= 4 && 0x80 <= s[1] <= 0x8F && IsTail(s[2]) && IsTail(s[3]) then 4 else 0
    else 0
  }

  /** s is a sequence of well-formed UTF-8 characters. */
  predicate ValidUtf8(s: seq<byte>)
    decreases |s|
  {
    s == [] || (var n := CharLength(s); n > 0 && ValidUtf8(s[n..]))
  }

  /** The UTF-8 encoding of a Unicode scalar value, following the table in section 3
      of RFC 3629. */
  function EncodeScalar(cp: nat): (s: seq<byte>)
    requires cp <= 0x10FFFF && !(0xD800 <= cp <= 0xDFFF)
  {
    if cp < 0x80 then [cp]
    else if cp < 0x800 then [0xC0 + cp / 0x40, 0x80 + cp % 0x40]
    else if cp < 0x1_0000 then
      [0xE0 + cp / 0x1000, 0x80 + (cp / 0x40) % 0x40, 0x80 + cp % 0x40]
    else
      [0xF0 + cp / 0x4_0000, 0x80 + (cp / 0x1000) % 0x40, 0x80 + (cp / 0x40) % 0x40, 0x80 + cp % 0x40]
  }

  /** The section 4 syntax accepts every encoding the section 3 table produces, as one
      character. */
  lemma EncodeScalarValid(cp: nat)
    requires cp <= 0x10FFFF && !(0xD800 <= cp <= 0xDFFF)
    ensures CharLength(EncodeScalar(cp)) == |EncodeScalar(cp)|
    ensures ValidUtf8(EncodeScalar(cp))
  {
    var s := EncodeScalar(cp);
    if cp < 0x80 {
      assert CharLength(s) == 1;
    } else if cp < 0x800 {
      EncodeTwoValid(cp);
    } else if cp < 0x1_0000 {
      EncodeThreeValid(cp);
    } else {
      EncodeFourValid(cp);
    }
    assert s[|s|..] == [];
  }

  lemma EncodeTwoValid(cp: nat)
    requires 0x80 <= cp < 0x800
    ensures CharLength(EncodeScalar(cp)) == 2
  {
    assert 0x2 <= cp / 0x40 < 0x20;
  }

  lemma EncodeThreeValid(cp: nat)
    requires 0x800 <= cp < 0x1_0000 && !(0xD800 <= cp <= 0xDFFF)
    ensures CharLength(EncodeScalar(cp)) == 3
  {
    var s := EncodeScalar(cp);
    var q := cp / 0x40;
    assert 0x20 <= q < 0x400 && !(0x360 <= q < 0x380);
    assert cp / 0x1000 == q / 0x40;
    assert s[0] == 0xE0 + q / 0x40 && s[1] == 0x80 + q % 0x40;
    assert s[0] == 0xE0 ==> 0xA0 <= s[1];
    assert s[0] == 0xED ==> s[1] <= 0x9F;
  }

  lemma EncodeFourValid(cp: nat)
    requires 0x1_0000 <= cp <= 0x10FFFF
    ensures CharLength(EncodeScalar(cp)) == 4
  {
    var s := EncodeScalar(cp);
    var q := cp / 0x1000;
    assert 0x10 <= q < 0x110;
    assert cp / 0x4_0000 == q / 0x40;
    assert s[0] == 0xF0 + q / 0x40 && s[1] == 0x80 + q % 0x40;
    assert s[0] == 0xF0 ==> 0x90 <= s[1];
    assert s[0] == 0xF4 ==> s[1] <= 0x8F;
  }

  /** The scalar value a well-formed character encodes: the payload bits of its
      bytes, most significant first. */
  function DecodeChar(s: seq<byte>): (cp: nat)
    requires s != [] && CharLength(s) > 0
  {
    var n := CharLength(s);
    if n == 1 then s[0] as nat
    else if n == 2 then (s[0] - 0xC0) as nat * 0x40 + (s[1] - 0x80) as nat
    else if n == 3 then
      (s[0] - 0xE0) as nat * 0x1000 + (s[1] - 0x80) as nat * 0x40 + (s[2] - 0x80) as nat
    else
      (s[0] - 0xF0) as nat * 0x4_0000 + (s[1] - 0x80) as nat * 0x1000 +
      (s[2] - 0x80) as nat * 0x40 + (s[3] - 0x80) as nat
  }

  /** The converse of EncodeScalarValid: every character the section 4 syntax
      accepts is the section 3 encoding of a scalar value, so overlong forms,
      surrogates, values above U+10FFFF and stray continuation bytes are all
      rejected. */
  lemma {:induction false} DecodeCharEncodes(s: seq<byte>)
    requires s != [] && CharLength(s) > 0
    ensures var cp := DecodeChar(s);
      && cp <= 0x10FFFF && !(0xD800 <= cp <= 0xDFFF)
      && EncodeScalar(cp) == s[..CharLength(s)]
  {
    var n := CharLength(s);
    if n == 2 {
      DecodeTwo(s[0], s[1]);
    } else if n == 3 {
      DecodeThree(s[0], s[1], s[2]);
    } else if n == 4 {
      DecodeFour(s[0], s[1], s[2], s[3]);
    }
  }

  lemma DecodeTwo(b0: byte, b1: byte)
    requires 0xC2 <= b0 <= 0xDF && IsTail(b1)
    ensures var cp := (b0 - 0xC0) as nat * 0x40 + (b1 - 0x80) as nat;
      0x80 <= cp < 0x800 && EncodeScalar(cp) == [b0, b1]
  {
  }

  lemma DecodeThree(b0: byte, b1: byte, b2: byte)
    requires 0xE0 <= b0 <= 0xEF && IsTail(b1) && IsTail(b2)
    requires b0 == 0xE0 ==> 0xA0 <= b1
    requires b0 == 0xED ==> b1 <= 0x9F
    ensures var cp := (b0 - 0xE0) as nat * 0x1000 + (b1 - 0x80) as nat * 0x40 + (b2 - 0x80) as nat;
      0x800 <= cp < 0x1_0000 && !(0xD800 <= cp <= 0xDFFF) && EncodeScalar(cp) == [b0, b1, b2]
  {
    ThreeDigits((b0 - 0xE0) as nat, (b1 - 0x80) as nat, (b2 - 0x80) as nat);
  }

  lemma DecodeFour(b0: byte, b1: byte, b2: byte, b3: byte)
    requires 0xF0 <= b0 <= 0xF4 && IsTail(b1) && IsTail(b2) && IsTail(b3)
    requires b0 == 0xF0 ==> 0x90 <= b1
    requires b0 == 0xF4 ==> b1 <= 0x8F
    ensures var cp := (b0 - 0xF0) as nat * 0x4_0000 + (b1 - 0x80) as nat * 0x1000 +
        (b2 - 0x80) as nat * 0x40 + (b3 - 0x80) as nat;
      0x1_0000 <= cp <= 0x10FFFF && EncodeScalar(cp) == [b0, b1, b2, b3]
  {
    FourDigits((b0 - 0xF0) as nat, (b1 - 0x80) as nat, (b2 - 0x80) as nat, (b3 - 0x80) as nat);
  }

  /** Four base-64 digits, most significant first, read back by the divisions of
      EncodeScalar. */
  lemma FourDigits(x0: nat, x1: nat, x2: nat, x3: nat)
    requires x1 < 0x40 && x2 < 0x40 && x3 < 0x40
    ensures var cp := x0 * 0x4_0000 + x1 * 0x1000 + x2 * 0x40 + x3;
      cp / 0x4_0000 == x0 && (cp / 0x1000) % 0x40 == x1 && (cp / 0x40) % 0x40 == x2 && cp % 0x40 == x3
  {
    var cp := x0 * 0x4_0000 + x1 * 0x1000 + x2 * 0x40 + x3;
    assert cp / 0x40 == x0 * 0x1000 + x1 * 0x40 + x2;
    assert cp / 0x1000 == x0 * 0x40 + x1;
  }

  /** Three base-64 digits, most significant first, read back by the divisions of
      EncodeScalar. */
  lemma ThreeDigits(x0: nat, x1: nat, x2: nat)
    requires x1 < 0x40 && x2 < 0x40
    ensures var cp := x0 * 0x1000 + x1 * 0x40 + x2;
      cp / 0x1000 == x0 && (cp / 0x40) % 0x40 == x1 && cp % 0x40 == x2
  {
    var cp := x0 * 0x1000 + x1 * 0x40 + x2;
    assert cp / 0x40 == x0 * 0x40 + x1;
  }

  /** What the converse rules out, on one example each: an overlong NUL, an encoded
      surrogate, a lone continuation byte and a value above U+10FFFF. */
  lemma Rejected()
    ensures !ValidUtf8([0xC0, 0x80])
    ensures !ValidUtf8([0xED, 0xA0, 0x80])
    ensures !ValidUtf8([0x80])
    ensures !ValidUtf8([0xF4, 0x90, 0x80, 0x80])
  {
  }

  /** Plain ASCII is valid UTF-8. */
  lemma {:induction false} AsciiValid(s: seq<byte>)
    requires forall i | 0 <= i < |s| :: s[i] < 0x80
    ensures ValidUtf8(s)
  {
    if s != [] {
      assert CharLength(s) == 1;
      AsciiValid(s[1..]);
    }
  }

  /** Bytes after a complete first character do not change how long it is. */
  lemma CharLengthExtend(s: seq<byte>, t: seq<byte>)
    requires s != [] && CharLength(s) > 0
    ensures CharLength(s + t) == CharLength(s)
  {
    var n := CharLength(s);
    assert forall i | 0 <= i < n :: (s + t)[i] == s[i];
  }

  /** Joining two valid texts gives a valid text. */
  lemma {:induction false} ConcatValid(a: seq<byte>, b: seq<byte>)
    requires ValidUtf8(a) && ValidUtf8(b)
    ensures ValidUtf8(a + b)
    decreases |a|
  {
    if a != [] {
      var n := CharLength(a);
      CharLengthExtend(a, b);
      ConcatValid(a[n..], b);
      DropAppend(a, b, n);
      FirstChar(a + b);
    } else {
      assert a + b == b;
    }
  }

  lemma DropAppend(a: seq<byte>, b: seq<byte>, n: nat)
    requires n <= |a|
    ensures (a + b)[n..] == a[n..] + b
  {
  }

  /** One well-formed character followed by a valid text is a valid text. */
  lemma FirstChar(c: seq<byte>)
    requires c != [] && CharLength(c) > 0 && ValidUtf8(c[CharLength(c)..])
    ensures ValidUtf8(c)
  {
  }
}
