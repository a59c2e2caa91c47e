/** Byte-level vocabulary of the YKOATH engine: the fixed-width integer types the
    Rust code uses, big-endian conversions, and the growable byte buffer that the
    caller lends to every command. */
module Bytes {

  type byte = x: int | 0 <= x < 0x100
  type uint16 = x: int | 0 <= x < 0x1_0000
  type uint32 = x: int | 0 <= x < 0x1_0000_0000
  type int64 = x: int | -0x8000_0000_0000_0000 <= x < 0x8000_0000_0000_0000

  const TWO_63: nat := 0x8000_0000_0000_0000
  const TWO_64: nat := 0x1_0000_0000_0000_0000

  datatype Option<+T> = None | Some(value: T)

  /** 256 to the power n: one more than the largest n-byte number. */
  function Pow256(n: nat): (p: nat)
    ensures p >= 1
  {
    if n == 0 then 1 else 256 * Pow256(n - 1)
  }

  /** The unsigned number whose big-endian base-256 digits are s
      (u32::from_be_bytes for four bytes). */
  function BeUint(s: seq<byte>): (v: nat)
    ensures v < Pow256(|s|)
  {
    if s == [] then 0 else BeUint(s[..|s| - 1]) * 256 + s[|s| - 1]
  }

  /** The low n base-256 digits of v, most significant first. */
  function BeBytes(v: nat, n: nat): (s: seq<byte>)
    ensures |s| == n
  {
    if n == 0 then [] else BeBytes(v / 256, n - 1) + [v % 256]
  }

  /** Writing a number that fits in n bytes and reading it back gives the number. */
  lemma {:induction false} BeBytesRoundTrip(v: nat, n: nat)
    requires v < Pow256(n)
    ensures BeUint(BeBytes(v, n)) == v
  {
    if n > 0 {
      BeBytesRoundTrip(v / 256, n - 1);
      var s := BeBytes(v, n);
      assert s[..n - 1] == BeBytes(v / 256, n - 1);
    }
  }

  /** Reading n bytes and writing the number back in n bytes gives the bytes. */
  lemma {:induction false} BeUintRoundTrip(s: seq<byte>)
    ensures BeBytes(BeUint(s), |s|) == s
  {
    if s != [] {
      var init := s[..|s| - 1];
      BeUintRoundTrip(init);
      var v := BeUint(s);
      assert v / 256 == BeUint(init);
      assert v % 256 == s[|s| - 1];
      assert s == init + [s[|s| - 1]];
    }
  }

  /** i64::to_be_bytes: the two's-complement form of v, eight bytes, most significant first. */
  function Int64Bytes(v: int64): (s: seq<byte>)
    ensures |s| == 8
  {
    BeBytes(if v < 0 then v + TWO_64 else v, 8)
  }

  /** i64::from_be_bytes, the inverse of Int64Bytes. */
  function Int64FromBytes(s: seq<byte>): int64
    requires |s| == 8
  {
    var u := BeUint(s);
    assert Pow256(8) == TWO_64;
    if u < TWO_63 then u else u - TWO_64
  }

  lemma Int64RoundTrip(v: int64)
    ensures Int64FromBytes(Int64Bytes(v)) == v
  {
    assert Pow256(8) == TWO_64;
    BeBytesRoundTrip(if v < 0 then v + TWO_64 else v, 8);
  }

  /** The caller's Vec<u8>: cleared, filled with a command, and then grown by the
      reply frames of one exchange. */
  class Buffer {
    var data: seq<byte>

    constructor ()
      ensures data == []
    {
      data := [];
    }

    method Clear()
      modifies this
      ensures data == []
    {
      data := [];
    }

    method Push(b: byte)
      modifies this
      ensures data == old(data) + [b]
    {
      data := data + [b];
    }

    method Extend(s: seq<byte>)
      modifies this
      ensures data == old(data) + s
    {
      data := data + s;
    }

    method Set(i: nat, b: byte)
      requires i < |data|
      modifies this
      ensures data == old(data)[i := b]
    {
      data := data[i := b];
    }

    /** Vec::pop: removes and returns the last byte, or None when empty. */
    method Pop() returns (b: Option<byte>)
      modifies this
      ensures old(data) == [] ==> b == None && data == []
      ensures old(data) != [] ==>
        b == Some(old(data)[|old(data)| - 1]) && data == old(data)[..|old(data)| - 1]
    {
      if data == [] {
        b := None;
      } else {
        b := Some(data[|data| - 1]);
        data := data[..|data| - 1];
      }
    }
  }
}
