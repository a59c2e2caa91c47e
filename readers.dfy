/** Reader selection in YubiKey::connect_with: the first PC/SC reader whose name,
    lowercased as ASCII, contains "yubico yubikey". */
module Readers {
  import opened Bytes
  import opened Errors

  /** "yubico yubikey" */
  const READER_NAME: seq<byte> :=
    [0x79, 0x75, 0x62, 0x69, 0x63, 0x6F, 0x20, 0x79, 0x75, 0x62, 0x69, 0x6B, 0x65, 0x79]

  /** u8::to_ascii_lowercase: 'A'..'Z' become 'a'..'z', every other byte stays. */
  function LowerByte(b: byte): byte {
    if 0x41 <= b <= 0x5A then b + 0x20 else b
  }

  /** <[u8]>::to_ascii_lowercase. */
  function ToAsciiLowercase(s: seq<byte>): (r: seq<byte>)
    ensures |r| == |s|
    ensures forall i | 0 <= i < |s| :: r[i] == LowerByte(s[i])
  {
    if s == [] then [] else [LowerByte(s[0])] + ToAsciiLowercase(s[1..])
  }

  /** `s.windows(|w|).any(|window| window == w)` for a non-empty w: some run of
      |w| consecutive bytes of s equals w. */
  predicate HasWindow(s: seq<byte>, w: seq<byte>)
    decreases |s|
  {
    |s| >= |w| && (s[..|w|] == w || HasWindow(s[1..], w))
  }

  /** w occurs in s at offset i. */
  predicate WindowAt(s: seq<byte>, w: seq<byte>, i: nat) {
    i + |w| <= |s| && s[i..i + |w|] == w
  }

  /** HasWindow is exactly "w occurs in s at some offset". */
  lemma {:induction false} HasWindowAt(s: seq<byte>, w: seq<byte>)
    ensures HasWindow(s, w) <==> exists i: nat :: WindowAt(s, w, i)
    decreases |s|
  {
    if |s| >= |w| && s[..|w|] != w {
      HasWindowAt(s[1..], w);
      if HasWindow(s[1..], w) {
        var i: nat :| WindowAt(s[1..], w, i);
        assert s[1..][i..i + |w|] == s[i + 1..i + 1 + |w|];
        assert WindowAt(s, w, i + 1);
      }
      if exists i: nat :: WindowAt(s, w, i) {
        var i: nat :| WindowAt(s, w, i);
        assert i != 0;
        assert s[1..][i - 1..i - 1 + |w|] == s[i..i + |w|];
        assert WindowAt(s[1..], w, i - 1);
      }
    } else if |s| >= |w| {
      assert WindowAt(s, w, 0);
    } else {
      assert forall i: nat :: !WindowAt(s, w, i);
    }
  }

  /** The predicate of the `find`. */
  predicate IsYubiKeyReader(name: seq<byte>) {
    HasWindow(ToAsciiLowercase(name), READER_NAME)
  }

  /** The `find(...).ok_or(Error::NoDevice)` over the reader names: the first name
      that matches, or NoDevice when none does. */
  function FindReader(readers: seq<seq<byte>>): (r: Result<seq<byte>>)
    ensures r.Err? <==> forall i | 0 <= i < |readers| :: !IsYubiKeyReader(readers[i])
    ensures r.Err? ==> r.error == NoDevice
    ensures r.Ok? ==> exists i | 0 <= i < |readers| ::
      readers[i] == r.value && IsYubiKeyReader(readers[i]) &&
      forall j | 0 <= j < i :: !IsYubiKeyReader(readers[j])
  {
    if readers == [] then Err(NoDevice)
    else if IsYubiKeyReader(readers[0]) then Ok(readers[0])
    else
      var r := FindReader(readers[1..]);
      if r.Ok? then
        assert exists i | 0 <= i < |readers| - 1 ::
          readers[1..][i] == r.value && IsYubiKeyReader(readers[1..][i]) &&
          forall j | 0 <= j < i :: !IsYubiKeyReader(readers[1..][j]);
        var i :| 0 <= i < |readers| - 1 &&
          readers[1..][i] == r.value && IsYubiKeyReader(readers[1..][i]) &&
          forall j | 0 <= j < i :: !IsYubiKeyReader(readers[1..][j]);
        assert forall j | 0 <= j < i + 1 :: !IsYubiKeyReader(readers[j]) by {
          forall j | 0 <= j < i + 1 ensures !IsYubiKeyReader(readers[j]) {
            if j > 0 { assert readers[j] == readers[1..][j - 1]; }
          }
        }
        r
      else
        assert forall i | 0 <= i < |readers| :: !IsYubiKeyReader(readers[i]) by {
          forall i | 0 <= i < |readers| ensures !IsYubiKeyReader(readers[i]) {
            if i > 0 { assert readers[i] == readers[1..][i - 1]; }
          }
        }
        r
  }

  /** The match ignores ASCII case: a name matches exactly when its lowercase form
      does. */
  lemma {:induction false} MatchIgnoresCase(name: seq<byte>)
    ensures IsYubiKeyReader(name) == IsYubiKeyReader(ToAsciiLowercase(name))
  {
    var l := ToAsciiLowercase(name);
    assert ToAsciiLowercase(l) == l by {
      forall i | 0 <= i < |l| ensures ToAsciiLowercase(l)[i] == l[i] {
      }
    }
  }

  /** A name that contains "yubico yubikey" in any mix of cases, anywhere, is a
      YubiKey reader. */
  lemma ContainsMatches(before: seq<byte>, middle: seq<byte>, after: seq<byte>)
    requires ToAsciiLowercase(middle) == READER_NAME
    ensures IsYubiKeyReader(before + middle + after)
  {
    var name := before + middle + after;
    var l := ToAsciiLowercase(name);
    var k := |before|;
    assert l[k..k + |READER_NAME|] == READER_NAME by {
      forall i | 0 <= i < |READER_NAME| ensures l[k + i] == READER_NAME[i] {
        assert name[k + i] == middle[i];
      }
    }
    assert WindowAt(l, READER_NAME, k);
    HasWindowAt(l, READER_NAME);
  }

  /** FindReader picks the first match: the reader at k when it matches and none
      before it does. */
  lemma {:induction false} FindReaderFirst(readers: seq<seq<byte>>, k: nat)
    requires k < |readers| && IsYubiKeyReader(readers[k])
    requires forall j | 0 <= j < k :: !IsYubiKeyReader(readers[j])
    ensures FindReader(readers) == Ok(readers[k])
  {
    if k > 0 {
      assert readers[1..][k - 1] == readers[k];
      forall j | 0 <= j < k - 1 ensures !IsYubiKeyReader(readers[1..][j]) {
        assert readers[1..][j] == readers[j + 1];
      }
      FindReaderFirst(readers[1..], k - 1);
    }
  }
}
