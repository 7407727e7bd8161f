/** UTF-8 as Python's `str.encode('utf-8')` and strict `bytes.decode()` use
    it (RFC 3629): a Dafny `char` is a Unicode scalar value, so every string
    encodes, and decoding rejects overlong forms, surrogates and code points
    above U+10FFFF. */
module Utf8 {
  import opened Wrappers
  import opened Bytes

  predicate IsAscii(s: string) {
    forall i :: 0 <= i < |s| ==> s[i] as int < 0x80
  }

  predicate IsContinuation(b: byte) {
    0x80 <= b < 0xC0
  }

  /** The UTF-8 encoding of one scalar value: one to four bytes, and one
      byte exactly for ASCII. */
  function EncodeChar(c: char): (r: seq<byte>)
    ensures 1 <= |r| <= 4
    ensures |r| == 1 <==> c as int < 0x80
    ensures |r| == 1 ==> r[0] == c as int
    ensures forall i :: 1 <= i < |r| ==> IsContinuation(r[i])
  {
    var cp := c as int;
    if cp < 0x80 then [cp]
    else if cp < 0x800 then [0xC0 + cp / 64, 0x80 + cp % 64]
    else if cp < 0x10000 then [0xE0 + cp / 4096, 0x80 + (cp / 64) % 64, 0x80 + cp % 64]
    else [0xF0 + cp / 262144, 0x80 + (cp / 4096) % 64, 0x80 + (cp / 64) % 64, 0x80 + cp % 64]
  }

  /** `s.encode('utf-8')`: never shorter than the string, and exactly as long
      precisely when the string is ASCII. */
  function Encode(s: string): (r: seq<byte>)
    ensures |r| >= |s|
    ensures |r| == |s| <==> IsAscii(s)
  {
    if s == [] then []
    else
      var rest := Encode(s[1..]);
      assert IsAscii(s) <==> s[0] as int < 0x80 && IsAscii(s[1..]) by {
        if s[0] as int < 0x80 && IsAscii(s[1..]) {
          forall i | 0 <= i < |s| ensures s[i] as int < 0x80 {
            if i > 0 { assert s[i] == s[1..][i - 1]; }
          }
        }
      }
      EncodeChar(s[0]) + rest
  }

  /** The first scalar value of a non-empty byte string and the number of
      bytes it occupies, or None when those bytes are not well-formed UTF-8. */
  function DecodeChar(b: seq<byte>): (r: Option<(char, nat)>)
    requires b != []
    ensures r.Some? ==> 1 <= r.value.1 <= 4 && r.value.1 <= |b|
  {
    var b0 := b[0] as int;
    if b0 < 0x80 then Some((b0 as char, 1))
    else if 0xC2 <= b0 <= 0xDF then
      if |b| >= 2 && IsContinuation(b[1])
      then Some((((b0 - 0xC0) * 64 + (b[1] as int - 0x80)) as char, 2))
      else None
    else if 0xE0 <= b0 <= 0xEF then
      var lo := if b0 == 0xE0 then 0xA0 else 0x80;
      var hi := if b0 == 0xED then 0x9F else 0xBF;
      if |b| >= 3 && lo <= b[1] <= hi && IsContinuation(b[2])
      then Some((((b0 - 0xE0) * 4096 + (b[1] as int - 0x80) * 64 + (b[2] as int - 0x80)) as char, 3))
      else None
    else if 0xF0 <= b0 <= 0xF4 then
      var lo := if b0 == 0xF0 then 0x90 else 0x80;
      var hi := if b0 == 0xF4 then 0x8F else 0xBF;
      if |b| >= 4 && lo <= b[1] <= hi && IsContinuation(b[2]) && IsContinuation(b[3])
      then Some((((b0 - 0xF0) * 262144 + (b[1] as int - 0x80) * 4096 + (b[2] as int - 0x80) * 64 + (b[3] as int - 0x80)) as char, 4))
      else None
    else None
  }

  /** Strict decoding of b from offset i on: the characters, or
      UnicodeError at the first malformed sequence. */
  function DecodeFrom(b: seq<byte>, i: nat): (r: Result<string>)
    requires i <= |b|
    ensures r.Ok? ==> |r.value| <= |b| - i
    ensures r.Err? ==> r.error == UnicodeError
    decreases |b| - i
  {
    if i == |b| then Ok([])
    else
      var first := DecodeChar(b[i..]);
      if first.None? then Err(UnicodeError)
      else
        var rest := DecodeFrom(b, i + first.value.1);
        if rest.Err? then rest else Ok([first.value.0] + rest.value)
  }

  /** Strict `bytes.decode()`: fails with UnicodeError on any malformed
      sequence; never yields more characters than there are bytes. */
  function Decode(b: seq<byte>): (r: Result<string>)
    ensures r.Ok? ==> |r.value| <= |b|
    ensures r.Err? ==> r.error == UnicodeError
  {
    DecodeFrom(b, 0)
  }

  /** A character's encoding, followed by anything, decodes back to that
      character and consumes exactly its encoding. */
  lemma DecodeEncodeChar(c: char, rest: seq<byte>)
    ensures DecodeChar(EncodeChar(c) + rest) == Some((c, |EncodeChar(c)|))
  {
    var cp := c as int;
    if cp < 0x80 {
    } else if cp < 0x800 {
      DecodeEncodeTwo(c, rest);
    } else if cp < 0x10000 {
      DecodeEncodeThree(c, rest);
    } else {
      DecodeEncodeFour(c, rest);
    }
  }

  lemma DecodeEncodeTwo(c: char, rest: seq<byte>)
    requires 0x80 <= c as int < 0x800
    ensures DecodeChar(EncodeChar(c) + rest) == Some((c, 2))
  {
    var cp := c as int;
    var b := EncodeChar(c) + rest;
    assert b[0] == 0xC0 + cp / 64 && b[1] == 0x80 + cp % 64;
    assert (b[0] as int - 0xC0) * 64 + (b[1] as int - 0x80) == cp;
  }

  lemma DecodeEncodeThree(c: char, rest: seq<byte>)
    requires 0x800 <= c as int < 0x10000
    ensures DecodeChar(EncodeChar(c) + rest) == Some((c, 3))
  {
    var cp := c as int;
    var b := EncodeChar(c) + rest;
    var q := cp / 64;
    assert q / 64 == cp / 4096;
    assert b[0] == 0xE0 + cp / 4096 && b[1] == 0x80 + q % 64 && b[2] == 0x80 + cp % 64;
    assert (b[0] as int - 0xE0) * 4096 + (b[1] as int - 0x80) * 64 + (b[2] as int - 0x80) == cp;
  }

  lemma DecodeEncodeFour(c: char, rest: seq<byte>)
    requires 0x10000 <= c as int
    ensures DecodeChar(EncodeChar(c) + rest) == Some((c, 4))
  {
    var cp := c as int;
    var b := EncodeChar(c) + rest;
    var q := cp / 64;
    var q2 := q / 64;
    assert q2 == cp / 4096;
    assert q2 / 64 == cp / 262144;
    assert b[0] == 0xF0 + cp / 262144 && b[1] == 0x80 + q2 % 64 && b[2] == 0x80 + q % 64 && b[3] == 0x80 + cp % 64;
    assert (b[0] as int - 0xF0) * 262144 + (b[1] as int - 0x80) * 4096 + (b[2] as int - 0x80) * 64 + (b[3] as int - 0x80) == cp;
  }

  /** Whatever precedes it, an encoded string decodes back from where it
      starts. */
  lemma {:induction false} DecodeFromEncode(pre: seq<byte>, s: string)
    ensures DecodeFrom(pre + Encode(s), |pre|) == Ok(s)
    decreases |s|
  {
    var b := pre + Encode(s);
    if s == [] {
      assert b == pre + [];
    } else {
      var head := EncodeChar(s[0]);
      var rest := Encode(s[1..]);
      assert Encode(s) == head + rest;
      assert b[|pre|..] == head + rest;
      DecodeEncodeChar(s[0], rest);
      assert b == (pre + head) + rest;
      DecodeFromEncode(pre + head, s[1..]);
      assert [s[0]] + s[1..] == s;
    }
  }

  /** Decoding inverts encoding for every string, so a name survives the
      trip across the wire whenever its whole encoding is sent. */
  lemma DecodeEncode(s: string)
    ensures Decode(Encode(s)) == Ok(s)
  {
    DecodeFromEncode([], s);
    assert [] + Encode(s) == Encode(s);
  }

  /** The encoding of an ASCII string is its character codes, byte for byte. */
  lemma {:induction false} EncodeAscii(s: string)
    requires IsAscii(s)
    ensures |Encode(s)| == |s|
    ensures forall i :: 0 <= i < |s| ==> Encode(s)[i] == s[i] as int
  {
    if s != [] {
      assert IsAscii(s[1..]) by {
        forall i | 0 <= i < |s[1..]| ensures s[1..][i] as int < 0x80 {
          assert s[1..][i] == s[i + 1];
        }
      }
      EncodeAscii(s[1..]);
      forall i | 0 <= i < |s| ensures Encode(s)[i] == s[i] as int {
        if i > 0 { assert s[i] == s[1..][i - 1]; }
      }
    }
  }
}
