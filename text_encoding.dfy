/** The `TextEncoder.encode` step the worker applies to every string before it
    hashes or compares it: UTF-8 (RFC 3629) of a sequence of Unicode scalar
    values. A Dafny `char` is a scalar value, so every string here is well formed. */
module TextEncoding {

  newtype Byte = x: int | 0 <= x < 256

  predicate IsAsciiChar(c: char) {
    (c as int) < 0x80
  }

  predicate IsAscii(s: string) {
    forall i :: 0 <= i < |s| ==> IsAsciiChar(s[i])
  }

  /** The one-to-four byte UTF-8 form of one code point. */
  function EncodeChar(c: char): (r: seq<Byte>)
    ensures 1 <= |r| <= 4
    ensures r[0] < 0x80 <==> IsAsciiChar(c)
    ensures IsAsciiChar(c) ==> |r| == 1 && r[0] as int == c as int
  {
    var cp := c as int;
    if cp < 0x80 then
      [cp as Byte]
    else if cp < 0x800 then
      [(0xC0 + cp / 64) as Byte, (0x80 + cp % 64) as Byte]
    else if cp < 0x10000 then
      [(0xE0 + cp / 4096) as Byte, (0x80 + (cp / 64) % 64) as Byte, (0x80 + cp % 64) as Byte]
    else
      [(0xF0 + cp / 262144) as Byte, (0x80 + (cp / 4096) % 64) as Byte,
       (0x80 + (cp / 64) % 64) as Byte, (0x80 + cp % 64) as Byte]
  }

  /** `new TextEncoder().encode(s)`. */
  function Encode(s: string): (r: seq<Byte>)
    ensures |r| >= |s|
    ensures |r| == 0 <==> |s| == 0
  {
    if |s| == 0 then [] else EncodeChar(s[0]) + Encode(s[1..])
  }

  /** An ASCII string encodes to one byte per character, byte i being character i. */
  lemma {:induction false} EncodeAscii(s: string)
    requires IsAscii(s)
    ensures |Encode(s)| == |s|
    ensures forall i :: 0 <= i < |s| ==> Encode(s)[i] as int == s[i] as int
  {
    if |s| > 0 {
      assert IsAscii(s[1..]) by {
        forall i | 0 <= i < |s[1..]| ensures IsAsciiChar(s[1..][i]) {
          assert s[1..][i] == s[i + 1];
        }
      }
      EncodeAscii(s[1..]);
      assert IsAsciiChar(s[0]);
    }
  }

  /** Equal encodings of an ASCII string and any string mean equal strings: the
      byte comparison in verifyHMAC decides string equality when one side is ASCII. */
  lemma {:induction false} EncodeInjectiveOnAscii(a: string, b: string)
    requires IsAscii(b)
    requires Encode(a) == Encode(b)
    ensures a == b
  {
    if |b| == 0 {
      assert |Encode(a)| == 0;
    } else {
      assert |Encode(a)| > 0;
      assert |a| > 0;
      var ea := EncodeChar(a[0]);
      var eb := EncodeChar(b[0]);
      assert IsAsciiChar(b[0]);
      assert Encode(b)[0] == eb[0];
      assert Encode(a)[0] == ea[0];
      assert IsAsciiChar(a[0]);
      assert a[0] as int == ea[0] as int == eb[0] as int == b[0] as int;
      assert Encode(a[1..]) == Encode(a)[1..];
      assert Encode(b[1..]) == Encode(b)[1..];
      assert IsAscii(b[1..]) by {
        forall i | 0 <= i < |b[1..]| ensures IsAsciiChar(b[1..][i]) {
          assert b[1..][i] == b[i + 1];
        }
      }
      EncodeInjectiveOnAscii(a[1..], b[1..]);
      assert a == [a[0]] + a[1..];
      assert b == [b[0]] + b[1..];
    }
  }
}
