/** `Uint8Array.prototype.toBase64`, the built-in that turns the HMAC digest into
    text: the base 64 encoding of section 4 of RFC 4648 ("base64" alphabet) or of
    its section 5 ("base64url" alphabet), with or without `=` padding. */
module Base64 {
  import opened TextEncoding

  /** The two alphabets `toBase64` accepts through its `alphabet` option. */
  datatype Alphabet = Standard | Url

  /** Table 1 (Standard) and Table 2 (Url) of RFC 4648: the two alphabets
      agree everywhere except on the values 62 and 63. */
  function Digit(a: Alphabet, v: int): (c: char)
    requires 0 <= v < 64
    ensures IsAsciiChar(c) && c != '='
    ensures v < 62 ==> ('A' <= c <= 'Z' || 'a' <= c <= 'z' || '0' <= c <= '9')
  {
    if v < 26 then ('A' as int + v) as char
    else if v < 52 then ('a' as int + v - 26) as char
    else if v < 62 then ('0' as int + v - 52) as char
    else if v == 62 then (if a == Standard then '+' else '-')
    else (if a == Standard then '/' else '_')
  }

  /** The characters of an alphabet: what a decoder for it accepts. */
  predicate IsDigitOf(a: Alphabet, c: char) {
    exists v :: 0 <= v < 64 && Digit(a, v) == c
  }

  /** The encoding without its padding: four characters per three bytes, and
      two or three characters for a final group of one or two bytes. */
  function Units(a: Alphabet, b: seq<Byte>): string
    decreases |b|
  {
    if |b| == 0 then []
    else if |b| == 1 then
      [Digit(a, b[0] as int / 4), Digit(a, (b[0] as int % 4) * 16)]
    else if |b| == 2 then
      [Digit(a, b[0] as int / 4), Digit(a, (b[0] as int % 4) * 16 + b[1] as int / 16),
       Digit(a, (b[1] as int % 16) * 4)]
    else
      [Digit(a, b[0] as int / 4), Digit(a, (b[0] as int % 4) * 16 + b[1] as int / 16),
       Digit(a, (b[1] as int % 16) * 4 + b[2] as int / 64), Digit(a, b[2] as int % 64)]
      + Units(a, b[3..])
  }

  /** How many `=` complete the last four-character group of an n-byte input. */
  function PadCount(n: nat): (k: nat)
    ensures k <= 2
    ensures (n + k) % 3 == 0
  {
    (3 - n % 3) % 3
  }

  function Pad(k: nat): (p: string)
    ensures |p| == k
    ensures forall i :: 0 <= i < k ==> p[i] == '='
  {
    if k == 0 then [] else Pad(k - 1) + ['=']
  }

  /** `bytes.toBase64({alphabet, omitPadding})`; the worker calls it with the
      defaults, alphabet "base64" and padding kept. */
  function ToBase64(b: seq<Byte>, a: Alphabet, omitPadding: bool): string
  {
    Units(a, b) + (if omitPadding then [] else Pad(PadCount(|b|)))
  }

  /** Every unit is a character of the chosen alphabet (so ASCII and never `=`),
      and n bytes give the ceiling of 4n/3 characters. */
  lemma {:induction false} UnitsShape(a: Alphabet, b: seq<Byte>)
    ensures |Units(a, b)| == (4 * |b| + 2) / 3
    ensures forall i :: 0 <= i < |Units(a, b)| ==> IsDigitOf(a, Units(a, b)[i])
    ensures IsAscii(Units(a, b))
    ensures '=' !in Units(a, b)
  {
    var u := Units(a, b);
    if |b| == 0 {
    } else if |b| <= 2 {
      var vs := if |b| == 1 then [b[0] as int / 4, (b[0] as int % 4) * 16]
                else [b[0] as int / 4, (b[0] as int % 4) * 16 + b[1] as int / 16, (b[1] as int % 16) * 4];
      assert |u| == |vs|;
      forall i | 0 <= i < |u| ensures IsDigitOf(a, u[i]) && IsAsciiChar(u[i]) && u[i] != '=' {
        assert 0 <= vs[i] < 64 && u[i] == Digit(a, vs[i]);
      }
    } else {
      var vs := [b[0] as int / 4, (b[0] as int % 4) * 16 + b[1] as int / 16,
                 (b[1] as int % 16) * 4 + b[2] as int / 64, b[2] as int % 64];
      var rest := Units(a, b[3..]);
      UnitsShape(a, b[3..]);
      assert u == [Digit(a, vs[0]), Digit(a, vs[1]), Digit(a, vs[2]), Digit(a, vs[3])] + rest;
      forall i | 0 <= i < |u| ensures IsDigitOf(a, u[i]) && IsAsciiChar(u[i]) && u[i] != '=' {
        if i < 4 {
          assert 0 <= vs[i] < 64 && u[i] == Digit(a, vs[i]);
        } else {
          assert u[i] == rest[i - 4];
        }
      }
    }
  }

  /** The data characters and the padding of n bytes fill whole four-character groups. */
  lemma PaddedLength(n: nat)
    ensures (4 * n + 2) / 3 + PadCount(n) == 4 * ((n + 2) / 3)
  {
    var q, r := n / 3, n % 3;
    assert n == 3 * q + r;
    if r == 0 {
      assert (4 * n + 2) / 3 == 4 * q && (n + 2) / 3 == q;
    } else if r == 1 {
      assert (4 * n + 2) / 3 == 4 * q + 2 && (n + 2) / 3 == q + 1;
    } else {
      assert (4 * n + 2) / 3 == 4 * q + 3 && (n + 2) / 3 == q + 1;
    }
  }

  /** With padding, n bytes give 4 * ceiling(n / 3) characters; the padded output
      ends in exactly PadCount(n) `=` and holds no other `=`. */
  lemma PaddedShape(b: seq<Byte>)
    ensures |ToBase64(b, Standard, false)| == 4 * ((|b| + 2) / 3)
    ensures |ToBase64(b, Standard, false)| % 4 == 0
    ensures forall i :: 0 <= i < |ToBase64(b, Standard, false)| ==>
              (ToBase64(b, Standard, false)[i] == '=' <==> i >= |Units(Standard, b)|)
  {
    var u := Units(Standard, b);
    var p := Pad(PadCount(|b|));
    var s := ToBase64(b, Standard, false);
    assert s == u + p;
    assert |u| == (4 * |b| + 2) / 3 && '=' !in u by {
      UnitsShape(Standard, b);
    }
    PaddedLength(|b|);
    var m := (|b| + 2) / 3;
    assert |s| == 4 * m;
    assert (4 * m) % 4 == 0;
    forall i | 0 <= i < |s| ensures s[i] == '=' <==> i >= |u| {
      if i < |u| {
        assert s[i] == u[i] && u[i] in u;
      } else {
        assert s[i] == p[i - |u|];
      }
    }
  }

}
