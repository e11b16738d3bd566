/** The credential scheme of the worker (index.js:2-22): a client's password is
    the HMAC-SHA256 of its user name under the shared secret, written in the
    unpadded base64url alphabet; verification recomputes it and compares bytes. */
module Credential {
  import opened TextEncoding
  import opened Base64

  /** HMAC-SHA256 (RFC 2104) as (key bytes, message bytes) -> digest bytes. The
      worker obtains it from `crypto.subtle.importKey` and `crypto.subtle.sign`;
      here it is a parameter the model knows nothing about. */
  type Mac = (seq<Byte>, seq<Byte>) -> seq<Byte>

  /** What `s.replace(/x/g, y)` does to a single character x. */
  function ReplaceAll(s: string, x: char, y: char): (r: string)
    ensures |r| == |s|
    ensures forall i :: 0 <= i < |s| ==> r[i] == (if s[i] == x then y else s[i])
  {
    if |s| == 0 then [] else [if s[0] == x then y else s[0]] + ReplaceAll(s[1..], x, y)
  }

  /** What `s.replace(/c+$/, '')` does: it removes the whole trailing run of c. */
  function StripTrailing(s: string, c: char): (r: string)
    ensures |r| <= |s| && r == s[..|r|]
    ensures |r| == 0 || r[|r| - 1] != c
    ensures forall i :: |r| <= i < |s| ==> s[i] == c
  {
    if |s| > 0 && s[|s| - 1] == c then StripTrailing(s[..|s| - 1], c) else s
  }

  /** The character substitution of the replace chain on index.js:14. */
  function Translate(c: char): char {
    if c == '+' then '-' else if c == '/' then '_' else c
  }

  /** The replace chain on index.js:14: `+` becomes `-`, `/` becomes `_`, and the
      trailing run of `=` is removed. For any input string: no `+` or `/` is left,
      the result does not end in `=`, the characters that remain keep their
      positions (translated), and what was cut is exactly the trailing `=` run. */
  function UrlSafe(s: string): (r: string)
    ensures '+' !in r && '/' !in r
    ensures |r| == 0 || r[|r| - 1] != '='
    ensures |r| <= |s|
    ensures forall i :: 0 <= i < |r| ==> r[i] == Translate(s[i])
    ensures forall i :: |r| <= i < |s| ==> s[i] == '='
    ensures |r| > 0 ==> s[|r| - 1] != '='
  {
    StripTrailing(ReplaceAll(ReplaceAll(s, '+', '-'), '/', '_'), '=')
  }

  /** Stripping a trailing run of c from x + p, where p is all c and x holds no c,
      gives back x. */
  lemma {:induction false} StripPadding(x: string, p: string, c: char)
    requires c !in x
    requires forall i :: 0 <= i < |p| ==> p[i] == c
    ensures StripTrailing(x + p, c) == x
  {
    if |p| == 0 {
      assert x + p == x;
      if |x| > 0 {
        assert x[|x| - 1] in x;
      }
    } else {
      var q := p[..|p| - 1];
      assert (x + p)[..|x + p| - 1] == x + q;
      StripPadding(x, q, c);
    }
  }

  /** Table 1 and Table 2 of RFC 4648 differ only by the substitution of index.js:14. */
  lemma DigitTranslate(v: int)
    requires 0 <= v < 64
    ensures Digit(Url, v) == Translate(Digit(Standard, v))
  {
  }

  /** Translating the standard units character by character gives the base64url units. */
  lemma {:induction false} UnitsTranslate(b: seq<Byte>)
    ensures |Units(Url, b)| == |Units(Standard, b)|
    ensures forall i :: 0 <= i < |Units(Url, b)| ==> Units(Url, b)[i] == Translate(Units(Standard, b)[i])
  {
    var u := Units(Url, b);
    var s := Units(Standard, b);
    if |b| == 0 {
    } else if |b| <= 2 {
      var vs := if |b| == 1 then [b[0] as int / 4, (b[0] as int % 4) * 16]
                else [b[0] as int / 4, (b[0] as int % 4) * 16 + b[1] as int / 16, (b[1] as int % 16) * 4];
      forall i | 0 <= i < |u| ensures u[i] == Translate(s[i]) {
        DigitTranslate(vs[i]);
      }
    } else {
      var vs := [b[0] as int / 4, (b[0] as int % 4) * 16 + b[1] as int / 16,
                 (b[1] as int % 16) * 4 + b[2] as int / 64, b[2] as int % 64];
      UnitsTranslate(b[3..]);
      forall i | 0 <= i < |u| ensures u[i] == Translate(s[i]) {
        if i < 4 {
          DigitTranslate(vs[i]);
        } else {
          assert u[i] == Units(Url, b[3..])[i - 4];
          assert s[i] == Units(Standard, b[3..])[i - 4];
        }
      }
    }
  }

  /** The replace chain turns padded standard base 64 into unpadded base64url:
      what index.js:14 computes is the encoding of section 5 of RFC 4648 without
      padding, `toBase64({alphabet: "base64url", omitPadding: true})`. */
  lemma {:induction false} UrlSafeIsBase64Url(b: seq<Byte>)
    ensures UrlSafe(ToBase64(b, Standard, false)) == ToBase64(b, Url, true)
  {
    var s := Units(Standard, b);
    var u := Units(Url, b);
    var p := Pad(PadCount(|b|));
    UnitsTranslate(b);
    UnitsShape(Url, b);
    var t := ReplaceAll(ReplaceAll(s + p, '+', '-'), '/', '_');
    assert t == u + p by {
      assert |t| == |u + p|;
      forall i | 0 <= i < |t| ensures t[i] == (u + p)[i] {
        if i < |s| {
          assert (s + p)[i] == s[i];
        } else {
          assert (s + p)[i] == p[i - |s|] == '=';
        }
      }
    }
    StripPadding(u, p, '=');
  }

  /** The digest the worker signs: HMAC-SHA256 keyed with the UTF-8 of the secret
      over the UTF-8 of the message (index.js:3-13). */
  function Digest(mac: Mac, message: string, secret: string): seq<Byte> {
    mac(Encode(secret), Encode(message))
  }

  /** `generateHMAC(message, secret)` (index.js:2-15): the credential is the
      unpadded base64url encoding of the digest, all ASCII, ceiling(4n/3)
      characters for an n-byte digest (43 for the 32 bytes of HMAC-SHA256). */
  function GenerateHmac(mac: Mac, message: string, secret: string): (r: string)
    ensures r == ToBase64(Digest(mac, message, secret), Url, true)
    ensures IsAscii(r) && '=' !in r
    ensures |r| == (4 * |Digest(mac, message, secret)| + 2) / 3
    ensures |Encode(r)| == |r|
  {
    var d := Digest(mac, message, secret);
    UrlSafeIsBase64Url(d);
    UnitsShape(Url, d);
    EncodeAscii(ToBase64(d, Url, true));
    UrlSafe(ToBase64(d, Standard, false))
  }

  /** Bitwise exclusive or of two naturals. */
  function Xor(x: nat, y: nat): nat
    decreases x + y
  {
    if x == 0 && y == 0 then 0 else 2 * Xor(x / 2, y / 2) + (x + y) % 2
  }

  /** Bitwise inclusive or of two naturals. */
  function Or(x: nat, y: nat): nat
    decreases x + y
  {
    if x == 0 && y == 0 then 0 else 2 * Or(x / 2, y / 2) + (if x % 2 == 1 || y % 2 == 1 then 1 else 0)
  }

  lemma {:induction false} XorZero(x: nat, y: nat)
    ensures Xor(x, y) == 0 <==> x == y
    decreases x + y
  {
    if !(x == 0 && y == 0) {
      XorZero(x / 2, y / 2);
    }
  }

  lemma {:induction false} OrZero(x: nat, y: nat)
    ensures Or(x, y) == 0 <==> x == 0 && y == 0
    decreases x + y
  {
    if !(x == 0 && y == 0) {
      OrZero(x / 2, y / 2);
    }
  }

  /** The accumulator of a constant-time comparison: the or of the exclusive ors
      of every pair of bytes, computed over the whole input whatever it holds. */
  function Difference(a: seq<Byte>, b: seq<Byte>): nat
    requires |a| == |b|
  {
    if |a| == 0 then 0 else Or(Xor(a[0] as nat, b[0] as nat), Difference(a[1..], b[1..]))
  }

  lemma {:induction false} DifferenceZero(a: seq<Byte>, b: seq<Byte>)
    requires |a| == |b|
    ensures Difference(a, b) == 0 <==> a == b
  {
    if |a| > 0 {
      DifferenceZero(a[1..], b[1..]);
      OrZero(Xor(a[0] as nat, b[0] as nat), Difference(a[1..], b[1..]));
      XorZero(a[0] as nat, b[0] as nat);
      assert a == [a[0]] + a[1..];
      assert b == [b[0]] + b[1..];
    }
  }

  /** `crypto.subtle.timingSafeEqual(a, b)`: it throws unless the lengths agree,
      and otherwise answers whether the byte sequences are equal. */
  function TimingSafeEqual(a: seq<Byte>, b: seq<Byte>): (r: bool)
    requires |a| == |b|
    ensures r <==> a == b
  {
    DifferenceZero(a, b);
    Difference(a, b) == 0
  }

  /** `verifyHMAC(message, signature, secret)` (index.js:17-22): a claim whose
      UTF-8 length differs from the expected credential's is refused, and
      otherwise the claim is accepted exactly when it is the credential that
      generateHMAC issues for the message. */
  function VerifyHmac(mac: Mac, message: string, signature: string, secret: string): (r: bool)
    ensures |Encode(signature)| != |GenerateHmac(mac, message, secret)| ==> !r
    ensures r <==> signature == GenerateHmac(mac, message, secret)
  {
    var expected := GenerateHmac(mac, message, secret);
    var a := Encode(signature);
    var b := Encode(expected);
    if |a| == |b| && TimingSafeEqual(a, b) then
      EncodeInjectiveOnAscii(signature, expected);
      true
    else
      false
  }

  /** The password issued for a message is always accepted for it. */
  lemma VerifyIssued(mac: Mac, message: string, secret: string)
    ensures VerifyHmac(mac, message, GenerateHmac(mac, message, secret), secret)
  {
  }
}
