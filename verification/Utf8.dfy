/**
 UTF-8 (RFC 3629): the outer layer of every wire message and of every text that
 is signed.
 */
module Utf8 {
  import opened Bytes

  /** The UTF-8 form of one character; only a line feed contains the byte 0x0A. */
  function EncodeChar(c: char): (r: bytes)
    ensures 1 <= |r| <= 4
    ensures NEWLINE in r ==> c == '\n'
  {
    var n := c as int;
    if n < 0x80 then [n]
    else if n < 0x800 then [0xC0 + n / 64, 0x80 + n % 64]
    else if n < 0x1_0000 then [0xE0 + n / 4096, 0x80 + n / 64 % 64, 0x80 + n % 64]
    else [0xF0 + n / 26_2144, 0x80 + n / 4096 % 64, 0x80 + n / 64 % 64, 0x80 + n % 64]
  }

  function Encode(s: string): bytes {
    if s == [] then [] else EncodeChar(s[0]) + Encode(s[1..])
  }

  predicate IsContinuation(b: byte) { 0x80 <= b < 0xC0 }

  predicate IsScalar(n: int) { 0 <= n < 0xD800 || 0xE000 <= n < 0x11_0000 }

  /** The six bits a continuation byte carries. */
  function Low(b: byte): int { b - 0x80 }

  /** The character with code `n`, if it needs at least `least` to be written in this length. */
  function Scalar(n: int, least: int, length: nat): Option<(char, nat)> {
    if n < least || !IsScalar(n) then None else Some((n as char, length))
  }

  /** The first character of `b` and how many bytes it takes. Overlong forms and surrogates are refused. */
  function DecodeChar(b: bytes): (r: Option<(char, nat)>)
    ensures r.Some? ==> 1 <= r.value.1 <= |b|
  {
    if b == [] then None
    else
      var lead: int := b[0];
      if lead < 0x80 then Scalar(lead, 0, 1)
      else if |b| < 2 || !IsContinuation(b[1]) then None
      else if 0xC0 <= lead < 0xE0 then
        Scalar((lead - 0xC0) * 64 + Low(b[1]), 0x80, 2)
      else if |b| < 3 || !IsContinuation(b[2]) then None
      else if 0xE0 <= lead < 0xF0 then
        Scalar((lead - 0xE0) * 4096 + Low(b[1]) * 64 + Low(b[2]), 0x800, 3)
      else if |b| < 4 || !IsContinuation(b[3]) then None
      else if 0xF0 <= lead < 0xF8 then
        Scalar((lead - 0xF0) * 26_2144 + Low(b[1]) * 4096 + Low(b[2]) * 64 + Low(b[3]), 0x1_0000, 4)
      else None
  }

  function Decode(b: bytes): Option<string> {
    if b == [] then Some([])
    else match DecodeChar(b)
      case None => None
      case Some((c, n)) =>
        match Decode(b[n..])
        case None => None
        case Some(rest) => Some([c] + rest)
  }

  /** The forms of section 7 of RFC 3629: one byte for ASCII, then two, three and four. */
  lemma EncodedForms()
    ensures forall c: char :: c as int < 0x80 ==> EncodeChar(c) == [c as int]
    ensures EncodeChar(0xE9 as char) == [0xC3, 0xA9] && EncodeChar(0x20AC as char) == [0xE2, 0x82, 0xAC]
    ensures EncodeChar(0x2_33B4 as char) == [0xF0, 0xA3, 0x8E, 0xB4]
  {
  }

  /** The base-64 digits of a character code put the code together again. */
  lemma Sextets(n: int)
    requires 0 <= n < 0x11_0000
    ensures n == n / 64 * 64 + n % 64
    ensures n / 64 == n / 4096 * 64 + n / 64 % 64
    ensures n / 4096 == n / 26_2144 * 64 + n / 4096 % 64
  {
  }

  /** Conversely, base-64 digits are recovered from the number they make. */
  lemma FromSextets(high: int, low: int)
    requires 0 <= high && 0 <= low < 64
    ensures (high * 64 + low) / 64 == high && (high * 64 + low) % 64 == low
  {
  }

  lemma DecodeEncodedChar(c: char, rest: bytes)
    ensures DecodeChar(EncodeChar(c) + rest) == Some((c, |EncodeChar(c)|))
  {
    var n := c as int;
    var e := EncodeChar(c);
    var b := e + rest;
    Sextets(n);
    assert b[0] == e[0];
    if 0x80 <= n {
      assert b[1] == e[1];
      if 0x800 <= n {
        assert b[2] == e[2];
        if 0x1_0000 <= n {
          assert b[3] == e[3];
        }
      }
    }
  }

  lemma EncodeDecodedThree(b: bytes)
    requires DecodeChar(b).Some? && DecodeChar(b).value.1 == 3
    ensures EncodeChar(DecodeChar(b).value.0) == b[..3]
  {
    var top := b[0] - 0xE0;
    FromSextets(top * 64 + Low(b[1]), Low(b[2]));
    FromSextets(top, Low(b[1]));
    Sextets(DecodeChar(b).value.0 as int);
  }

  lemma EncodeDecodedFour(b: bytes)
    requires DecodeChar(b).Some? && DecodeChar(b).value.1 == 4
    ensures EncodeChar(DecodeChar(b).value.0) == b[..4]
  {
    var top := b[0] - 0xF0;
    FromSextets((top * 64 + Low(b[1])) * 64 + Low(b[2]), Low(b[3]));
    FromSextets(top * 64 + Low(b[1]), Low(b[2]));
    FromSextets(top, Low(b[1]));
    Sextets(DecodeChar(b).value.0 as int);
  }

  lemma EncodeDecodedChar(b: bytes)
    requires DecodeChar(b).Some?
    ensures EncodeChar(DecodeChar(b).value.0) == b[..DecodeChar(b).value.1]
  {
    var length := DecodeChar(b).value.1;
    if length == 2 {
      FromSextets(b[0] - 0xC0, Low(b[1]));
    } else if length == 3 {
      EncodeDecodedThree(b);
    } else if length == 4 {
      EncodeDecodedFour(b);
    }
  }

  lemma {:induction false} DecodeEncoded(s: string)
    ensures Decode(Encode(s)) == Some(s)
  {
    if s != [] {
      DecodeEncodedChar(s[0], Encode(s[1..]));
      assert Encode(s)[|EncodeChar(s[0])|..] == Encode(s[1..]);
      DecodeEncoded(s[1..]);
      assert [s[0]] + s[1..] == s;
    }
  }

  lemma DecodeStep(b: bytes) returns (c: char, n: nat)
    requires b != [] && Decode(b).Some?
    ensures 1 <= n <= |b| && EncodeChar(c) == b[..n]
    ensures Decode(b[n..]).Some? && Decode(b).value == [c] + Decode(b[n..]).value
  {
    c, n := DecodeChar(b).value.0, DecodeChar(b).value.1;
    EncodeDecodedChar(b);
  }

  /** Decoding is strict: a byte string has at most one text, and that text encodes back to it. */
  lemma {:induction false} EncodeDecoded(b: bytes)
    requires Decode(b).Some?
    ensures Encode(Decode(b).value) == b
    decreases |b|
  {
    if b != [] {
      var c, n := DecodeStep(b);
      var rest := Decode(b[n..]).value;
      EncodeDecoded(b[n..]);
      assert ([c] + rest)[1..] == rest;
    }
  }

  lemma EncodeInjective(s: string, t: string)
    requires Encode(s) == Encode(t)
    ensures s == t
  {
    DecodeEncoded(s);
    DecodeEncoded(t);
  }

  lemma {:induction false} NoNewlineInEncoding(s: string)
    requires '\n' !in s
    ensures NEWLINE !in Encode(s)
  {
    if s != [] {
      NoNewlineInEncoding(s[1..]);
    }
  }
}
