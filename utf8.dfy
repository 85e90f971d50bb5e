/**
 * UTF-8 as Python's `str.encode('utf-8')` and strict `bytes.decode('utf-8')` do it
 * (the 1- to 4-byte forms of RFC 3629; overlong forms, encoded surrogates and code
 * points above U+10FFFF are rejected by the decoder).
 */
module Utf8 {
  import opened Wrappers

  type Byte = b: int | 0 <= b < 256
  type Bytes = seq<Byte>

  predicate IsContinuation(b: Byte) { 0x80 <= b < 0xC0 }

  /** The bytes of one Unicode scalar value. */
  function EncodeChar(c: char): (bs: Bytes)
    ensures 1 <= |bs| <= 4
    ensures |bs| == 1 <==> (c as int) < 0x80
    ensures forall i :: 1 <= i < |bs| ==> IsContinuation(bs[i])
  {
    var n := c as int;
    if n < 0x80 then [n]
    else if n < 0x800 then [0xC0 + n / 64, 0x80 + n % 64]
    else if n < 0x10000 then [0xE0 + n / 4096, 0x80 + (n / 64) % 64, 0x80 + n % 64]
    else [0xF0 + n / 262144, 0x80 + (n / 4096) % 64, 0x80 + (n / 64) % 64, 0x80 + n % 64]
  }

  /** `s.encode('utf-8')`. */
  function Encode(s: string): (bs: Bytes)
    ensures |s| <= |bs| <= 4 * |s|
  {
    if s == [] then [] else EncodeChar(s[0]) + Encode(s[1..])
  }

  /** A code point that Dafny's `char` (a Unicode scalar value) can hold. */
  predicate IsScalar(n: int) { 0 <= n < 0xD800 || 0xE000 <= n < 0x110000 }

  /**
   * Decodes the character at the head of `bs`: the character and the number of
   * bytes it takes, or None when the head is not a well-formed sequence.
   */
  function DecodeFirst(bs: Bytes): (r: Option<(char, nat)>)
    requires |bs| > 0
    ensures r.Some? ==> 1 <= r.value.1 <= |bs| && bs[..r.value.1] == EncodeChar(r.value.0)
  {
    var b0 := bs[0];
    if b0 < 0x80 then
      Some((b0 as char, 1))
    else if 0xC2 <= b0 < 0xE0 then
      if |bs| < 2 || !IsContinuation(bs[1]) then None
      else
        var n := (b0 as int - 0xC0) * 64 + (bs[1] as int - 0x80);
        Decoded2(b0, bs[1]);
        Some((n as char, 2))
    else if 0xE0 <= b0 < 0xF0 then
      if |bs| < 3 || !IsContinuation(bs[1]) || !IsContinuation(bs[2]) then None
      else
        var n := (b0 as int - 0xE0) * 4096 + (bs[1] as int - 0x80) * 64 + (bs[2] as int - 0x80);
        if n < 0x800 || !IsScalar(n) then None
        else
          Decoded3(b0, bs[1], bs[2]);
          Some((n as char, 3))
    else if 0xF0 <= b0 < 0xF5 then
      if |bs| < 4 || !IsContinuation(bs[1]) || !IsContinuation(bs[2]) || !IsContinuation(bs[3]) then None
      else
        var n := (b0 as int - 0xF0) * 262144 + (bs[1] as int - 0x80) * 4096 + (bs[2] as int - 0x80) * 64 + (bs[3] as int - 0x80);
        if n < 0x10000 || 0x110000 <= n then None
        else
          Decoded4(b0, bs[1], bs[2], bs[3]);
          Some((n as char, 4))
    else
      None
  }

  /** `bs.decode('utf-8')`: the text, or None where Python raises UnicodeDecodeError. */
  function Decode(bs: Bytes): (r: Option<string>)
    decreases |bs|
  {
    if bs == [] then Some("")
    else
      match DecodeFirst(bs)
      case None => None
      case Some((c, k)) =>
        match Decode(bs[k..])
        case None => None
        case Some(rest) => Some([c] + rest)
  }

  // Arithmetic facts behind DecodeFirst: re-encoding the decoded code point gives back
  // the bytes it was decoded from.

  lemma Decoded2(b0: Byte, b1: Byte)
    requires 0xC2 <= b0 < 0xE0 && IsContinuation(b1)
    ensures var n := (b0 as int - 0xC0) * 64 + (b1 as int - 0x80);
            0x80 <= n < 0x800 && IsScalar(n) && EncodeChar(n as char) == [b0, b1]
  {
    var n := (b0 as int - 0xC0) * 64 + (b1 as int - 0x80);
    assert n / 64 == b0 - 0xC0 && n % 64 == b1 - 0x80;
  }

  lemma Decoded3(b0: Byte, b1: Byte, b2: Byte)
    requires 0xE0 <= b0 < 0xF0 && IsContinuation(b1) && IsContinuation(b2)
    requires var n := (b0 as int - 0xE0) * 4096 + (b1 as int - 0x80) * 64 + (b2 as int - 0x80);
             0x800 <= n && IsScalar(n)
    ensures var n := (b0 as int - 0xE0) * 4096 + (b1 as int - 0x80) * 64 + (b2 as int - 0x80);
            EncodeChar(n as char) == [b0, b1, b2]
  {
    var n := (b0 as int - 0xE0) * 4096 + (b1 as int - 0x80) * 64 + (b2 as int - 0x80);
    var m := (b0 as int - 0xE0) * 64 + (b1 as int - 0x80);
    assert n == m * 64 + (b2 as int - 0x80);
    assert n / 64 == m && n % 64 == b2 - 0x80;
    assert m / 64 == b0 - 0xE0 && m % 64 == b1 - 0x80;
    assert n / 4096 == m / 64;
  }

  lemma Decoded4(b0: Byte, b1: Byte, b2: Byte, b3: Byte)
    requires 0xF0 <= b0 < 0xF5 && IsContinuation(b1) && IsContinuation(b2) && IsContinuation(b3)
    requires var n := (b0 as int - 0xF0) * 262144 + (b1 as int - 0x80) * 4096 + (b2 as int - 0x80) * 64 + (b3 as int - 0x80);
             0x10000 <= n < 0x110000
    ensures var n := (b0 as int - 0xF0) * 262144 + (b1 as int - 0x80) * 4096 + (b2 as int - 0x80) * 64 + (b3 as int - 0x80);
            EncodeChar(n as char) == [b0, b1, b2, b3]
  {
    var n := (b0 as int - 0xF0) * 262144 + (b1 as int - 0x80) * 4096 + (b2 as int - 0x80) * 64 + (b3 as int - 0x80);
    var m2 := (b0 as int - 0xF0) * 64 + (b1 as int - 0x80);
    var m1 := m2 * 64 + (b2 as int - 0x80);
    assert n == m1 * 64 + (b3 as int - 0x80);
    assert n / 64 == m1 && n % 64 == b3 - 0x80;
    assert m1 / 64 == m2 && m1 % 64 == b2 - 0x80;
    assert m2 / 64 == b0 - 0xF0 && m2 % 64 == b1 - 0x80;
    assert n / 4096 == m1 / 64;
    assert n / 262144 == m2 / 64;
  }

  /** Decoding the head of an encoded character followed by anything yields that character. */
  lemma DecodeFirstOfEncoded(c: char, rest: Bytes)
    ensures DecodeFirst(EncodeChar(c) + rest) == Some((c, |EncodeChar(c)|))
  {
    var e := EncodeChar(c);
    assert (e + rest)[..|e|] == e;
    var n := c as int;
    if n < 0x80 {
    } else if n < 0x800 {
      Encoded2(n, e + rest);
    } else if n < 0x10000 {
      Encoded3(n, e + rest);
    } else {
      Encoded4(n, e + rest);
    }
  }

  lemma Encoded2(n: int, bs: Bytes)
    requires 0x80 <= n < 0x800 && |bs| >= 2
    requires bs[0] == 0xC0 + n / 64 && bs[1] == 0x80 + n % 64
    ensures 0xC2 <= bs[0] < 0xE0 && IsContinuation(bs[1])
    ensures (bs[0] as int - 0xC0) * 64 + (bs[1] as int - 0x80) == n
  {
  }

  lemma Encoded3(n: int, bs: Bytes)
    requires 0x800 <= n < 0x10000 && IsScalar(n) && |bs| >= 3
    requires bs[0] == 0xE0 + n / 4096 && bs[1] == 0x80 + (n / 64) % 64 && bs[2] == 0x80 + n % 64
    ensures 0xE0 <= bs[0] < 0xF0 && IsContinuation(bs[1]) && IsContinuation(bs[2])
    ensures (bs[0] as int - 0xE0) * 4096 + (bs[1] as int - 0x80) * 64 + (bs[2] as int - 0x80) == n
  {
    var m := n / 64;
    assert n == m * 64 + n % 64;
    assert m == (m / 64) * 64 + m % 64;
    assert n / 4096 == m / 64;
  }

  lemma Encoded4(n: int, bs: Bytes)
    requires 0x10000 <= n < 0x110000 && |bs| >= 4
    requires bs[0] == 0xF0 + n / 262144 && bs[1] == 0x80 + (n / 4096) % 64
    requires bs[2] == 0x80 + (n / 64) % 64 && bs[3] == 0x80 + n % 64
    ensures 0xF0 <= bs[0] < 0xF5 && IsContinuation(bs[1]) && IsContinuation(bs[2]) && IsContinuation(bs[3])
    ensures (bs[0] as int - 0xF0) * 262144 + (bs[1] as int - 0x80) * 4096 + (bs[2] as int - 0x80) * 64 + (bs[3] as int - 0x80) == n
  {
    var m1 := n / 64;
    var m2 := m1 / 64;
    assert n == m1 * 64 + n % 64;
    assert m1 == m2 * 64 + m1 % 64;
    assert m2 == (m2 / 64) * 64 + m2 % 64;
    assert n / 4096 == m2;
    assert n / 262144 == m2 / 64;
  }

  /** Decoding what was encoded gives the text back: encoding never loses information. */
  lemma {:induction false} DecodeEncode(s: string)
    ensures Decode(Encode(s)) == Some(s)
  {
    if s != [] {
      var e := EncodeChar(s[0]);
      DecodeFirstOfEncoded(s[0], Encode(s[1..]));
      assert (e + Encode(s[1..]))[|e|..] == Encode(s[1..]);
      DecodeEncode(s[1..]);
      assert [s[0]] + s[1..] == s;
    }
  }

  /** The decoder accepts only canonical encodings: whatever decodes re-encodes to the same bytes. */
  lemma {:induction false} EncodeDecode(bs: Bytes)
    ensures Decode(bs).Some? ==> Encode(Decode(bs).value) == bs
  {
    if bs != [] && Decode(bs).Some? {
      var ck := DecodeFirst(bs).value;
      EncodeDecode(bs[ck.1..]);
      var s := Decode(bs).value;
      assert s[0] == ck.0 && s[1..] == Decode(bs[ck.1..]).value;
      assert bs == bs[..ck.1] + bs[ck.1..];
    }
  }

  /** ASCII text encodes to its character codes, one byte per character. */
  lemma {:induction false} EncodeAscii(s: string, bs: Bytes)
    requires |s| == |bs|
    requires forall i :: 0 <= i < |s| ==> (s[i] as int) < 0x80 && s[i] as int == bs[i]
    ensures Encode(s) == bs
  {
    if s != [] {
      EncodeAscii(s[1..], bs[1..]);
      assert bs == [bs[0]] + bs[1..];
    }
  }

  /** Encoding is injective: distinct texts never share bytes. */
  lemma EncodeInjective(s: string, t: string)
    requires Encode(s) == Encode(t)
    ensures s == t
  {
    DecodeEncode(s);
    DecodeEncode(t);
  }
}
