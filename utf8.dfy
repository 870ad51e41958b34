/**
 * UTF-8 as section 3 of RFC 3629 defines it: the encoding Foundation applies for
 * `String.data(using: .utf8)` and checks for `String(data:encoding: .utf8)`.
 * A Dafny `char` is a Unicode scalar value (0..0xD7FF or 0xE000..0x10FFFF).
 */
module Utf8 {
  import opened Wrappers
  import opened Primitives

  /** A continuation byte, 10xxxxxx. */
  predicate IsContinuation(b: Byte) {
    0x80 <= b < 0xC0
  }

  /** A continuation byte carrying the low six bits of `x`. */
  function Continuation(x: nat): (b: Byte)
    ensures IsContinuation(b)
  {
    0x80 + x % 64
  }

  /** The one to four bytes of a scalar value, by the table of RFC 3629 section 3. */
  function EncodeScalar(c: char): (r: Bytes)
    ensures 1 <= |r| <= 4
    ensures |r| == 1 <==> (c as int) < 0x80
  {
    var v := c as int;
    if v < 0x80 then [v]
    else if v < 0x800 then [0xC0 + v / 64, Continuation(v)]
    else if v < 0x10000 then [0xE0 + v / 4096, Continuation(v / 64), Continuation(v)]
    else [0xF0 + v / 262144, Continuation(v / 4096), Continuation(v / 64), Continuation(v)]
  }

  /** Splitting off six bits and putting them back is the identity. */
  lemma SixBits(hi: nat, lo: nat)
    requires lo < 64
    ensures (hi * 64 + lo) / 64 == hi && (hi * 64 + lo) % 64 == lo
  {
  }

  /** The value of a two-byte sequence and its bytes determine each other. */
  lemma TwoBytes(b0: int, b1: int)
    requires 0xC2 <= b0 < 0xE0 && 0x80 <= b1 < 0xC0
    ensures var v := (b0 - 0xC0) * 64 + (b1 - 0x80);
      0x80 <= v < 0x800 && 0xC0 + v / 64 == b0 && Continuation(v) == b1
  {
    SixBits(b0 - 0xC0, b1 - 0x80);
  }

  /** The value of a three-byte sequence and its bytes determine each other. */
  lemma ThreeBytes(b0: int, b1: int, b2: int)
    requires 0xE0 <= b0 < 0xF0 && 0x80 <= b1 < 0xC0 && 0x80 <= b2 < 0xC0
    ensures var v := (b0 - 0xE0) * 4096 + (b1 - 0x80) * 64 + (b2 - 0x80);
      v < 0x10000 && 0xE0 + v / 4096 == b0 && Continuation(v / 64) == b1 && Continuation(v) == b2
  {
    var v := (b0 - 0xE0) * 4096 + (b1 - 0x80) * 64 + (b2 - 0x80);
    var w := (b0 - 0xE0) * 64 + (b1 - 0x80);
    assert v == w * 64 + (b2 - 0x80);
    SixBits(w, b2 - 0x80);
    SixBits(b0 - 0xE0, b1 - 0x80);
    assert v / 4096 == (v / 64) / 64;
  }

  /** The value of a four-byte sequence and its bytes determine each other. */
  lemma FourBytes(b0: int, b1: int, b2: int, b3: int)
    requires 0xF0 <= b0 < 0xF5 && 0x80 <= b1 < 0xC0 && 0x80 <= b2 < 0xC0 && 0x80 <= b3 < 0xC0
    ensures var v := (b0 - 0xF0) * 262144 + (b1 - 0x80) * 4096 + (b2 - 0x80) * 64 + (b3 - 0x80);
      0xF0 + v / 262144 == b0 && Continuation(v / 4096) == b1 && Continuation(v / 64) == b2 && Continuation(v) == b3
  {
    var v := (b0 - 0xF0) * 262144 + (b1 - 0x80) * 4096 + (b2 - 0x80) * 64 + (b3 - 0x80);
    var w := (b0 - 0xF0) * 64 + (b1 - 0x80);
    var u := w * 64 + (b2 - 0x80);
    assert v == u * 64 + (b3 - 0x80);
    SixBits(u, b3 - 0x80);
    SixBits(w, b2 - 0x80);
    SixBits(b0 - 0xF0, b1 - 0x80);
    assert v / 4096 == (v / 64) / 64;
    assert v / 262144 == ((v / 64) / 64) / 64;
  }

  /** A scalar value is recovered from the digits its encoding splits it into. */
  lemma ScalarDigits(v: nat)
    ensures v == (v / 64) * 64 + v % 64
    ensures v / 64 == (v / 4096) * 64 + (v / 64) % 64
    ensures v / 4096 == (v / 262144) * 64 + (v / 4096) % 64
  {
    assert v / 4096 == (v / 64) / 64;
    assert v / 262144 == (v / 4096) / 64;
  }

  /** The UTF-8 bytes of a string. */
  function Encode(s: string): (r: Bytes)
    ensures |s| <= |r| <= 4 * |s|
  {
    if s == [] then [] else EncodeScalar(s[0]) + Encode(s[1..])
  }

  /**
   * The scalar value that starts `bs` and the number of bytes it takes; None when the
   * prefix is not a well-formed sequence (a stray continuation byte, a truncated
   * sequence, an overlong form, a surrogate, or a value above 0x10FFFF).
   */
  function DecodeScalar(bs: Bytes): (r: Option<(char, nat)>)
    requires |bs| > 0
    ensures r.Some? ==> 1 <= r.value.1 <= |bs| && EncodeScalar(r.value.0) == bs[..r.value.1]
  {
    var b0: int := bs[0];
    if b0 < 0x80 then
      Some((b0 as char, 1))
    else if 0xC2 <= b0 < 0xE0 then
      if |bs| >= 2 && IsContinuation(bs[1]) then
        var v := (b0 - 0xC0) * 64 + (bs[1] as int - 0x80);
        TwoBytes(b0, bs[1]);
        Some((v as char, 2))
      else None
    else if 0xE0 <= b0 < 0xF0 then
      if |bs| >= 3 && IsContinuation(bs[1]) && IsContinuation(bs[2]) then
        var v := (b0 - 0xE0) * 4096 + (bs[1] as int - 0x80) * 64 + (bs[2] as int - 0x80);
        if v < 0x800 || (0xD800 <= v < 0xE000) then None
        else
          ThreeBytes(b0, bs[1], bs[2]);
          Some((v as char, 3))
      else None
    else if 0xF0 <= b0 < 0xF5 then
      if |bs| >= 4 && IsContinuation(bs[1]) && IsContinuation(bs[2]) && IsContinuation(bs[3]) then
        var v := (b0 - 0xF0) * 262144 + (bs[1] as int - 0x80) * 4096 + (bs[2] as int - 0x80) * 64 + (bs[3] as int - 0x80);
        if v < 0x10000 || v >= 0x110000 then None
        else
          FourBytes(b0, bs[1], bs[2], bs[3]);
          Some((v as char, 4))
      else None
    else None
  }

  /** The string whose UTF-8 bytes are `bs`; None when `bs` is not well-formed UTF-8. */
  function Decode(bs: Bytes): (r: Option<string>)
    ensures r.Some? ==> Encode(r.value) == bs
    decreases |bs|
  {
    if bs == [] then Some([])
    else
      match DecodeScalar(bs)
      case None => None
      case Some((c, n)) =>
        match Decode(bs[n..])
        case None => None
        case Some(rest) =>
          assert bs == bs[..n] + bs[n..];
          Some([c] + rest)
  }

  /** Decoding the bytes of one scalar value followed by anything gives that value back. */
  lemma DecodeScalarEncode(c: char, rest: Bytes)
    ensures DecodeScalar(EncodeScalar(c) + rest) == Some((c, |EncodeScalar(c)|))
  {
    var v := c as int;
    var bs := EncodeScalar(c) + rest;
    ScalarDigits(v);
    if v < 0x80 {
    } else if v < 0x800 {
      assert bs[0] == 0xC0 + v / 64 && bs[1] == Continuation(v);
    } else if v < 0x10000 {
      assert bs[0] == 0xE0 + v / 4096 && bs[1] == Continuation(v / 64) && bs[2] == Continuation(v);
    } else {
      assert bs[0] == 0xF0 + v / 262144 && bs[1] == Continuation(v / 4096);
      assert bs[2] == Continuation(v / 64) && bs[3] == Continuation(v);
    }
  }

  /** Round trip: a string's UTF-8 bytes decode to that string. */
  lemma {:induction false} DecodeEncode(s: string)
    ensures Decode(Encode(s)) == Some(s)
  {
    if s != [] {
      var head := EncodeScalar(s[0]);
      var bs := Encode(s);
      DecodeScalarEncode(s[0], Encode(s[1..]));
      assert bs[|head|..] == Encode(s[1..]);
      DecodeEncode(s[1..]);
      assert [s[0]] + s[1..] == s;
    }
  }

  /** Distinct strings have distinct UTF-8 bytes. */
  lemma EncodeInjective(a: string, b: string)
    ensures Encode(a) == Encode(b) <==> a == b
  {
    if Encode(a) == Encode(b) {
      DecodeEncode(a);
      DecodeEncode(b);
    }
  }
}
