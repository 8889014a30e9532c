/**
 * UTF-8 validation and decoding as performed by `String::from_utf8`:
 * a byte sequence is accepted exactly when it is well-formed UTF-8
 * (shortest form, no surrogates, nothing above U+10FFFF), and is then
 * decoded into its sequence of Unicode scalar values.
 * `Encode` is the partner used to state the round trip.
 */
module Utf8 {

  newtype byte = x: int | 0 <= x < 256

  datatype Option<T> = None | Some(value: T)

  predicate InRange(b: byte, lo: int, hi: int) {
    lo <= b as int <= hi
  }

  predicate IsCont(b: byte) {
    InRange(b, 0x80, 0xBF)
  }

  /** Decodes the first scalar value of `b`, giving it and the number of bytes it occupies. */
  function DecodeFirst(b: seq<byte>): (r: Option<(char, nat)>)
    requires |b| > 0
    ensures r.Some? ==> 1 <= r.value.1 <= 4 && r.value.1 <= |b|
    ensures r.Some? && r.value.1 == 1 ==> b[0] < 0x80 && r.value.0 as int == b[0] as int
  {
    var b0 := b[0] as int;
    if b0 < 0x80 then
      Some((b0 as char, 1))
    else if 0xC2 <= b0 <= 0xDF then
      if |b| >= 2 && IsCont(b[1]) then
        Some((((b0 - 0xC0) * 64 + (b[1] as int - 0x80)) as char, 2))
      else None
    else if 0xE0 <= b0 <= 0xEF then
      var lo := if b0 == 0xE0 then 0xA0 else 0x80;
      var hi := if b0 == 0xED then 0x9F else 0xBF;
      if |b| >= 3 && InRange(b[1], lo, hi) && IsCont(b[2]) then
        Some((((b0 - 0xE0) * 4096 + (b[1] as int - 0x80) * 64 + (b[2] as int - 0x80)) as char, 3))
      else None
    else if 0xF0 <= b0 <= 0xF4 then
      var lo := if b0 == 0xF0 then 0x90 else 0x80;
      var hi := if b0 == 0xF4 then 0x8F else 0xBF;
      if |b| >= 4 && InRange(b[1], lo, hi) && IsCont(b[2]) && IsCont(b[3]) then
        Some((((b0 - 0xF0) * 262144 + (b[1] as int - 0x80) * 4096
               + (b[2] as int - 0x80) * 64 + (b[3] as int - 0x80)) as char, 4))
      else None
    else
      None
  }

  /** `String::from_utf8`: `None` for malformed input, otherwise the decoded text. */
  function Decode(b: seq<byte>): (r: Option<string>)
    ensures r.Some? ==> |r.value| <= |b|
    decreases |b|
  {
    if b == [] then Some([])
    else match DecodeFirst(b)
      case None => None
      case Some(cn) =>
        match Decode(b[cn.1..])
        case None => None
        case Some(s) => Some([cn.0] + s)
  }

  function EncodeChar(c: char): (r: seq<byte>)
    ensures 1 <= |r| <= 4
  {
    var n := c as int;
    if n < 0x80 then
      [n as byte]
    else if n < 0x800 then
      [(0xC0 + n / 64) as byte, (0x80 + n % 64) as byte]
    else if n < 0x10000 then
      [(0xE0 + n / 4096) as byte, (0x80 + (n / 64) % 64) as byte, (0x80 + n % 64) as byte]
    else
      [(0xF0 + n / 262144) as byte, (0x80 + (n / 4096) % 64) as byte,
       (0x80 + (n / 64) % 64) as byte, (0x80 + n % 64) as byte]
  }

  /** The UTF-8 encoding of a string, as Rust stores a `String`. */
  function Encode(s: string): (r: seq<byte>)
    ensures |r| >= |s|
  {
    if s == [] then [] else EncodeChar(s[0]) + Encode(s[1..])
  }

  lemma DecodeFirstOfEncodeChar(c: char, rest: seq<byte>)
    ensures DecodeFirst(EncodeChar(c) + rest) == Some((c, |EncodeChar(c)|))
  {
    var n := c as int;
    if 0x80 <= n < 0x800 {
      DecodeFirstOfEncodeChar2(c, rest);
    } else if 0x800 <= n < 0x10000 {
      DecodeFirstOfEncodeChar3(c, rest);
    } else if 0x10000 <= n {
      DecodeFirstOfEncodeChar4(c, rest);
    }
  }

  lemma DecodeFirstOfEncodeChar2(c: char, rest: seq<byte>)
    requires 0x80 <= c as int < 0x800
    ensures DecodeFirst(EncodeChar(c) + rest) == Some((c, 2))
  {
    var n := c as int;
    assert n == (n / 64) * 64 + n % 64;
  }

  lemma DecodeFirstOfEncodeChar3(c: char, rest: seq<byte>)
    requires 0x800 <= c as int < 0x10000
    ensures DecodeFirst(EncodeChar(c) + rest) == Some((c, 3))
  {
    var n := c as int;
    assert n / 64 == (n / 4096) * 64 + (n / 64) % 64;
    assert n == (n / 64) * 64 + n % 64;
  }

  lemma DecodeFirstOfEncodeChar4(c: char, rest: seq<byte>)
    requires 0x10000 <= c as int
    ensures DecodeFirst(EncodeChar(c) + rest) == Some((c, 4))
  {
    var n := c as int;
    assert n / 4096 == (n / 262144) * 64 + (n / 4096) % 64;
    assert n / 64 == (n / 4096) * 64 + (n / 64) % 64;
    assert n == (n / 64) * 64 + n % 64;
  }

  /** Every string survives encoding and decoding unchanged. */
  lemma {:induction false} DecodeEncode(s: string)
    ensures Decode(Encode(s)) == Some(s)
  {
    if s != [] {
      var e := EncodeChar(s[0]);
      var b := Encode(s);
      assert b == e + Encode(s[1..]);
      DecodeFirstOfEncodeChar(s[0], Encode(s[1..]));
      assert b[|e|..] == Encode(s[1..]);
      DecodeEncode(s[1..]);
      assert [s[0]] + s[1..] == s;
    }
  }

  lemma DivMod64(q: int, r: int)
    requires 0 <= r < 64
    ensures (q * 64 + r) / 64 == q && (q * 64 + r) % 64 == r
  {
  }

  lemma EncodeCharOfDecodeFirst(b: seq<byte>)
    requires |b| > 0 && DecodeFirst(b).Some?
    ensures EncodeChar(DecodeFirst(b).value.0) == b[..DecodeFirst(b).value.1]
  {
    var k := DecodeFirst(b).value.1;
    if k == 2 {
      EncodeCharOfDecodeFirst2(b);
    } else if k == 3 {
      EncodeCharOfDecodeFirst3(b);
    } else if k == 4 {
      EncodeCharOfDecodeFirst4(b);
    }
  }

  lemma EncodeCharOfDecodeFirst2(b: seq<byte>)
    requires |b| > 0 && DecodeFirst(b).Some? && DecodeFirst(b).value.1 == 2
    ensures EncodeChar(DecodeFirst(b).value.0) == b[..2]
  {
    DivMod64(b[0] as int - 0xC0, b[1] as int - 0x80);
  }

  lemma EncodeCharOfDecodeFirst3(b: seq<byte>)
    requires |b| > 0 && DecodeFirst(b).Some? && DecodeFirst(b).value.1 == 3
    ensures EncodeChar(DecodeFirst(b).value.0) == b[..3]
  {
    var n := DecodeFirst(b).value.0 as int;
    var hi := (b[0] as int - 0xE0) * 64 + (b[1] as int - 0x80);
    assert n == hi * 64 + (b[2] as int - 0x80);
    DivMod64(hi, b[2] as int - 0x80);
    DivMod64(b[0] as int - 0xE0, b[1] as int - 0x80);
    assert n / 4096 == hi / 64;
  }

  lemma EncodeCharOfDecodeFirst4(b: seq<byte>)
    requires |b| > 0 && DecodeFirst(b).Some? && DecodeFirst(b).value.1 == 4
    ensures EncodeChar(DecodeFirst(b).value.0) == b[..4]
  {
    var n := DecodeFirst(b).value.0 as int;
    var h1 := (b[0] as int - 0xF0) * 64 + (b[1] as int - 0x80);
    var h2 := h1 * 64 + (b[2] as int - 0x80);
    assert n == h2 * 64 + (b[3] as int - 0x80);
    DivMod64(h2, b[3] as int - 0x80);
    DivMod64(h1, b[2] as int - 0x80);
    DivMod64(b[0] as int - 0xF0, b[1] as int - 0x80);
    assert n / 4096 == h2 / 64;
    assert n / 262144 == h1 / 64;
  }

  /** Decoding is canonical: whatever `Decode` accepts is exactly the encoding of what it returns. */
  lemma {:induction false} EncodeDecode(b: seq<byte>)
    requires Decode(b).Some?
    ensures Encode(Decode(b).value) == b
  {
    if b != [] {
      var c, k := DecodeFirst(b).value.0, DecodeFirst(b).value.1;
      var rest := Decode(b[k..]).value;
      var s := Decode(b).value;
      assert s == [c] + rest;
      assert s[0] == c && s[1..] == rest;
      EncodeCharOfDecodeFirst(b);
      EncodeDecode(b[k..]);
      assert Encode(s) == EncodeChar(c) + Encode(rest);
      assert b == b[..k] + b[k..];
    }
  }

  /** Bytes below 0x80 are always accepted and decode to the same code points. */
  lemma {:induction false} AsciiDecodes(b: seq<byte>)
    requires forall i :: 0 <= i < |b| ==> b[i] < 0x80
    ensures Decode(b).Some?
    ensures |Decode(b).value| == |b|
    ensures forall i :: 0 <= i < |b| ==> Decode(b).value[i] as int == b[i] as int
  {
    if b != [] {
      AsciiDecodes(b[1..]);
    }
  }

  /** A byte of 0xF5 or more can never start a well-formed sequence, so input beginning with one is rejected. */
  lemma InvalidLeadRejected(b: seq<byte>)
    requires |b| > 0 && b[0] >= 0xF5
    ensures Decode(b) == None
  {
  }
}
