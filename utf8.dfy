/**
 * The strict UTF-8 codec that Python applies in `bytes.decode()` and `str.encode()`
 * (errors='strict'): overlong forms, surrogates and values above U+10FFFF are rejected.
 */
module Utf8 {
  import opened Base

  predicate IsContinuation(b: byte) { 0x80 <= b < 0xC0 }

  /** The one to four octets that encode `c`. */
  function EncodeChar(c: char): (b: seq<byte>)
    ensures 1 <= |b| <= 4
  {
    var n := c as int;
    if n < 0x80 then [n]
    else if n < 0x800 then [0xC0 + n / 64, 0x80 + n % 64]
    else if n < 0x1_0000 then [0xE0 + n / 4096, 0x80 + (n / 64) % 64, 0x80 + n % 64]
    else [0xF0 + n / 262144, 0x80 + (n / 4096) % 64, 0x80 + (n / 64) % 64, 0x80 + n % 64]
  }

  function Encode(s: string): (b: seq<byte>)
    ensures |s| <= |b| <= 4 * |s|
  {
    if s == [] then [] else EncodeChar(s[0]) + Encode(s[1..])
  }

  /** The scalar value at the head of `b` and the number of octets it takes, if they form one. */
  function DecodeFirst(b: seq<byte>): (r: Option<(char, nat)>)
    requires |b| > 0
    ensures r.Some? ==> 1 <= r.value.1 <= |b|
  {
    var b0: int := b[0];
    if b0 < 0x80 then Some((b0 as char, 1))
    else if 0xC2 <= b0 < 0xE0 then
      if |b| >= 2 && IsContinuation(b[1])
      then Some((((b0 - 0xC0) * 64 + (b[1] as int - 0x80)) as char, 2))
      else None
    else if 0xE0 <= b0 < 0xF0 then
      var lo := if b0 == 0xE0 then 0xA0 else 0x80;
      var hi := if b0 == 0xED then 0xA0 else 0xC0;
      if |b| >= 3 && lo <= b[1] < hi && IsContinuation(b[2])
      then Some((((b0 - 0xE0) * 4096 + (b[1] as int - 0x80) * 64 + (b[2] as int - 0x80)) as char, 3))
      else None
    else if 0xF0 <= b0 < 0xF5 then
      var lo := if b0 == 0xF0 then 0x90 else 0x80;
      var hi := if b0 == 0xF4 then 0x90 else 0xC0;
      if |b| >= 4 && lo <= b[1] < hi && IsContinuation(b[2]) && IsContinuation(b[3])
      then Some((((b0 - 0xF0) * 262144 + (b[1] as int - 0x80) * 4096 + (b[2] as int - 0x80) * 64 + (b[3] as int - 0x80)) as char, 4))
      else None
    else None
  }

  /** `bytes.decode()`: None where Python raises UnicodeDecodeError. */
  function Decode(b: seq<byte>): Option<string>
    decreases |b|
  {
    if b == [] then Some([])
    else match DecodeFirst(b)
      case None => None
      case Some((c, n)) =>
        match Decode(b[n..])
        case None => None
        case Some(rest) => Some([c] + rest)
  }

  predicate IsAscii(s: string) { forall i :: 0 <= i < |s| ==> s[i] < 128 as char }

  lemma {:induction false} EncodeAscii(s: string)
    requires IsAscii(s)
    ensures |Encode(s)| == |s|
    ensures forall i :: 0 <= i < |s| ==> Encode(s)[i] == s[i] as int
  {
    if s != [] {
      EncodeAscii(s[1..]);
    }
  }

  lemma {:induction false} EncodeAppend(s: string, t: string)
    ensures Encode(s + t) == Encode(s) + Encode(t)
  {
    if s == [] {
      assert s + t == t;
    } else {
      assert (s + t)[1..] == s[1..] + t;
      EncodeAppend(s[1..], t);
    }
  }

  lemma Digits64(n: nat)
    ensures n / 4096 == (n / 64) / 64
    ensures n / 262144 == (n / 4096) / 64
    ensures n == (n / 64) * 64 + n % 64
    ensures n / 64 == (n / 4096) * 64 + (n / 64) % 64
    ensures n / 4096 == (n / 262144) * 64 + (n / 4096) % 64
  {
  }

  lemma DecodeFirstEncodeChar(c: char, rest: seq<byte>)
    ensures DecodeFirst(EncodeChar(c) + rest) == Some((c, |EncodeChar(c)|))
  {
    var n := c as int;
    var b := EncodeChar(c) + rest;
    if n < 0x80 {
    } else if n < 0x800 {
      DecodeTwo(n, b, rest);
    } else if n < 0x1_0000 {
      DecodeThree(n, b, rest);
    } else {
      DecodeFour(n, b, rest);
    }
  }

  lemma DecodeTwo(n: nat, b: seq<byte>, rest: seq<byte>)
    requires 0x80 <= n < 0x800 && b == [0xC0 + n / 64, 0x80 + n % 64] + rest
    ensures DecodeFirst(b) == Some((n as char, 2))
  {
    assert (b[0] as int - 0xC0) * 64 + (b[1] as int - 0x80) == n;
  }

  lemma DecodeThree(n: nat, b: seq<byte>, rest: seq<byte>)
    requires 0x800 <= n < 0x1_0000 && (n < 0xD800 || 0xE000 <= n)
    requires b == [0xE0 + n / 4096, 0x80 + (n / 64) % 64, 0x80 + n % 64] + rest
    ensures DecodeFirst(b) == Some((n as char, 3))
  {
    Digits64(n);
    var x0, x1, x2 := n / 4096, (n / 64) % 64, n % 64;
    assert n == (x0 * 64 + x1) * 64 + x2;
    assert x0 == 0 ==> x1 >= 32;
    assert x0 == 13 ==> x1 < 32;
  }

  lemma DecodeFour(n: nat, b: seq<byte>, rest: seq<byte>)
    requires 0x1_0000 <= n < 0x11_0000
    requires b == [0xF0 + n / 262144, 0x80 + (n / 4096) % 64, 0x80 + (n / 64) % 64, 0x80 + n % 64] + rest
    ensures DecodeFirst(b) == Some((n as char, 4))
  {
    Digits64(n);
    var x0, x1, x2, x3 := n / 262144, (n / 4096) % 64, (n / 64) % 64, n % 64;
    assert n == ((x0 * 64 + x1) * 64 + x2) * 64 + x3;
    assert x0 == 0 ==> x1 >= 16;
    assert x0 == 4 ==> x1 < 16;
  }

  /** Decoding undoes encoding for every string. */
  lemma {:induction false} DecodeEncode(s: string)
    ensures Decode(Encode(s)) == Some(s)
  {
    if s != [] {
      var head := EncodeChar(s[0]);
      var rest := Encode(s[1..]);
      DecodeFirstEncodeChar(s[0], rest);
      assert (head + rest)[|head|..] == rest;
      DecodeEncode(s[1..]);
      assert [s[0]] + s[1..] == s;
    }
  }

  /** Base-64 place values: a digit below 64 appended to `hi` is read back by `/` and `%`. */
  lemma Place64(hi: nat, x: nat)
    requires x < 64
    ensures (hi * 64 + x) / 64 == hi && (hi * 64 + x) % 64 == x
  {
  }

  lemma EncodeCharTwo(b: seq<byte>, c: char)
    requires |b| >= 2 && 0xC2 <= b[0] < 0xE0 && IsContinuation(b[1])
    requires c as int == (b[0] as int - 0xC0) * 64 + (b[1] as int - 0x80)
    ensures EncodeChar(c) == b[..2]
  {
    var n := c as int;
    Place64(b[0] as int - 0xC0, b[1] as int - 0x80);
    assert 0x80 <= n < 0x800;
  }

  lemma EncodeCharThree(b: seq<byte>, c: char)
    requires |b| >= 3 && 0xE0 <= b[0] < 0xF0 && IsContinuation(b[1]) && IsContinuation(b[2])
    requires b[0] == 0xE0 ==> b[1] >= 0xA0
    requires c as int == (b[0] as int - 0xE0) * 4096 + (b[1] as int - 0x80) * 64 + (b[2] as int - 0x80)
    ensures EncodeChar(c) == b[..3]
  {
    var n := c as int;
    var a, x1, x2 := b[0] as int - 0xE0, b[1] as int - 0x80, b[2] as int - 0x80;
    assert n == (a * 64 + x1) * 64 + x2;
    Place64(a * 64 + x1, x2);
    Place64(a, x1);
    Digits64(n);
    assert 0x800 <= n < 0x1_0000;
  }

  lemma EncodeCharFour(b: seq<byte>, c: char)
    requires |b| >= 4 && 0xF0 <= b[0] < 0xF5 && IsContinuation(b[1]) && IsContinuation(b[2]) && IsContinuation(b[3])
    requires b[0] == 0xF0 ==> b[1] >= 0x90
    requires c as int == (b[0] as int - 0xF0) * 262144 + (b[1] as int - 0x80) * 4096 + (b[2] as int - 0x80) * 64 + (b[3] as int - 0x80)
    ensures EncodeChar(c) == b[..4]
  {
    var n := c as int;
    var a, x1, x2, x3 := b[0] as int - 0xF0, b[1] as int - 0x80, b[2] as int - 0x80, b[3] as int - 0x80;
    assert n == ((a * 64 + x1) * 64 + x2) * 64 + x3;
    Place64((a * 64 + x1) * 64 + x2, x3);
    Place64(a * 64 + x1, x2);
    Place64(a, x1);
    Digits64(n);
    assert n >= 0x1_0000;
  }

  lemma EncodeCharDecodeFirst(b: seq<byte>)
    requires |b| > 0 && DecodeFirst(b).Some?
    ensures EncodeChar(DecodeFirst(b).value.0) == b[..DecodeFirst(b).value.1]
  {
    var (c, k) := DecodeFirst(b).value;
    if k == 2 {
      EncodeCharTwo(b, c);
    } else if k == 3 {
      EncodeCharThree(b, c);
    } else if k == 4 {
      EncodeCharFour(b, c);
    }
  }

  /** One step of `Decode` on a non-empty octet string that decodes. */
  lemma DecodeStep(b: seq<byte>)
    requires b != [] && Decode(b).Some?
    ensures DecodeFirst(b).Some? && Decode(b[DecodeFirst(b).value.1..]).Some?
    ensures Decode(b).value == [DecodeFirst(b).value.0] + Decode(b[DecodeFirst(b).value.1..]).value
  {
  }

  /** Octets the decoder refuses are the encoding of no text. */
  lemma NotAnEncoding(b: seq<byte>)
    requires Decode(b).None?
    ensures forall t :: Encode(t) != b
  {
    forall t ensures Encode(t) != b {
      DecodeEncode(t);
    }
  }

  /** Every octet string that decodes is the encoding of what it decodes to. */
  lemma {:induction false} EncodeDecode(b: seq<byte>)
    requires Decode(b).Some?
    ensures Encode(Decode(b).value) == b
    decreases |b|
  {
    if b != [] {
      DecodeStep(b);
      var (c, k) := DecodeFirst(b).value;
      var rest := Decode(b[k..]).value;
      EncodeCharDecodeFirst(b);
      EncodeDecode(b[k..]);
      assert ([c] + rest)[1..] == rest;
      assert Encode([c] + rest) == EncodeChar(c) + Encode(rest);
      assert b == b[..k] + b[k..];
    }
  }

}
