/**
 * Base64 with the standard alphabet and '=' padding (section 4 of RFC 4648), as Python's
 * `base64.b64encode` writes it, and the strict decoder of the same section as its inverse.
 */
module Base64 {
  import opened Base

  /** The character for the 6-bit value `i`. */
  function Char(i: nat): char
    requires i < 64
  {
    if i < 26 then ('A' as int + i) as char
    else if i < 52 then ('a' as int + (i - 26)) as char
    else if i < 62 then ('0' as int + (i - 52)) as char
    else if i == 62 then '+'
    else '/'
  }

  /** The 6-bit value of an alphabet character; None for anything else, padding included. */
  function Index(c: char): (r: Option<nat>)
    ensures r.Some? ==> r.value < 64 && Char(r.value) == c
  {
    if 'A' <= c <= 'Z' then Some(c as int - 'A' as int)
    else if 'a' <= c <= 'z' then Some(c as int - 'a' as int + 26)
    else if '0' <= c <= '9' then Some(c as int - '0' as int + 52)
    else if c == '+' then Some(62)
    else if c == '/' then Some(63)
    else None
  }

  lemma IndexChar(i: nat)
    requires i < 64
    ensures Index(Char(i)) == Some(i)
  {
  }

  /** Three octets as four characters. */
  function Quad(a: byte, b: byte, c: byte): string
  {
    [Char(a / 4), Char(a % 4 * 16 + b / 16), Char(b % 16 * 4 + c / 64), Char(c % 64)]
  }

  function Encode(b: seq<byte>): (s: string)
    ensures |s| == (|b| + 2) / 3 * 4
    decreases |b|
  {
    if |b| == 0 then ""
    else if |b| == 1 then [Char(b[0] / 4), Char(b[0] % 4 * 16), '=', '=']
    else if |b| == 2 then [Char(b[0] / 4), Char(b[0] % 4 * 16 + b[1] / 16), Char(b[1] % 16 * 4), '=']
    else Quad(b[0], b[1], b[2]) + Encode(b[3..])
  }

  /** Four alphabet characters as three octets. */
  function DecodeQuad(c0: char, c1: char, c2: char, c3: char): Option<seq<byte>>
  {
    var i0 :- Index(c0);
    var i1 :- Index(c1);
    var i2 :- Index(c2);
    var i3 :- Index(c3);
    Some([i0 * 4 + i1 / 16, i1 % 16 * 16 + i2 / 4, i2 % 4 * 64 + i3])
  }

  /** The last group, which may end in one or two '=' (unused bits must be zero). */
  function DecodeFinal(c0: char, c1: char, c2: char, c3: char): Option<seq<byte>>
  {
    if c2 == '=' && c3 == '=' then
      var i0 :- Index(c0);
      var i1 :- Index(c1);
      if i1 % 16 == 0 then Some([i0 * 4 + i1 / 16]) else None
    else if c3 == '=' then
      var i0 :- Index(c0);
      var i1 :- Index(c1);
      var i2 :- Index(c2);
      if i2 % 4 == 0 then Some([i0 * 4 + i1 / 16, i1 % 16 * 16 + i2 / 4]) else None
    else DecodeQuad(c0, c1, c2, c3)
  }

  function Decode(s: string): Option<seq<byte>>
    decreases |s|
  {
    if |s| == 0 then Some([])
    else if |s| < 4 then None
    else if |s| == 4 then DecodeFinal(s[0], s[1], s[2], s[3])
    else
      var head :- DecodeQuad(s[0], s[1], s[2], s[3]);
      var tail :- Decode(s[4..]);
      Some(head + tail)
  }

  /** The number of '=' that `Encode` appends for `n` octets. */
  function Padding(n: nat): nat
  {
    (3 - n % 3) % 3
  }

  lemma QuadArithmetic(a: byte, b: byte, c: byte)
    ensures (a / 4) * 4 + (a % 4 * 16 + b / 16) / 16 == a
    ensures (a % 4 * 16 + b / 16) % 16 * 16 + (b % 16 * 4 + c / 64) / 4 == b
    ensures (b % 16 * 4 + c / 64) % 4 * 64 + c % 64 == c
  {
  }

  lemma DecodeQuadOf(a: byte, b: byte, c: byte)
    ensures var q := Quad(a, b, c); DecodeQuad(q[0], q[1], q[2], q[3]) == Some([a, b, c])
  {
    QuadArithmetic(a, b, c);
    IndexChar(a / 4);
    IndexChar(a % 4 * 16 + b / 16);
    IndexChar(b % 16 * 4 + c / 64);
    IndexChar(c % 64);
  }

  lemma DecodeEncodeOne(a: byte)
    ensures Decode(Encode([a])) == Some([a])
  {
    IndexChar(a / 4);
    IndexChar(a % 4 * 16);
  }

  lemma DecodeEncodeTwo(a: byte, b: byte)
    ensures Decode(Encode([a, b])) == Some([a, b])
  {
    QuadArithmetic(a, b, 0);
    var i0, i1, i2 := a / 4, a % 4 * 16 + b / 16, b % 16 * 4;
    IndexChar(i0);
    IndexChar(i1);
    IndexChar(i2);
    var s := Encode([a, b]);
    assert s == [Char(i0), Char(i1), Char(i2), '='] && Char(i2) != '=';
    assert DecodeFinal(s[0], s[1], s[2], s[3]) == Some([i0 * 4 + i1 / 16, i1 % 16 * 16 + i2 / 4]);
  }

  lemma DecodeGroup(q: string, t: string, head: seq<byte>, tail: seq<byte>)
    requires |q| == 4 && DecodeQuad(q[0], q[1], q[2], q[3]) == Some(head)
    requires Decode(t) == Some(tail)
    ensures Decode(q + t) == Some(head + tail)
  {
    var s := q + t;
    assert s[0] == q[0] && s[1] == q[1] && s[2] == q[2] && s[3] == q[3];
    if t == [] {
      assert s == q;
      assert Index(q[3]).Some?;
      assert q[3] != '=';
      assert DecodeFinal(q[0], q[1], q[2], q[3]) == Some(head);
      assert head + tail == head;
    } else {
      assert |t| >= 4;
      assert s[4..] == t;
    }
  }

  lemma EncodeStep(b: seq<byte>)
    requires |b| >= 3
    ensures Encode(b) == Quad(b[0], b[1], b[2]) + Encode(b[3..])
  {
  }

  /** Decoding undoes encoding. */
  lemma {:induction false} DecodeEncode(b: seq<byte>)
    ensures Decode(Encode(b)) == Some(b)
    decreases |b|
  {
    if |b| == 1 {
      DecodeEncodeOne(b[0]);
      assert b == [b[0]];
    } else if |b| == 2 {
      DecodeEncodeTwo(b[0], b[1]);
      assert b == [b[0], b[1]];
    } else if |b| >= 3 {
      DecodeEncode(b[3..]);
      DecodeEncodeGroup(b);
    }
  }

  lemma DecodeEncodeGroup(b: seq<byte>)
    requires |b| >= 3 && Decode(Encode(b[3..])) == Some(b[3..])
    ensures Decode(Encode(b)) == Some(b)
  {
    var head, tail := [b[0], b[1], b[2]], b[3..];
    DecodeQuadOf(b[0], b[1], b[2]);
    EncodeStep(b);
    DecodeGroup(Quad(b[0], b[1], b[2]), Encode(tail), head, tail);
    SplitGroup(b);
  }

  lemma SplitGroup(b: seq<byte>)
    requires |b| >= 3
    ensures b == [b[0], b[1], b[2]] + b[3..]
  {
    assert b == b[..3] + b[3..];
  }

  /** Four 6-bit values packed into three octets and split again. */
  lemma SixBitArithmetic(i0: nat, i1: nat, i2: nat, i3: nat)
    requires i0 < 64 && i1 < 64 && i2 < 64 && i3 < 64
    ensures var a, b, c := i0 * 4 + i1 / 16, i1 % 16 * 16 + i2 / 4, i2 % 4 * 64 + i3;
      && a < 256 && b < 256 && c < 256
      && a / 4 == i0 && a % 4 * 16 + b / 16 == i1 && b % 16 * 4 + c / 64 == i2 && c % 64 == i3
      && a % 4 * 16 == (i1 / 16) * 16 && b % 16 * 4 == (i2 / 4) * 4
  {
  }

  lemma QuadOfDecode(c0: char, c1: char, c2: char, c3: char)
    requires DecodeQuad(c0, c1, c2, c3).Some?
    ensures var t := DecodeQuad(c0, c1, c2, c3).value; Quad(t[0], t[1], t[2]) == [c0, c1, c2, c3]
  {
    var i0, i1, i2, i3 := Index(c0).value, Index(c1).value, Index(c2).value, Index(c3).value;
    SixBitArithmetic(i0, i1, i2, i3);
    var t := DecodeQuad(c0, c1, c2, c3).value;
    assert t == [i0 * 4 + i1 / 16, i1 % 16 * 16 + i2 / 4, i2 % 4 * 64 + i3];
    QuadOfSix(t[0], t[1], t[2], i0, i1, i2, i3);
  }

  /** Three octets whose 6-bit groups are `i0`..`i3` encode as those groups' characters. */
  lemma QuadOfSix(a: byte, b: byte, c: byte, i0: nat, i1: nat, i2: nat, i3: nat)
    requires i0 < 64 && i1 < 64 && i2 < 64 && i3 < 64
    requires a / 4 == i0 && a % 4 * 16 + b / 16 == i1 && b % 16 * 4 + c / 64 == i2 && c % 64 == i3
    ensures Quad(a, b, c) == [Char(i0), Char(i1), Char(i2), Char(i3)]
  {
  }

  lemma EncodeDecodeFinal(c0: char, c1: char, c2: char, c3: char)
    requires DecodeFinal(c0, c1, c2, c3).Some?
    ensures Encode(DecodeFinal(c0, c1, c2, c3).value) == [c0, c1, c2, c3]
  {
    if c2 == '=' && c3 == '=' {
      EncodeFinalOne(c0, c1);
    } else if c3 == '=' {
      EncodeFinalTwo(c0, c1, c2);
    } else {
      QuadOfDecode(c0, c1, c2, c3);
      var t := DecodeQuad(c0, c1, c2, c3).value;
      assert t[3..] == [];
    }
  }

  lemma EncodeFinalOne(c0: char, c1: char)
    requires DecodeFinal(c0, c1, '=', '=').Some?
    ensures Encode(DecodeFinal(c0, c1, '=', '=').value) == [c0, c1, '=', '=']
  {
    var i0, i1 := Index(c0).value, Index(c1).value;
    SixBitArithmetic(i0, i1, 0, 0);
  }

  lemma EncodeFinalTwo(c0: char, c1: char, c2: char)
    requires c2 != '=' && DecodeFinal(c0, c1, c2, '=').Some?
    ensures Encode(DecodeFinal(c0, c1, c2, '=').value) == [c0, c1, c2, '=']
  {
    var i0, i1, i2 := Index(c0).value, Index(c1).value, Index(c2).value;
    SixBitArithmetic(i0, i1, i2, 0);
  }

  lemma EncodeGroup(head: seq<byte>, tail: seq<byte>, q: string)
    requires |q| == 4 && DecodeQuad(q[0], q[1], q[2], q[3]) == Some(head) && |Encode(tail)| > 0
    ensures Encode(head + tail) == q + Encode(tail)
  {
    QuadOfDecode(q[0], q[1], q[2], q[3]);
    var b := head + tail;
    assert b[3..] == tail;
  }

  lemma DecodeSplit(s: string)
    requires |s| > 4 && Decode(s).Some?
    ensures DecodeQuad(s[0], s[1], s[2], s[3]).Some? && Decode(s[4..]).Some?
    ensures Decode(s).value == DecodeQuad(s[0], s[1], s[2], s[3]).value + Decode(s[4..]).value
  {
  }

  /** Every text the strict decoder accepts is the encoding of what it yields. */
  lemma {:induction false} EncodeDecodeInverse(s: string)
    requires Decode(s).Some?
    ensures Encode(Decode(s).value) == s
    decreases |s|
  {
    if |s| == 4 {
      EncodeDecodeFinal(s[0], s[1], s[2], s[3]);
      assert s == [s[0], s[1], s[2], s[3]];
    } else if |s| > 4 {
      DecodeSplit(s);
      var q := s[..4];
      var head := DecodeQuad(s[0], s[1], s[2], s[3]).value;
      var tail := Decode(s[4..]).value;
      EncodeDecodeInverse(s[4..]);
      assert q[0] == s[0] && q[1] == s[1] && q[2] == s[2] && q[3] == s[3];
      EncodeGroup(head, tail, q);
      assert s == q + s[4..];
    }
  }

  lemma CharNotPad(i: nat)
    requires i < 64
    ensures Char(i) != '='
  {
  }

  lemma QuadNotPad(a: byte, b: byte, c: byte)
    ensures '=' !in Quad(a, b, c)
  {
    CharNotPad(a / 4);
    CharNotPad(a % 4 * 16 + b / 16);
    CharNotPad(b % 16 * 4 + c / 64);
    CharNotPad(c % 64);
  }

  /** '=' appears in `s` exactly in the last `p` positions. */
  predicate PaddedAt(s: string, p: nat)
  {
    && (forall i :: 0 <= i < |s| - p ==> s[i] != '=')
    && (forall i :: 0 <= i && |s| - p <= i < |s| ==> s[i] == '=')
  }

  /** '=' appears exactly in the last `Padding(|b|)` positions of the encoding. */
  lemma {:induction false} PaddingAtEnd(b: seq<byte>)
    ensures PaddedAt(Encode(b), Padding(|b|))
    decreases |b|
  {
    if |b| == 1 {
      CharNotPad(b[0] / 4);
      CharNotPad(b[0] % 4 * 16);
    } else if |b| == 2 {
      CharNotPad(b[0] / 4);
      CharNotPad(b[0] % 4 * 16 + b[1] / 16);
      CharNotPad(b[1] % 16 * 4);
    } else if |b| >= 3 {
      PaddingAtEnd(b[3..]);
      PaddingGroup(b);
    }
  }

  lemma PaddingShift(n: nat)
    ensures Padding(n + 3) == Padding(n)
  {
    var k, r := n / 3, n % 3;
    assert n + 3 == (k + 1) * 3 + r;
    assert (n + 3) % 3 == r;
  }

  /** A group without padding in front of a padded text keeps the padding at the end. */
  lemma PaddedPrefix(q: string, t: string, p: nat)
    requires |q| == 4 && '=' !in q && p <= |t| && PaddedAt(t, p)
    ensures PaddedAt(q + t, p)
  {
    var s := q + t;
    forall i | 0 <= i < |s| - p ensures s[i] != '=' {
      if i < 4 {
        assert s[i] == q[i];
      } else {
        assert s[i] == t[i - 4];
      }
    }
    forall i | 0 <= i && |s| - p <= i < |s| ensures s[i] == '=' {
      assert s[i] == t[i - 4];
    }
  }

  lemma PaddingFits(n: nat)
    ensures Padding(n) <= (n + 2) / 3 * 4
  {
    if n > 0 {
      assert (n + 2) / 3 >= 1;
    }
  }

  lemma PaddingGroup(b: seq<byte>)
    requires |b| >= 3 && PaddedAt(Encode(b[3..]), Padding(|b[3..]|))
    ensures PaddedAt(Encode(b), Padding(|b|))
  {
    EncodeStep(b);
    QuadNotPad(b[0], b[1], b[2]);
    PaddingShift(|b[3..]|);
    PaddingFits(|b[3..]|);
    PaddedPrefix(Quad(b[0], b[1], b[2]), Encode(b[3..]), Padding(|b[3..]|));
  }
}
