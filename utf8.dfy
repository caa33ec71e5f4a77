/**
 * UTF-8 as defined in section 4 of RFC 3629: the check `String::from_utf8`
 * makes on the finished output, and the encoding of a `char`, which
 * `serialize_char` writes through the text path.
 */
module Utf8 {
  import opened Ascii

  predicate IsContinuation(b: byte) {
    0x80 <= b <= 0xBF
  }

  /**
   * The length of the well-formed character at the front of `s`, or 0 when
   * `s` does not start with one (a stray continuation byte, an overlong
   * form, a surrogate, a code point above U+10FFFF, or a truncated sequence).
   */
  function CharWidth(s: seq<byte>): (w: nat)
    requires |s| > 0
    ensures w <= 4 && w <= |s|
    ensures w > 1 ==> forall i :: 1 <= i < w ==> IsContinuation(s[i])
  {
    var b := s[0];
    if b < 0x80 then 1
    else if |s| < 2 || !IsContinuation(s[1]) then 0
    else if 0xC2 <= b <= 0xDF then 2
    else if |s| < 3 || !IsContinuation(s[2]) then 0
    else if b == 0xE0 then (if s[1] >= 0xA0 then 3 else 0)
    else if b == 0xED then (if s[1] <= 0x9F then 3 else 0)
    else if 0xE1 <= b <= 0xEF then 3
    else if |s| < 4 || !IsContinuation(s[3]) then 0
    else if b == 0xF0 then (if s[1] >= 0x90 then 4 else 0)
    else if b == 0xF4 then (if s[1] <= 0x8F then 4 else 0)
    else if 0xF1 <= b <= 0xF3 then 4
    else 0
  }

  /** `s` is a sequence of well-formed UTF-8 characters. */
  predicate Valid(s: seq<byte>)
    decreases |s|
  {
    s == [] || (CharWidth(s) > 0 && Valid(s[CharWidth(s)..]))
  }

  /** The UTF-8 bytes of a Unicode scalar value: `c.to_string().as_bytes()`. */
  function EncodeChar(c: char): (r: seq<byte>)
    ensures 1 <= |r| <= 4
  {
    var n := c as int;
    if n < 0x80 then [n]
    else if n < 0x800 then [0xC0 + n / 0x40, 0x80 + n % 0x40]
    else if n < 0x1_0000 then [0xE0 + n / 0x1000, 0x80 + n / 0x40 % 0x40, 0x80 + n % 0x40]
    else [0xF0 + n / 0x4_0000, 0x80 + n / 0x1000 % 0x40, 0x80 + n / 0x40 % 0x40, 0x80 + n % 0x40]
  }

  /** A character's encoding is one well-formed character, and is a line break only for `\r` and `\n`. */
  lemma EncodeCharValid(c: char)
    ensures CharWidth(EncodeChar(c)) == |EncodeChar(c)|
    ensures Valid(EncodeChar(c))
    ensures NoLineBreak(EncodeChar(c)) <==> c != '\r' && c != '\n'
  {
    var r := EncodeChar(c);
    assert r[CharWidth(r)..] == [];
  }

  /**
   * The Unicode scalar value of the well-formed character at the front of
   * `s`: the reference decoding that `EncodeChar` is checked against.
   */
  function DecodeChar(s: seq<byte>): (n: int)
    requires |s| > 0 && CharWidth(s) > 0
    ensures 0 <= n < 0xD800 || 0xE000 <= n < 0x11_0000
  {
    var b0 := s[0] as int;
    match CharWidth(s)
    case 1 => b0
    case 2 => (b0 - 0xC0) * 0x40 + Low(s[1])
    case 3 => (b0 - 0xE0) * 0x1000 + Low(s[1]) * 0x40 + Low(s[2])
    case 4 => (b0 - 0xF0) * 0x4_0000 + Low(s[1]) * 0x1000 + Low(s[2]) * 0x40 + Low(s[3])
  }

  /** The six payload bits of a continuation byte. */
  function Low(b: byte): int {
    b as int - 0x80
  }

  /** Decoding a character's encoding gives back that character. */
  lemma DecodeEncodeChar(c: char)
    ensures CharWidth(EncodeChar(c)) > 0
    ensures DecodeChar(EncodeChar(c)) == c as int
  {
    EncodeCharValid(c);
  }

  /** A well-formed character is the encoding of the character it decodes to, so no other byte string encodes it. */
  lemma EncodeDecodeChar(s: seq<byte>)
    requires |s| > 0 && CharWidth(s) == |s|
    ensures EncodeChar(DecodeChar(s) as char) == s
  {
    match CharWidth(s)
    case 1 =>
    case 2 => EncodeDecode2(s);
    case 3 => EncodeDecode3(s);
    case 4 => EncodeDecode4(s);
  }

  lemma EncodeDecode2(s: seq<byte>)
    requires |s| == 2 && CharWidth(s) == 2
    ensures EncodeChar(DecodeChar(s) as char) == s
  {
    Split(s[0] as int - 0xC0, Low(s[1]), 0x40);
    assert EncodeChar(DecodeChar(s) as char) == [s[0], s[1]];
  }

  lemma EncodeDecode3(s: seq<byte>)
    requires |s| == 3 && CharWidth(s) == 3
    ensures EncodeChar(DecodeChar(s) as char) == s
  {
    var q := s[0] as int - 0xE0;
    Split(q * 0x40 + Low(s[1]), Low(s[2]), 0x40);
    Split(q, Low(s[1]), 0x40);
    Split(q, Low(s[1]) * 0x40 + Low(s[2]), 0x1000);
    assert EncodeChar(DecodeChar(s) as char) == [s[0], s[1], s[2]];
  }

  lemma EncodeDecode4(s: seq<byte>)
    requires |s| == 4 && CharWidth(s) == 4
    ensures EncodeChar(DecodeChar(s) as char) == s
  {
    var q := s[0] as int - 0xF0;
    var m1 := q * 0x40 + Low(s[1]);
    var m2 := m1 * 0x40 + Low(s[2]);
    Split(m2, Low(s[3]), 0x40);
    Split(m1, Low(s[2]), 0x40);
    Split(q, Low(s[1]), 0x40);
    Split(m1, Low(s[2]) * 0x40 + Low(s[3]), 0x1000);
    Split(q, (Low(s[1]) * 0x40 + Low(s[2])) * 0x40 + Low(s[3]), 0x4_0000);
    assert EncodeChar(DecodeChar(s) as char) == [s[0], s[1], s[2], s[3]];
  }

  /** Euclidean division by 0x40, 0x1000 or 0x4_0000 undoes `q * d + r` for a remainder below `d`. */
  lemma Split(q: int, r: int, d: int)
    requires d == 0x40 || d == 0x1000 || d == 0x4_0000
    requires 0 <= r < d
    ensures (q * d + r) / d == q && (q * d + r) % d == r
  {
    if d == 0x40 {
      assert (q * 0x40 + r) / 0x40 == q;
    } else if d == 0x1000 {
      assert (q * 0x1000 + r) / 0x1000 == q;
    } else {
      assert (q * 0x4_0000 + r) / 0x4_0000 == q;
    }
  }

  /** Reading a character does not look past its last byte. */
  lemma CharWidthPrefix(a: seq<byte>, b: seq<byte>)
    requires |a| > 0 && CharWidth(a) > 0
    ensures CharWidth(a + b) == CharWidth(a)
  {
    var s := a + b;
    assert forall i :: 0 <= i < |a| ==> s[i] == a[i];
  }

  /** Well-formed text stays well-formed when more well-formed text follows it. */
  lemma {:induction false} ValidConcat(a: seq<byte>, b: seq<byte>)
    requires Valid(a) && Valid(b)
    ensures Valid(a + b)
    decreases |a|
  {
    if a == [] {
      assert a + b == b;
    } else {
      var w := CharWidth(a);
      CharWidthPrefix(a, b);
      assert (a + b)[w..] == a[w..] + b;
      ValidConcat(a[w..], b);
    }
  }

  /** Bytes below 0x80 are well-formed text on their own. */
  lemma {:induction false} AsciiValid(s: seq<byte>)
    requires forall i :: 0 <= i < |s| ==> s[i] < 0x80
    ensures Valid(s)
  {
    if s != [] {
      AsciiValid(s[1..]);
    }
  }
}
