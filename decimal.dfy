/**
 * Decimal rendering of integers, as Rust's `to_string` writes them for
 * `i64`, `u64` and `usize` (no leading zeros, a `-` for negatives), and the
 * digit parser that reads them back.
 */
module Decimal {
  import opened Ascii

  function Digit(d: nat): (b: byte)
    requires d < 10
  {
    ZERO + d
  }

  /** Text of a natural number: `n.to_string().as_bytes()`. */
  function NatText(n: nat): (r: seq<byte>)
    ensures |r| >= 1 && AllDigits(r)
    ensures r[0] == ZERO ==> n == 0
    ensures NoLineBreak(r)
  {
    if n < 10 then [Digit(n)] else NatText(n / 10) + [Digit(n % 10)]
  }

  /** Text of a signed integer: a `-` followed by the text of its magnitude when negative. */
  function IntText(i: int): (r: seq<byte>)
    ensures |r| >= 1 && NoLineBreak(r)
    ensures (r[0] == MINUS) <==> i < 0
  {
    if i < 0 then [MINUS] + NatText(-i) else NatText(i)
  }

  /** A nonempty run of decimal digits. */
  predicate IsNatText(s: seq<byte>) {
    |s| >= 1 && AllDigits(s)
  }

  /** Digits, optionally preceded by a `-`. */
  predicate IsIntText(s: seq<byte>) {
    IsNatText(s) || (|s| >= 2 && s[0] == MINUS && IsNatText(s[1..]))
  }

  /** The value of a run of decimal digits (leading zeros allowed). */
  function ParseNat(s: seq<byte>): nat
    requires AllDigits(s)
  {
    if s == [] then 0 else 10 * ParseNat(s[..|s| - 1]) + (s[|s| - 1] - ZERO)
  }

  function ParseInt(s: seq<byte>): int
    requires IsIntText(s)
  {
    if s[0] == MINUS then -(ParseNat(s[1..]) as int) else ParseNat(s)
  }

  /** Reading back the text of `n` gives `n`. */
  lemma {:induction false} ParseNatText(n: nat)
    ensures ParseNat(NatText(n)) == n
  {
    if n >= 10 {
      var s := NatText(n);
      assert s[..|s| - 1] == NatText(n / 10);
      ParseNatText(n / 10);
    }
  }

  /** Reading back the text of `i` gives `i`: the rendering of integers is injective. */
  lemma ParseIntText(i: int)
    ensures IsIntText(IntText(i)) && ParseInt(IntText(i)) == i
  {
    var t := IntText(i);
    if i < 0 {
      var d := NatText(-i);
      assert t == [MINUS] + d;
      assert t[1..] == d;
      assert IsNatText(t[1..]);
      ParseNatText(-i);
    } else {
      assert t == NatText(i);
      ParseNatText(i);
    }
  }

  lemma {:induction false} ParseNatPositive(s: seq<byte>)
    requires IsNatText(s) && s[0] != ZERO
    ensures ParseNat(s) > 0
  {
    if |s| > 1 {
      ParseNatPositive(s[..|s| - 1]);
    }
  }

  /**
   * The converse of ParseNatText: every digit string without a leading zero
   * is the text of the number it denotes, so NatText is a bijection onto the
   * canonical digit strings.
   */
  lemma {:induction false} NatTextCanonical(s: seq<byte>)
    requires IsNatText(s) && (s[0] != ZERO || |s| == 1)
    ensures NatText(ParseNat(s)) == s
  {
    if |s| == 1 {
      assert s[..0] == [];
    } else {
      var p := s[..|s| - 1];
      ParseNatPositive(p);
      NatTextCanonical(p);
      var n := ParseNat(s);
      assert n / 10 == ParseNat(p) && n % 10 == s[|s| - 1] - ZERO;
      assert s == p + [s[|s| - 1]];
    }
  }
}
