/**
 * What the encoding promises, rule by rule, and the byte strings the
 * crate's own tests expect.
 */
module Properties {
  import opened Ascii
  import opened Decimal
  import opened Errors
  import opened Encoding
  import U = Utf8
  import F = Frames

  // ---------------------------------------------------------------------
  // Integers and booleans: `:<decimal>\r\n`.

  /** The line between `:` and CRLF of an integer frame. */
  function IntegerDigits(e: seq<byte>): seq<byte>
    requires |e| >= 3
  {
    e[1..|e| - 2]
  }

  /** A signed integer is one integer line whose decimal text reads back as the integer, with a `-` exactly when it is negative. */
  lemma IntEncoding(i: i64)
    ensures Encode(Int(i)).Ok?
    ensures var e := Encode(Int(i)).value;
      && |e| >= 3 && e[0] == COLON && e[|e| - 2..] == CRLF
      && IsIntText(IntegerDigits(e)) && ParseInt(IntegerDigits(e)) == i
      && (e[1] == MINUS <==> i < 0)
  {
    var e := Encode(Int(i)).value;
    assert IntegerDigits(e) == IntText(i);
    ParseIntText(i);
  }

  /** An unsigned integer is one integer line holding its canonical decimal text: no sign, no leading zero. */
  lemma UIntEncoding(u: u64)
    ensures Encode(UInt(u)).Ok?
    ensures var e := Encode(UInt(u)).value;
      && |e| >= 3 && e[0] == COLON && e[|e| - 2..] == CRLF
      && IsNatText(IntegerDigits(e)) && ParseNat(IntegerDigits(e)) == u
      && (e[1] == ZERO ==> IntegerDigits(e) == [ZERO])
  {
    var e := Encode(UInt(u)).value;
    assert IntegerDigits(e) == NatText(u);
    ParseNatText(u);
  }

  /** `false` is `:0\r\n` and `true` is `:1\r\n`. */
  lemma BoolEncoding(b: bool)
    ensures Encode(Bool(b)) == Ok(if b then [COLON, ONE, CR, LF] else [COLON, ZERO, CR, LF])
  {
    if b {
      assert IntText(1) == [ONE];
      assert [COLON] + [ONE] + CRLF == [COLON, ONE, CR, LF];
    } else {
      assert IntText(0) == [ZERO];
      assert [COLON] + [ZERO] + CRLF == [COLON, ZERO, CR, LF];
    }
  }

  /** A negative integer carries its sign: `-5` is `:-5\r\n`. */
  lemma NegativeExample()
    ensures Encode(Int(-5)) == Ok([COLON, MINUS, Digit(5), CR, LF])
  {
    assert IntText(-5) == [MINUS, Digit(5)];
    assert [COLON] + [MINUS, Digit(5)] + CRLF == [COLON, MINUS, Digit(5), CR, LF];
  }

  // ---------------------------------------------------------------------
  // Text and bytes.

  /**
   * Text without CR and LF is `+<text>\r\n`; text holding either is exactly
   * the bulk string of its bytes and never a simple string.
   */
  lemma StrEncoding(t: seq<byte>)
    ensures Encode(Str(t)).Ok?
    ensures NoLineBreak(t) ==> Encode(Str(t)).value == [PLUS] + t + CRLF
    ensures !NoLineBreak(t) ==> Encode(Str(t)).value == Encode(Bytes(t)).value
    ensures Encode(Str(t)).value[0] == PLUS <==> NoLineBreak(t)
  {
  }

  /** A character is the text of its UTF-8 encoding; only `'\r'` and `'\n'` take the bulk form. */
  lemma CharEncoding(c: char)
    ensures Encode(Char(c)) == Encode(Str(U.EncodeChar(c)))
    ensures Encode(Char(c)).value[0] == PLUS <==> c != '\r' && c != '\n'
  {
    U.EncodeCharValid(c);
  }

  /** `$<length>\r\n<bytes>\r\n`, where the declared length reads back as the number of payload bytes. */
  lemma BytesEncoding(d: seq<byte>)
    ensures Encode(Bytes(d)).Ok?
    ensures var e := Encode(Bytes(d)).value;
      exists h :: IsNatText(h) && ParseNat(h) == |d| && e == [DOLLAR] + h + CRLF + d + CRLF
  {
    var h := NatText(|d|);
    ParseNatText(|d|);
    assert IsNatText(h) && ParseNat(h) == |d|;
  }

  // ---------------------------------------------------------------------
  // Options, unit and newtypes.

  /** `None` is the empty array `*0\r\n`; `Some(x)` is `*1\r\n` followed by `x`. */
  lemma OptionEncoding(x: Value)
    ensures Encode(None) == Ok([STAR, ZERO, CR, LF])
    ensures Encode(x).Ok? ==> Encode(Some(x)) == Ok([STAR, ONE, CR, LF] + Encode(x).value)
    ensures Encode(x).Err? ==> Encode(Some(x)) == Encode(x)
  {
    assert NatText(0) == [ZERO] && NatText(1) == [ONE];
    assert ArrayHeader(0) == [STAR, ZERO, CR, LF];
    assert ArrayHeader(1) == [STAR, ONE, CR, LF];
    SomeEncoding(x);
  }

  /** Unit and unit structs are both exactly the null bulk string `$-1\r\n`. */
  lemma UnitEncoding()
    ensures Encode(Unit) == Encode(UnitStruct) == Ok([DOLLAR, MINUS, ONE, CR, LF])
  {
  }

  /** A newtype struct is transparent: it is written exactly as its content. */
  lemma NewtypeTransparent(x: Value)
    ensures Encode(NewtypeStruct(x)) == Encode(x)
    ensures ToFrame(NewtypeStruct(x)) == ToFrame(x)
  {
  }

  /** A unit variant is written as the text of its name. */
  lemma UnitVariantEncoding(name: seq<byte>)
    ensures Encode(UnitVariant(name)) == Encode(Str(name))
  {
  }

  // ---------------------------------------------------------------------
  // Sequences and maps.

  /** A sequence or map opened without a length fails with `LenNotKnown`, whatever its contents. */
  lemma UnknownLengthFails(items: seq<Value>, entries: seq<(Value, Value)>)
    ensures Encode(Seq(items, false)) == Err(LenNotKnown)
    ensures Encode(Map(entries, false)) == Err(LenNotKnown)
  {
  }

  /** A known length `n` is written as `*<n>\r\n`, and it is the number of frames that follow. */
  lemma KnownLengthHeader(items: seq<Value>)
    requires ElementsSized(items)
    ensures Encode(Seq(items, true)).Ok?
    ensures ToFrames(items).Ok?
    ensures var e := Encode(Seq(items, true)).value;
      && e[..|ArrayHeader(|items|)|] == ArrayHeader(|items|)
      && F.Parse(e) == F.Option.Some((F.Array(ToFrames(items).value), []))
      && |ToFrames(items).value| == |items|
  {
    var v := Seq(items, true);
    EncodingIsOneFrame(v, []);
    assert Encode(v).value + [] == Encode(v).value;
    ElementsOk(items);
  }

  /**
   * `serialize_key` and `serialize_value` write nothing, so a map driven
   * through them rather than through `serialize_entry` leaves its `*n` header
   * with no frames after it; for `n >= 1` that output is not a frame.
   */
  lemma HeaderAloneIsIncomplete(n: nat)
    requires n >= 1
    ensures F.Parse(ArrayHeader(n)) == F.Option.None
  {
    var line := NatText(n);
    F.HeaderLine(STAR, line, []);
    assert F.Header(STAR, line) + [] == ArrayHeader(n);
    ParseNatText(n);
    assert F.ParseN([], n) == F.Option.None;
  }

  /**
   * A non-empty map driven through `serialize_key` and `serialize_value`
   * leaves output that is not a frame, where the same map driven through
   * `serialize_entry` is one complete frame.
   */
  lemma KeyValueMapIsNotAFrame(entries: seq<(Value, Value)>)
    requires entries != [] && EntriesSized(entries)
    ensures Encode(Map(entries, true)).Ok? && ToFrame(Map(entries, true)).Ok?
    ensures F.Parse(ArrayHeader(|entries|)) == F.Option.None
    ensures F.Parse(Encode(Map(entries, true)).value) == F.Option.Some((ToFrame(Map(entries, true)).value, []))
    ensures ArrayHeader(|entries|) != Encode(Map(entries, true)).value
  {
    HeaderAloneIsIncomplete(|entries|);
    var e := Encode(Map(entries, true));
    EncodingIsOneFrame(Map(entries, true), []);
    assert e.value + [] == e.value;
  }

  /** The frames of a map: one `[key, value]` array per entry, in order. */
  lemma MapFrames(entries: seq<(Value, Value)>)
    requires EntriesSized(entries)
    ensures ToFrame(Map(entries, true)).Ok?
    ensures forall i :: 0 <= i < |entries| ==> ToFrame(entries[i].0).Ok? && ToFrame(entries[i].1).Ok?
    ensures var f := ToFrame(Map(entries, true)).value;
      && f.Array? && |f.items| == |entries|
      && forall i :: 0 <= i < |entries| ==>
           f.items[i] == F.Array([ToFrame(entries[i].0).value, ToFrame(entries[i].1).value])
  {
    EntryFramesOk(entries);
  }

  lemma {:induction false} EntryFramesOk(entries: seq<(Value, Value)>)
    requires EntriesSized(entries)
    ensures EntryFrames(entries).Ok?
    ensures forall i :: 0 <= i < |entries| ==>
      ToFrame(entries[i].0).Ok? && ToFrame(entries[i].1).Ok?
      && EntryFrames(entries).value[i] == F.Array([ToFrame(entries[i].0).value, ToFrame(entries[i].1).value])
  {
    if entries != [] {
      var n := |entries| - 1;
      var init := entries[..n];
      EntryFramesOk(init);
      FramesOk(entries[n].0);
      FramesOk(entries[n].1);
      var front := EntryFrames(init).value;
      var last := F.Array([ToFrame(entries[n].0).value, ToFrame(entries[n].1).value]);
      assert EntryFrame(entries[n]) == Ok(last);
      assert EntryFrames(entries) == Ok(front + [last]);
      forall i | 0 <= i < |entries|
        ensures ToFrame(entries[i].0).Ok? && ToFrame(entries[i].1).Ok?
        ensures EntryFrames(entries).value[i] == F.Array([ToFrame(entries[i].0).value, ToFrame(entries[i].1).value])
      {
        if i < n {
          assert init[i] == entries[i];
          assert (front + [last])[i] == front[i];
        }
      }
    }
  }

  /** A value whose sequences and maps all have known lengths has a frame tree. */
  lemma FramesOk(v: Value)
    requires Sized(v)
    ensures ToFrame(v).Ok?
  {
    EncodeOk(v);
    EncodeWritesFrame(v);
  }

  // ---------------------------------------------------------------------
  // `to_string` and UTF-8.

  /** A byte string that is not UTF-8 makes `to_string` fail with `Utf8`, although serializing succeeded. */
  lemma NonUtf8BytesFail()
    ensures Encode(Bytes([0xFF])).Ok?
    ensures EncodeToString(Bytes([0xFF])) == Err(Utf8)
  {
    var e := Encode(Bytes([0xFF])).value;
    assert NatText(1) == [ONE];
    assert e == [DOLLAR, ONE, CR, LF, 0xFF, CR, LF];
    assert U.CharWidth(e[4..]) == 0;
    assert !U.Valid(e[4..]);
    assert U.CharWidth(e[3..]) == 1 && e[3..][1..] == e[4..];
    assert !U.Valid(e[3..]);
    assert U.CharWidth(e[2..]) == 1 && e[2..][1..] == e[3..];
    assert !U.Valid(e[2..]);
    assert U.CharWidth(e[1..]) == 1 && e[1..][1..] == e[2..];
    assert !U.Valid(e[1..]);
    assert U.CharWidth(e) == 1;
    assert !U.Valid(e);
  }
}
