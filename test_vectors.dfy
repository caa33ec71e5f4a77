/**
 * The byte strings the crate's own tests expect from `to_string`. Each
 * expected output is written line by line as bytes (the text of each line
 * in the comment beside it), nested the way the tests' comments lay the
 * frames out; the lemmas derive them from the encoding.
 */
module TestVectors {
  import opened Ascii
  import opened Decimal
  import opened Errors
  import opened Encoding
  import U = Utf8

  // ---------------------------------------------------------------------
  // Names and lines.

  const NAME_INT: seq<byte> := [0x69, 0x6E, 0x74]                      // int
  const NAME_SEQ: seq<byte> := [0x73, 0x65, 0x71]                      // seq
  const NAME_A: seq<byte> := [0x61]                                    // a
  const NAME_B: seq<byte> := [0x62]                                    // b
  const NAME_UNIT: seq<byte> := [0x55, 0x6E, 0x69, 0x74]               // Unit
  const NAME_NEWTYPE: seq<byte> := [0x4E, 0x65, 0x77, 0x74, 0x79, 0x70, 0x65]  // Newtype
  const NAME_TUPLE: seq<byte> := [0x54, 0x75, 0x70, 0x6C, 0x65]        // Tuple
  const NAME_STRUCT: seq<byte> := [0x53, 0x74, 0x72, 0x75, 0x63, 0x74] // Struct

  const ARRAY_1: seq<byte> := [0x2A, 0x31, 0x0D, 0x0A]                 // *1\r\n
  const ARRAY_2: seq<byte> := [0x2A, 0x32, 0x0D, 0x0A]                 // *2\r\n
  const INT_1: seq<byte> := [0x3A, 0x31, 0x0D, 0x0A]                   // :1\r\n
  const INT_2: seq<byte> := [0x3A, 0x32, 0x0D, 0x0A]                   // :2\r\n
  const SIMPLE_INT: seq<byte> := [0x2B, 0x69, 0x6E, 0x74, 0x0D, 0x0A]  // +int\r\n
  const SIMPLE_SEQ: seq<byte> := [0x2B, 0x73, 0x65, 0x71, 0x0D, 0x0A]  // +seq\r\n
  const SIMPLE_A: seq<byte> := [0x2B, 0x61, 0x0D, 0x0A]                // +a\r\n
  const SIMPLE_B: seq<byte> := [0x2B, 0x62, 0x0D, 0x0A]                // +b\r\n
  const SIMPLE_UNIT: seq<byte> := [0x2B, 0x55, 0x6E, 0x69, 0x74, 0x0D, 0x0A]  // +Unit\r\n
  const SIMPLE_NEWTYPE: seq<byte> :=
    [0x2B, 0x4E, 0x65, 0x77, 0x74, 0x79, 0x70, 0x65, 0x0D, 0x0A]      // +Newtype\r\n
  const SIMPLE_TUPLE: seq<byte> := [0x2B, 0x54, 0x75, 0x70, 0x6C, 0x65, 0x0D, 0x0A]  // +Tuple\r\n
  const SIMPLE_STRUCT: seq<byte> :=
    [0x2B, 0x53, 0x74, 0x72, 0x75, 0x63, 0x74, 0x0D, 0x0A]            // +Struct\r\n

  /** Every line above is ASCII. */
  lemma LinesAscii()
    ensures IsAscii(ARRAY_1) && IsAscii(ARRAY_2) && IsAscii(INT_1) && IsAscii(INT_2)
    ensures IsAscii(SIMPLE_INT) && IsAscii(SIMPLE_SEQ) && IsAscii(SIMPLE_A) && IsAscii(SIMPLE_B)
    ensures IsAscii(SIMPLE_UNIT) && IsAscii(SIMPLE_NEWTYPE) && IsAscii(SIMPLE_TUPLE) && IsAscii(SIMPLE_STRUCT)
  {
  }

  // ---------------------------------------------------------------------
  // Small steps shared by the vectors.

  /** A one-digit count: `*<d>\r\n`. */
  lemma HeaderLine(n: nat, line: seq<byte>)
    requires n < 10 && line == [STAR, Digit(n), CR, LF]
    ensures ArrayHeader(n) == line
  {
    assert NatText(n) == [Digit(n)];
  }

  /** A one-digit unsigned integer: `:<d>\r\n`. */
  lemma DigitLine(n: nat, line: seq<byte>)
    requires n < 10 && line == [COLON, Digit(n), CR, LF]
    ensures Encode(UInt(n)) == Ok(line)
  {
    assert IntText(n) == [Digit(n)];
    assert [COLON] + [Digit(n)] + CRLF == line;
  }

  /** Text without line breaks: `+<text>\r\n`. */
  lemma TextLine(t: seq<byte>, line: seq<byte>)
    requires NoLineBreak(t) && line == [PLUS] + t + CRLF
    ensures EncodeText(t) == line && Encode(Str(t)) == Ok(line)
  {
  }

  lemma TwoElements(x: Value, y: Value, ex: seq<byte>, ey: seq<byte>)
    requires Encode(x) == Ok(ex) && Encode(y) == Ok(ey)
    ensures EncodeElements([x, y]) == Ok(ex + ey)
  {
    var items := [x, y];
    ElementsPrefix(items, 0);
    ElementsPrefix(items, 1);
    assert items[..0] == [] && items[..2] == items;
    assert EncodeElements(items[..0]) == Ok([]);
    assert [] + ex == ex;
  }

  lemma OneField(x: (seq<byte>, Value), ex: seq<byte>)
    requires EncodeField(x) == Ok(ex)
    ensures EncodeFields([x]) == Ok(ex)
  {
    var fields := [x];
    FieldsPrefix(fields, 0);
    assert fields[..0] == [] && fields[..1] == fields;
    assert EncodeFields(fields[..0]) == Ok([]);
    assert [] + ex == ex;
  }

  lemma TwoFields(x: (seq<byte>, Value), y: (seq<byte>, Value), ex: seq<byte>, ey: seq<byte>)
    requires EncodeField(x) == Ok(ex) && EncodeField(y) == Ok(ey)
    ensures EncodeFields([x, y]) == Ok(ex + ey)
  {
    var fields := [x, y];
    OneField(x, ex);
    FieldsPrefix(fields, 1);
    assert fields[..1] == [x] && fields[..2] == fields;
  }

  /** When serializing gives UTF-8 bytes, `to_string` returns exactly those bytes. */
  lemma ValidToString(v: Value, out: seq<byte>)
    requires Encode(v) == Ok(out) && U.Valid(out)
    ensures EncodeToString(v) == Ok(out)
  {
  }

  lemma AsciiConcat3(a: seq<byte>, b: seq<byte>, c: seq<byte>)
    requires IsAscii(a) && IsAscii(b) && IsAscii(c)
    ensures IsAscii(a + b + c)
  {
    AsciiConcat(a, b);
    AsciiConcat(a + b, c);
  }

  // ---------------------------------------------------------------------
  // `test_struct`: `Test { int: 1, seq: vec!["a", "b"] }`.

  function TestStruct(): Value {
    Struct([(NAME_INT, UInt(1)), (NAME_SEQ, Seq([Str(NAME_A), Str(NAME_B)], true))])
  }

  /**
   * `*2\r\n*2\r\n+int\r\n:1\r\n*2\r\n+seq\r\n*2\r\n+a\r\n+b\r\n`, that is
   * `[[int, 1], [seq, [a, b]]]`.
   */
  const STRUCT_OUT: seq<byte> :=
    ARRAY_2
    + ((ARRAY_2 + SIMPLE_INT + INT_1)
       + (ARRAY_2 + SIMPLE_SEQ + (ARRAY_2 + (SIMPLE_A + SIMPLE_B))))

  lemma TestStructSeq()
    ensures Encode(Seq([Str(NAME_A), Str(NAME_B)], true)) == Ok(ARRAY_2 + (SIMPLE_A + SIMPLE_B))
  {
    TextLine(NAME_A, SIMPLE_A);
    TextLine(NAME_B, SIMPLE_B);
    TwoElements(Str(NAME_A), Str(NAME_B), SIMPLE_A, SIMPLE_B);
    HeaderLine(2, ARRAY_2);
    SeqEncoding([Str(NAME_A), Str(NAME_B)], true);
  }

  lemma TestStructFields()
    ensures EncodeFields([(NAME_INT, UInt(1)), (NAME_SEQ, Seq([Str(NAME_A), Str(NAME_B)], true))])
         == Ok((ARRAY_2 + SIMPLE_INT + INT_1) + (ARRAY_2 + SIMPLE_SEQ + (ARRAY_2 + (SIMPLE_A + SIMPLE_B))))
  {
    var s := Seq([Str(NAME_A), Str(NAME_B)], true);
    HeaderLine(2, ARRAY_2);
    TextLine(NAME_INT, SIMPLE_INT);
    DigitLine(1, INT_1);
    FieldEncoding(NAME_INT, UInt(1));
    TextLine(NAME_SEQ, SIMPLE_SEQ);
    TestStructSeq();
    FieldEncoding(NAME_SEQ, s);
    TwoFields((NAME_INT, UInt(1)), (NAME_SEQ, s),
      ARRAY_2 + SIMPLE_INT + INT_1, ARRAY_2 + SIMPLE_SEQ + (ARRAY_2 + (SIMPLE_A + SIMPLE_B)));
  }

  lemma StructOutAscii()
    ensures U.Valid(STRUCT_OUT)
  {
    LinesAscii();
    AsciiConcat(SIMPLE_A, SIMPLE_B);
    AsciiConcat(ARRAY_2, SIMPLE_A + SIMPLE_B);
    AsciiConcat3(ARRAY_2, SIMPLE_SEQ, ARRAY_2 + (SIMPLE_A + SIMPLE_B));
    AsciiConcat3(ARRAY_2, SIMPLE_INT, INT_1);
    AsciiConcat(ARRAY_2 + SIMPLE_INT + INT_1, ARRAY_2 + SIMPLE_SEQ + (ARRAY_2 + (SIMPLE_A + SIMPLE_B)));
    AsciiConcat(ARRAY_2, (ARRAY_2 + SIMPLE_INT + INT_1) + (ARRAY_2 + SIMPLE_SEQ + (ARRAY_2 + (SIMPLE_A + SIMPLE_B))));
    U.AsciiValid(STRUCT_OUT);
  }

  /** `to_string(&test)` gives the bytes `test_struct` expects. */
  lemma StructTestVector()
    ensures EncodeToString(TestStruct()) == Ok(STRUCT_OUT)
  {
    TestStructFields();
    HeaderLine(2, ARRAY_2);
    StructEncoding([(NAME_INT, UInt(1)), (NAME_SEQ, Seq([Str(NAME_A), Str(NAME_B)], true))]);
    StructOutAscii();
    ValidToString(TestStruct(), STRUCT_OUT);
  }

  // ---------------------------------------------------------------------
  // `test_enum`: `enum E { Unit, Newtype(u32), Tuple(u32, u32), Struct { a: u32 } }`.

  lemma UnitOutAscii()
    ensures U.Valid(SIMPLE_UNIT)
  {
    LinesAscii();
    U.AsciiValid(SIMPLE_UNIT);
  }

  lemma UnitVariantBytes()
    ensures Encode(UnitVariant(NAME_UNIT)) == Ok(SIMPLE_UNIT)
  {
    TextLine(NAME_UNIT, SIMPLE_UNIT);
  }

  /** `to_string(&E::Unit)` is `+Unit\r\n`. */
  lemma UnitVariantTestVector()
    ensures EncodeToString(UnitVariant(NAME_UNIT)) == Ok(SIMPLE_UNIT)
  {
    UnitVariantBytes();
    UnitOutAscii();
    ValidToString(UnitVariant(NAME_UNIT), SIMPLE_UNIT);
  }

  /** `*2\r\n+Newtype\r\n:1\r\n`, that is `[Newtype, 1]`. */
  const NEWTYPE_OUT: seq<byte> := ARRAY_2 + SIMPLE_NEWTYPE + INT_1

  /**
   * `E::Newtype(1)` gives the bytes the crate's test names for it (the
   * test's assertion for this case is commented out).
   */
  lemma NewtypeVariantTestVector()
    ensures EncodeToString(NewtypeVariant(NAME_NEWTYPE, UInt(1))) == Ok(NEWTYPE_OUT)
  {
    HeaderLine(2, ARRAY_2);
    TextLine(NAME_NEWTYPE, SIMPLE_NEWTYPE);
    DigitLine(1, INT_1);
    NewtypeVariantEncoding(NAME_NEWTYPE, UInt(1));
    LinesAscii();
    AsciiConcat3(ARRAY_2, SIMPLE_NEWTYPE, INT_1);
    U.AsciiValid(NEWTYPE_OUT);
    ValidToString(NewtypeVariant(NAME_NEWTYPE, UInt(1)), NEWTYPE_OUT);
  }

  /** `*2\r\n+Tuple\r\n*2\r\n:1\r\n:2\r\n`, that is `[Tuple, [1, 2]]`. */
  const TUPLE_OUT: seq<byte> := ARRAY_2 + SIMPLE_TUPLE + ARRAY_2 + (INT_1 + INT_2)

  lemma TupleOutAscii()
    ensures U.Valid(TUPLE_OUT)
  {
    LinesAscii();
    AsciiConcat3(ARRAY_2, SIMPLE_TUPLE, ARRAY_2);
    AsciiConcat(INT_1, INT_2);
    AsciiConcat(ARRAY_2 + SIMPLE_TUPLE + ARRAY_2, INT_1 + INT_2);
    U.AsciiValid(TUPLE_OUT);
  }

  /** `to_string(&E::Tuple(1, 2))` gives the bytes `test_enum` expects. */
  lemma TupleVariantTestVector()
    ensures EncodeToString(TupleVariant(NAME_TUPLE, [UInt(1), UInt(2)])) == Ok(TUPLE_OUT)
  {
    HeaderLine(2, ARRAY_2);
    TextLine(NAME_TUPLE, SIMPLE_TUPLE);
    DigitLine(1, INT_1);
    DigitLine(2, INT_2);
    TwoElements(UInt(1), UInt(2), INT_1, INT_2);
    TupleVariantEncoding(NAME_TUPLE, [UInt(1), UInt(2)]);
    TupleOutAscii();
    ValidToString(TupleVariant(NAME_TUPLE, [UInt(1), UInt(2)]), TUPLE_OUT);
  }

  /**
   * `*2\r\n+Struct\r\n*1\r\n*2\r\n+a\r\n:1\r\n`, that is
   * `[Struct, [[a, 1]]]`.
   */
  const STRUCT_VARIANT_OUT: seq<byte> := ARRAY_2 + SIMPLE_STRUCT + ARRAY_1 + (ARRAY_2 + SIMPLE_A + INT_1)

  lemma StructVariantOutAscii()
    ensures U.Valid(STRUCT_VARIANT_OUT)
  {
    LinesAscii();
    AsciiConcat3(ARRAY_2, SIMPLE_STRUCT, ARRAY_1);
    AsciiConcat3(ARRAY_2, SIMPLE_A, INT_1);
    AsciiConcat(ARRAY_2 + SIMPLE_STRUCT + ARRAY_1, ARRAY_2 + SIMPLE_A + INT_1);
    U.AsciiValid(STRUCT_VARIANT_OUT);
  }

  /** `to_string(&E::Struct { a: 1 })` gives the bytes `test_enum` expects. */
  lemma StructVariantTestVector()
    ensures EncodeToString(StructVariant(NAME_STRUCT, [(NAME_A, UInt(1))])) == Ok(STRUCT_VARIANT_OUT)
  {
    HeaderLine(2, ARRAY_2);
    HeaderLine(1, ARRAY_1);
    TextLine(NAME_STRUCT, SIMPLE_STRUCT);
    TextLine(NAME_A, SIMPLE_A);
    DigitLine(1, INT_1);
    FieldEncoding(NAME_A, UInt(1));
    OneField((NAME_A, UInt(1)), ARRAY_2 + SIMPLE_A + INT_1);
    StructVariantEncoding(NAME_STRUCT, [(NAME_A, UInt(1))]);
    StructVariantOutAscii();
    ValidToString(StructVariant(NAME_STRUCT, [(NAME_A, UInt(1))]), STRUCT_VARIANT_OUT);
  }
}
