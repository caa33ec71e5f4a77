/**
 * The RESP serializer: an append-only byte buffer and one method per
 * serializer callback. Each callback appends to `output` exactly the bytes
 * the `Encoding` module specifies for the value it is handed.
 */
module Ser {
  import opened Ascii
  import opened Decimal
  import opened Errors
  import opened Encoding
  import opened Emitted
  import U = Utf8
  import F = Frames

  /** The length a caller announces when it opens a sequence or map, if it knows it. */
  type LenHint = F.Option<nat>

  /**
   * `after` is `before` followed by the encoding `e` when `e` succeeds, and
   * the outcome `r` says whether it did; on failure `r` carries `e`'s error
   * and what was written before is kept.
   */
  predicate Appended(before: seq<byte>, after: seq<byte>, r: Result<()>, e: Result<seq<byte>>) {
    && (r.Ok? <==> e.Ok?)
    && (r.Ok? ==> after == before + e.value)
    && (r.Err? ==> r.error == e.error && before <= after)
  }

  lemma Assoc(a: seq<byte>, b: seq<byte>, c: seq<byte>)
    ensures a + b + c == a + (b + c)
  {
  }

  /** Writing `prefix` and then appending `e` appends the encoding that puts `prefix` before `e`. */
  lemma AppendedAfter(before: seq<byte>, prefix: seq<byte>, r: Result<()>, e: Result<seq<byte>>,
                      after: seq<byte>, whole: Result<seq<byte>>)
    requires Appended(before + prefix, after, r, e)
    requires whole == if e.Ok? then Ok(prefix + e.value) else e
    ensures Appended(before, after, r, whole)
  {
    if r.Ok? {
      assert after == before + (prefix + e.value);
    } else {
      assert before <= before + prefix;
    }
  }

  class Serializer {
    /** The RESP written so far. */
    var output: seq<byte>

    constructor()
      ensures output == []
    {
      output := [];
    }

    /** Appends to the buffer; writing into memory cannot fail. */
    method Write(bytes: seq<byte>)
      modifies this
      ensures output == old(output) + bytes
    {
      output := output + bytes;
    }

    // -------------------------------------------------------------------
    // Scalars: these never fail.

    /** `false` is written as the integer 0 and `true` as 1. */
    method SerializeBool(v: bool)
      modifies this
      ensures output == old(output) + Encode(Bool(v)).value
    {
      SerializeI64(if v then 1 else 0);
    }

    /** Every signed width is widened to 64 bits and written as `:<decimal>\r\n`. */
    method SerializeI64(v: i64)
      modifies this
      ensures output == old(output) + Encode(Int(v)).value
    {
      Write([COLON]);
      Write(IntText(v));
      Write(CRLF);
    }

    /** Every unsigned width is widened to 64 bits and written as `:<decimal>\r\n`. */
    method SerializeU64(v: u64)
      modifies this
      ensures output == old(output) + Encode(UInt(v)).value
    {
      Write([COLON]);
      Write(IntText(v));
      Write(CRLF);
    }

    /** A character is written as the text of its UTF-8 encoding. */
    method SerializeChar(c: char)
      modifies this
      ensures output == old(output) + Encode(Char(c)).value
    {
      SerializeStr(U.EncodeChar(c));
    }

    /** A simple string when the text holds no CR and no LF byte, a bulk string otherwise. */
    method SerializeStr(t: seq<byte>)
      modifies this
      ensures output == old(output) + EncodeText(t)
    {
      if CR in t || LF in t {
        SerializeBytes(t);
      } else {
        Write([PLUS]);
        Write(t);
        Write(CRLF);
      }
    }

    /** `$<length>\r\n<bytes>\r\n` */
    method SerializeBytes(d: seq<byte>)
      modifies this
      ensures output == old(output) + Encode(Bytes(d)).value
    {
      Write([DOLLAR]);
      Write(NatText(|d|));
      Write(CRLF);
      Write(d);
      Write(CRLF);
    }

    /** `None` is serialized as an empty sequence. */
    method SerializeNone()
      modifies this
      ensures output == old(output) + Encode(None).value
    {
      var r := SerializeSeq(F.Option.Some(0));
      r := End();
    }

    /** The null bulk string. */
    method SerializeUnit()
      modifies this
      ensures output == old(output) + Encode(Unit).value
    {
      Write(NULL_BULK);
    }

    method SerializeUnitStruct()
      modifies this
      ensures output == old(output) + Encode(UnitStruct).value
    {
      SerializeUnit();
    }

    /** A unit variant is its name, written as text. */
    method SerializeUnitVariant(variant: seq<byte>)
      modifies this
      ensures output == old(output) + Encode(UnitVariant(variant)).value
    {
      SerializeStr(variant);
    }

    // -------------------------------------------------------------------
    // Values with values inside them.

    /** `Some(x)` is serialized as the one-element sequence `[x]`. */
    method SerializeSome(x: Value) returns (r: Result<()>)
      modifies this
      decreases x, 3
      ensures Appended(old(output), output, r, Encode(Some(x)))
      ensures output == old(output) + Emit(Some(x))
    {
      r := SerializeSeq(F.Option.Some(1));
      r := SerializeElement(x);
      if r.Ok? {
        r := End();
      }
      SomeEncoding(x);
      AppendedAfter(old(output), ArrayHeader(1), r, Encode(x), output, Encode(Some(x)));
      Assoc(old(output), ArrayHeader(1), Emit(x));
    }

    /** A newtype struct is its content. */
    method SerializeNewtypeStruct(x: Value) returns (r: Result<()>)
      modifies this
      decreases x, 2
      ensures Appended(old(output), output, r, Encode(NewtypeStruct(x)))
      ensures output == old(output) + Emit(NewtypeStruct(x))
    {
      r := Serialize(x);
    }

    /** `[name, value]` */
    method SerializeNewtypeVariant(variant: seq<byte>, x: Value) returns (r: Result<()>)
      modifies this
      decreases x, 2
      ensures Appended(old(output), output, r, Encode(NewtypeVariant(variant, x)))
      ensures output == old(output) + Emit(NewtypeVariant(variant, x))
    {
      Write(ArrayHeader(2));
      SerializeStr(variant);
      Assoc(old(output), ArrayHeader(2), EncodeText(variant));
      r := Serialize(x);
      Assoc(old(output), ArrayHeader(2) + EncodeText(variant), Emit(x));
      NewtypeVariantEncoding(variant, x);
      AppendedAfter(old(output), ArrayHeader(2) + EncodeText(variant), r, Encode(x), output,
                    Encode(NewtypeVariant(variant, x)));
    }

    // -------------------------------------------------------------------
    // Opening a sequence, tuple, map or struct: only the header is written.

    /** Fails with `LenNotKnown`, writing nothing, unless the length is known. */
    method SerializeSeq(len: LenHint) returns (r: Result<()>)
      modifies this
      ensures len.None? ==> r == Err(LenNotKnown) && output == old(output)
      ensures len.Some? ==> r == Ok(()) && output == old(output) + ArrayHeader(len.value)
    {
      if len.None? {
        return Err(LenNotKnown);
      }
      Write([STAR]);
      Write(NatText(len.value));
      Write(CRLF);
      r := Ok(());
    }

    method SerializeTuple(len: nat)
      modifies this
      ensures output == old(output) + ArrayHeader(len)
    {
      var _ := SerializeSeq(F.Option.Some(len));
    }

    method SerializeTupleStruct(len: nat)
      modifies this
      ensures output == old(output) + ArrayHeader(len)
    {
      var _ := SerializeSeq(F.Option.Some(len));
    }

    /** `*2`, the variant name, and then the header of its fields. */
    method SerializeTupleVariant(variant: seq<byte>, len: nat)
      modifies this
      ensures output == old(output) + (ArrayHeader(2) + EncodeText(variant) + ArrayHeader(len))
    {
      Write(ArrayHeader(2));
      SerializeStr(variant);
      var _ := SerializeSeq(F.Option.Some(len));
      Assoc(old(output), ArrayHeader(2), EncodeText(variant));
      Assoc(old(output), ArrayHeader(2) + EncodeText(variant), ArrayHeader(len));
    }

    /** Fails with `LenNotKnown`, writing nothing, unless the length is known. */
    method SerializeMap(len: LenHint) returns (r: Result<()>)
      modifies this
      ensures len.None? ==> r == Err(LenNotKnown) && output == old(output)
      ensures len.Some? ==> r == Ok(()) && output == old(output) + ArrayHeader(len.value)
    {
      if len.None? {
        return Err(LenNotKnown);
      }
      Write([STAR]);
      Write(NatText(len.value));
      Write(CRLF);
      r := Ok(());
    }

    method SerializeStruct(len: nat)
      modifies this
      ensures output == old(output) + ArrayHeader(len)
    {
      var _ := SerializeMap(F.Option.Some(len));
    }

    /** `*2`, the variant name, and then the header of its fields. */
    method SerializeStructVariant(variant: seq<byte>, len: nat)
      modifies this
      ensures output == old(output) + (ArrayHeader(2) + EncodeText(variant) + ArrayHeader(len))
    {
      Write(ArrayHeader(2));
      SerializeStr(variant);
      var _ := SerializeSeq(F.Option.Some(len));
      Assoc(old(output), ArrayHeader(2), EncodeText(variant));
      Assoc(old(output), ArrayHeader(2) + EncodeText(variant), ArrayHeader(len));
    }

    // -------------------------------------------------------------------
    // The parts of an open sequence, tuple, map or struct.

    /** An element of a sequence or tuple, or a field of a tuple struct or tuple variant. */
    method SerializeElement(x: Value) returns (r: Result<()>)
      modifies this
      decreases x, 2
      ensures Appended(old(output), output, r, Encode(x))
      ensures output == old(output) + Emit(x)
    {
      r := Serialize(x);
    }

    /** A map key handed over on its own is dropped: nothing is written. */
    method SerializeKey(key: Value) returns (r: Result<()>)
      ensures r == Ok(()) && output == old(output)
    {
      r := Ok(());
    }

    /** A map value handed over on its own is dropped: nothing is written. */
    method SerializeValue(value: Value) returns (r: Result<()>)
      ensures r == Ok(()) && output == old(output)
    {
      r := Ok(());
    }

    /** A map entry: `*2`, the key, the value. */
    method SerializeEntry(key: Value, value: Value) returns (r: Result<()>)
      modifies this
      decreases (key, value), 2
      ensures Appended(old(output), output, r, EncodeEntry((key, value)))
      ensures output == old(output) + EmitEntry((key, value))
    {
      Write(ArrayHeader(2));
      r := Serialize(key);
      EntryEncoding(key, value);
      ghost var wrote := ArrayHeader(2) + Emit(key);
      Assoc(old(output), ArrayHeader(2), Emit(key));
      if r.Ok? {
        Assoc(old(output), ArrayHeader(2), Encode(key).value);
        r := Serialize(value);
        AppendedAfter(old(output), ArrayHeader(2) + Encode(key).value, r, Encode(value), output,
                      EncodeEntry((key, value)));
        Assoc(old(output), wrote, Emit(value));
        assert EmitEntry((key, value)) == wrote + Emit(value);
      } else {
        AppendedAfter(old(output), ArrayHeader(2), r, Encode(key), output, EncodeEntry((key, value)));
        assert EmitEntry((key, value)) == wrote + [];
      }
    }

    /** A field of a struct or struct variant: `*2`, the field name as text, the value. */
    method SerializeField(key: seq<byte>, value: Value) returns (r: Result<()>)
      modifies this
      decreases value, 2
      ensures Appended(old(output), output, r, EncodeField((key, value)))
      ensures output == old(output) + EmitField((key, value))
    {
      Write(ArrayHeader(2));
      SerializeStr(key);
      Assoc(old(output), ArrayHeader(2), EncodeText(key));
      r := Serialize(value);
      FieldEncoding(key, value);
      AppendedAfter(old(output), ArrayHeader(2) + EncodeText(key), r, Encode(value), output,
                    EncodeField((key, value)));
      Assoc(old(output), ArrayHeader(2) + EncodeText(key), Emit(value));
    }

    /** Closing a sequence, tuple, map or struct writes nothing. */
    method End() returns (r: Result<()>)
      ensures r == Ok(()) && output == old(output)
    {
      r := Ok(());
    }

    /**
     * A map whose `Serialize` impl hands each key and value over separately,
     * through `serialize_key` and `serialize_value`, as serde allows: only the
     * header is written, and every entry is lost.
     */
    method SerializeMapByKeyValue(entries: seq<(Value, Value)>) returns (r: Result<()>)
      modifies this
      ensures r == Ok(()) && output == old(output) + ArrayHeader(|entries|)
    {
      r := SerializeMap(F.Option.Some(|entries|));
      var i := 0;
      while i < |entries|
        invariant 0 <= i <= |entries|
        invariant r == Ok(()) && output == old(output) + ArrayHeader(|entries|)
      {
        r := SerializeKey(entries[i].0);
        r := SerializeValue(entries[i].1);
        i := i + 1;
      }
      r := End();
    }

    // -------------------------------------------------------------------
    // How each shape of value serializes itself: which callbacks it makes,
    // in which order.

    /** Every element in order, stopping at the first that fails. */
    method SerializeElements(items: seq<Value>) returns (r: Result<()>)
      modifies this
      decreases items, 3
      ensures Appended(old(output), output, r, EncodeElements(items))
      ensures output == old(output) + EmitElements(items)
    {
      var i := 0;
      while i < |items|
        invariant 0 <= i <= |items|
        invariant EncodeElements(items[..i]).Ok?
        invariant output == old(output) + EncodeElements(items[..i]).value
      {
        ghost var done := EncodeElements(items[..i]).value;
        r := SerializeElement(items[i]);
        ElementsPrefix(items, i);
        AppendedAfter(old(output), done, r, Encode(items[i]), output, EncodeElements(items[..i + 1]));
        if r.Err? {
          ElementsErr(items, i + 1);
          ElementsEmitOk(items[..i]);
          EmitElementsPrefix(items, i);
          EmitElementsErr(items, i + 1);
          Assoc(old(output), done, Emit(items[i]));
          return;
        }
        i := i + 1;
      }
      assert items[..i] == items;
      ElementsEmitOk(items);
      r := Ok(());
    }

    /** Every entry in order, stopping at the first that fails. */
    method SerializeEntries(entries: seq<(Value, Value)>) returns (r: Result<()>)
      modifies this
      decreases entries, 3
      ensures Appended(old(output), output, r, EncodeEntries(entries))
      ensures output == old(output) + EmitEntries(entries)
    {
      var i := 0;
      while i < |entries|
        invariant 0 <= i <= |entries|
        invariant EncodeEntries(entries[..i]).Ok?
        invariant output == old(output) + EncodeEntries(entries[..i]).value
      {
        ghost var done := EncodeEntries(entries[..i]).value;
        assert (entries[i].0, entries[i].1) == entries[i];
        r := SerializeEntry(entries[i].0, entries[i].1);
        EntriesPrefix(entries, i);
        AppendedAfter(old(output), done, r, EncodeEntry(entries[i]), output, EncodeEntries(entries[..i + 1]));
        if r.Err? {
          EntriesErr(entries, i + 1);
          EntriesEmitOk(entries[..i]);
          EmitEntriesPrefix(entries, i);
          EmitEntriesErr(entries, i + 1);
          Assoc(old(output), done, EmitEntry(entries[i]));
          return;
        }
        i := i + 1;
      }
      assert entries[..i] == entries;
      EntriesEmitOk(entries);
      r := Ok(());
    }

    /** Every field in order, stopping at the first that fails. */
    method SerializeFields(fields: seq<(seq<byte>, Value)>) returns (r: Result<()>)
      modifies this
      decreases fields, 3
      ensures Appended(old(output), output, r, EncodeFields(fields))
      ensures output == old(output) + EmitFields(fields)
    {
      var i := 0;
      while i < |fields|
        invariant 0 <= i <= |fields|
        invariant EncodeFields(fields[..i]).Ok?
        invariant output == old(output) + EncodeFields(fields[..i]).value
      {
        ghost var done := EncodeFields(fields[..i]).value;
        assert (fields[i].0, fields[i].1) == fields[i];
        assert fields[i].1 < fields[i];
        r := SerializeField(fields[i].0, fields[i].1);
        FieldsPrefix(fields, i);
        AppendedAfter(old(output), done, r, EncodeField(fields[i]), output, EncodeFields(fields[..i + 1]));
        if r.Err? {
          FieldsErr(fields, i + 1);
          FieldsEmitOk(fields[..i]);
          EmitFieldsPrefix(fields, i);
          EmitFieldsErr(fields, i + 1);
          Assoc(old(output), done, EmitField(fields[i]));
          return;
        }
        i := i + 1;
      }
      assert fields[..i] == fields;
      FieldsEmitOk(fields);
      r := Ok(());
    }

    /** A sequence opens with its length, if it knows it, then its elements, then closes. */
    method SerializeSeqValue(items: seq<Value>, sized: bool) returns (r: Result<()>)
      modifies this
      decreases items, 4
      ensures Appended(old(output), output, r, Encode(Seq(items, sized)))
      ensures output == old(output) + Emit(Seq(items, sized))
    {
      r := SerializeSeq(if sized then F.Option.Some(|items|) else F.Option.None);
      SeqEncoding(items, sized);
      if r.Ok? {
        r := SerializeElements(items);
        if r.Ok? {
          r := End();
        }
        AppendedAfter(old(output), ArrayHeader(|items|), r, EncodeElements(items), output, Encode(Seq(items, sized)));
        Assoc(old(output), ArrayHeader(|items|), EmitElements(items));
      }
    }

    /** A tuple or tuple struct opens with its length, then its fields, then closes. */
    method SerializeTupleValue(items: seq<Value>, named: bool) returns (r: Result<()>)
      modifies this
      decreases items, 4
      ensures Appended(old(output), output, r, Encode(Tuple(items)))
      ensures output == old(output) + Emit(Tuple(items))
    {
      if named {
        SerializeTupleStruct(|items|);
      } else {
        SerializeTuple(|items|);
      }
      r := SerializeElements(items);
      if r.Ok? {
        r := End();
      }
      TupleEncoding(items);
      SeqEncoding(items, true);
      AppendedAfter(old(output), ArrayHeader(|items|), r, EncodeElements(items), output, Encode(Tuple(items)));
      Assoc(old(output), ArrayHeader(|items|), EmitElements(items));
    }

    /** A tuple variant opens with `*2`, its name and its length, then its fields, then closes. */
    method SerializeTupleVariantValue(name: seq<byte>, items: seq<Value>) returns (r: Result<()>)
      modifies this
      decreases items, 4
      ensures Appended(old(output), output, r, Encode(TupleVariant(name, items)))
      ensures output == old(output) + Emit(TupleVariant(name, items))
    {
      SerializeTupleVariant(name, |items|);
      r := SerializeElements(items);
      if r.Ok? {
        r := End();
      }
      TupleVariantEncoding(name, items);
      AppendedAfter(old(output), ArrayHeader(2) + EncodeText(name) + ArrayHeader(|items|), r,
                    EncodeElements(items), output, Encode(TupleVariant(name, items)));
      Assoc(old(output), ArrayHeader(2) + EncodeText(name) + ArrayHeader(|items|), EmitElements(items));
    }

    /** A map opens with its length, if it knows it, then its entries, then closes. */
    method SerializeMapValue(entries: seq<(Value, Value)>, sized: bool) returns (r: Result<()>)
      modifies this
      decreases entries, 4
      ensures Appended(old(output), output, r, Encode(Map(entries, sized)))
      ensures output == old(output) + Emit(Map(entries, sized))
    {
      r := SerializeMap(if sized then F.Option.Some(|entries|) else F.Option.None);
      MapEncoding(entries, sized);
      if r.Ok? {
        r := SerializeEntries(entries);
        if r.Ok? {
          r := End();
        }
        AppendedAfter(old(output), ArrayHeader(|entries|), r, EncodeEntries(entries), output, Encode(Map(entries, sized)));
        Assoc(old(output), ArrayHeader(|entries|), EmitEntries(entries));
      }
    }

    /** A struct opens with its number of fields, then each field, then closes. */
    method SerializeStructValue(fields: seq<(seq<byte>, Value)>) returns (r: Result<()>)
      modifies this
      decreases fields, 4
      ensures Appended(old(output), output, r, Encode(Struct(fields)))
      ensures output == old(output) + Emit(Struct(fields))
    {
      SerializeStruct(|fields|);
      r := SerializeFields(fields);
      if r.Ok? {
        r := End();
      }
      StructEncoding(fields);
      AppendedAfter(old(output), ArrayHeader(|fields|), r, EncodeFields(fields), output, Encode(Struct(fields)));
      Assoc(old(output), ArrayHeader(|fields|), EmitFields(fields));
    }

    /** A struct variant opens with `*2`, its name and its number of fields, then each field, then closes. */
    method SerializeStructVariantValue(name: seq<byte>, fields: seq<(seq<byte>, Value)>) returns (r: Result<()>)
      modifies this
      decreases fields, 4
      ensures Appended(old(output), output, r, Encode(StructVariant(name, fields)))
      ensures output == old(output) + Emit(StructVariant(name, fields))
    {
      SerializeStructVariant(name, |fields|);
      r := SerializeFields(fields);
      if r.Ok? {
        r := End();
      }
      StructVariantEncoding(name, fields);
      AppendedAfter(old(output), ArrayHeader(2) + EncodeText(name) + ArrayHeader(|fields|), r,
                    EncodeFields(fields), output, Encode(StructVariant(name, fields)));
      Assoc(old(output), ArrayHeader(2) + EncodeText(name) + ArrayHeader(|fields|), EmitFields(fields));
    }

    /**
     * Serializes `v` through the callbacks above: appends exactly `Encode(v)`,
     * or fails with the encoding's error.
     */
    method Serialize(v: Value) returns (r: Result<()>)
      modifies this
      decreases v, 1
      ensures Appended(old(output), output, r, Encode(v))
      ensures output == old(output) + Emit(v)
    {
      match v
      case Bool(b) => SerializeBool(b); r := Ok(());
      case Int(i) => SerializeI64(i); r := Ok(());
      case UInt(u) => SerializeU64(u); r := Ok(());
      case Char(c) => SerializeChar(c); r := Ok(());
      case Str(t) => SerializeStr(t); r := Ok(());
      case Bytes(d) => SerializeBytes(d); r := Ok(());
      case None => SerializeNone(); r := Ok(());
      case Some(x) => r := SerializeSome(x);
      case Unit => SerializeUnit(); r := Ok(());
      case UnitStruct => SerializeUnitStruct(); r := Ok(());
      case UnitVariant(name) => SerializeUnitVariant(name); r := Ok(());
      case NewtypeStruct(x) => r := SerializeNewtypeStruct(x);
      case NewtypeVariant(name, x) => r := SerializeNewtypeVariant(name, x);
      case Seq(items, sized) => r := SerializeSeqValue(items, sized);
      case Tuple(items) => r := SerializeTupleValue(items, false);
      case TupleStruct(items) =>
        r := SerializeTupleValue(items, true);
        TupleEncoding(items);
      case TupleVariant(name, items) => r := SerializeTupleVariantValue(name, items);
      case Map(entries, sized) => r := SerializeMapValue(entries, sized);
      case Struct(fields) => r := SerializeStructValue(fields);
      case StructVariant(name, fields) => r := SerializeStructVariantValue(name, fields);
    }
  }

  /**
   * `to_string`: serializes into a fresh buffer, then accepts the bytes
   * only if they are UTF-8.
   */
  method ToString(v: Value) returns (r: Result<seq<byte>>)
    ensures r == EncodeToString(v)
  {
    var s := new Serializer();
    var e := s.Serialize(v);
    if e.Err? {
      return Err(e.error);
    }
    assert s.output == Encode(v).value;
    if !U.Valid(s.output) {
      return Err(Utf8);
    }
    r := Ok(s.output);
  }
}
