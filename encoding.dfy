/**
 * What the RESP serializer writes for each shape of value: the
 * specification that the `Serializer` class's methods are checked against.
 */
module Encoding {
  import opened Ascii
  import opened Decimal
  import opened Errors
  import U = Utf8
  import F = Frames

  type i64 = x: int | -0x8000_0000_0000_0000 <= x < 0x8000_0000_0000_0000
  type u64 = x: int | 0 <= x < 0x1_0000_0000_0000_0000

  /**
   * The shapes a value can take, one per serializer callback. Text (`Str`,
   * variant names, struct field names) is carried as its UTF-8 bytes. A
   * sequence or map records whether its length was known when it was
   * opened; when it was, the count written is the number of its elements.
   * Type names and variant indices are not written, so they are not kept.
   */
  datatype Value =
    | Bool(b: bool)
    | Int(i: i64)
    | UInt(u: u64)
    | Char(c: char)
    | Str(text: seq<byte>)
    | Bytes(data: seq<byte>)
    | None
    | Some(inner: Value)
    | Unit
    | UnitStruct
    | UnitVariant(variant: seq<byte>)
    | NewtypeStruct(inner: Value)
    | NewtypeVariant(variant: seq<byte>, inner: Value)
    | Seq(items: seq<Value>, sized: bool)
    | Tuple(items: seq<Value>)
    | TupleStruct(items: seq<Value>)
    | TupleVariant(variant: seq<byte>, items: seq<Value>)
    | Map(entries: seq<(Value, Value)>, sized: bool)
    | Struct(fields: seq<(seq<byte>, Value)>)
    | StructVariant(variant: seq<byte>, fields: seq<(seq<byte>, Value)>)

  // ---------------------------------------------------------------------
  // The frames the serializer writes, byte by byte.

  /** `:<decimal>\r\n` */
  function IntegerLine(n: int): seq<byte> {
    [COLON] + IntText(n) + CRLF
  }

  /** `$<length>\r\n<data>\r\n` */
  function BulkString(data: seq<byte>): seq<byte> {
    [DOLLAR] + NatText(|data|) + CRLF + data + CRLF
  }

  /** `$-1\r\n` */
  const NULL_BULK: seq<byte> := [DOLLAR, MINUS, ONE, CR, LF]

  /** `*<count>\r\n` */
  function ArrayHeader(count: nat): seq<byte> {
    [STAR] + NatText(count) + CRLF
  }

  /** Text: a simple string unless it holds a CR or LF byte, then a bulk string. */
  function EncodeText(t: seq<byte>): seq<byte> {
    if NoLineBreak(t) then [PLUS] + t + CRLF else BulkString(t)
  }

  // ---------------------------------------------------------------------
  // The encoding of a whole value.

  function Encode(v: Value): Result<seq<byte>>
    decreases v, 0
  {
    match v
    case Bool(b) => Ok(IntegerLine(if b then 1 else 0))
    case Int(i) => Ok(IntegerLine(i))
    case UInt(u) => Ok(IntegerLine(u))
    case Char(c) => Ok(EncodeText(U.EncodeChar(c)))
    case Str(t) => Ok(EncodeText(t))
    case Bytes(d) => Ok(BulkString(d))
    case None => Ok(ArrayHeader(0))
    case Some(x) =>
      var e :- Encode(x);
      Ok(ArrayHeader(1) + e)
    case Unit => Ok(NULL_BULK)
    case UnitStruct => Ok(NULL_BULK)
    case UnitVariant(name) => Ok(EncodeText(name))
    case NewtypeStruct(x) => Encode(x)
    case NewtypeVariant(name, x) =>
      var e :- Encode(x);
      Ok(ArrayHeader(2) + EncodeText(name) + e)
    case Seq(items, sized) =>
      if !sized then Err(LenNotKnown)
      else
        var e :- EncodeElements(items);
        Ok(ArrayHeader(|items|) + e)
    case Tuple(items) =>
      var e :- EncodeElements(items);
      Ok(ArrayHeader(|items|) + e)
    case TupleStruct(items) =>
      var e :- EncodeElements(items);
      Ok(ArrayHeader(|items|) + e)
    case TupleVariant(name, items) =>
      var e :- EncodeElements(items);
      Ok(ArrayHeader(2) + EncodeText(name) + ArrayHeader(|items|) + e)
    case Map(entries, sized) =>
      if !sized then Err(LenNotKnown)
      else
        var e :- EncodeEntries(entries);
        Ok(ArrayHeader(|entries|) + e)
    case Struct(fields) =>
      var e :- EncodeFields(fields);
      Ok(ArrayHeader(|fields|) + e)
    case StructVariant(name, fields) =>
      var e :- EncodeFields(fields);
      Ok(ArrayHeader(2) + EncodeText(name) + ArrayHeader(|fields|) + e)
  }

  /** The elements of a sequence or tuple, one after the other. */
  function EncodeElements(items: seq<Value>): Result<seq<byte>>
    decreases items, 0
  {
    if items == [] then Ok([])
    else
      var front :- EncodeElements(items[..|items| - 1]);
      var last :- Encode(items[|items| - 1]);
      Ok(front + last)
  }

  /** One map entry: `*2\r\n`, the key, the value. */
  function EncodeEntry(entry: (Value, Value)): Result<seq<byte>>
    decreases entry, 0
  {
    var k :- Encode(entry.0);
    var v :- Encode(entry.1);
    Ok(ArrayHeader(2) + k + v)
  }

  function EncodeEntries(entries: seq<(Value, Value)>): Result<seq<byte>>
    decreases entries, 0
  {
    if entries == [] then Ok([])
    else
      var front :- EncodeEntries(entries[..|entries| - 1]);
      var last :- EncodeEntry(entries[|entries| - 1]);
      Ok(front + last)
  }

  /** One struct field: `*2\r\n`, the field name as text, the value. */
  function EncodeField(field: (seq<byte>, Value)): Result<seq<byte>>
    decreases field, 0
  {
    var v :- Encode(field.1);
    Ok(ArrayHeader(2) + EncodeText(field.0) + v)
  }

  function EncodeFields(fields: seq<(seq<byte>, Value)>): Result<seq<byte>>
    decreases fields, 0
  {
    if fields == [] then Ok([])
    else
      var front :- EncodeFields(fields[..|fields| - 1]);
      var last :- EncodeField(fields[|fields| - 1]);
      Ok(front + last)
  }

  // ---------------------------------------------------------------------
  // When encoding fails.

  /** Every sequence and map inside `v` had a known length when it was opened. */
  predicate Sized(v: Value)
    decreases v, 1
  {
    match v
    case Some(x) => Sized(x)
    case NewtypeStruct(x) => Sized(x)
    case NewtypeVariant(_, x) => Sized(x)
    case Seq(items, sized) => sized && ElementsSized(items)
    case Tuple(items) => ElementsSized(items)
    case TupleStruct(items) => ElementsSized(items)
    case TupleVariant(_, items) => ElementsSized(items)
    case Map(entries, sized) => sized && EntriesSized(entries)
    case Struct(fields) => FieldsSized(fields)
    case StructVariant(_, fields) => FieldsSized(fields)
    case _ => true
  }

  predicate ElementsSized(items: seq<Value>)
    decreases items, 0
  {
    forall i :: 0 <= i < |items| ==> Sized(items[i])
  }

  predicate EntrySized(entry: (Value, Value))
    decreases entry, 0
  {
    Sized(entry.0) && Sized(entry.1)
  }

  predicate EntriesSized(entries: seq<(Value, Value)>)
    decreases entries, 0
  {
    forall i :: 0 <= i < |entries| ==> EntrySized(entries[i])
  }

  predicate FieldSized(field: (seq<byte>, Value))
    decreases field, 0
  {
    Sized(field.1)
  }

  predicate FieldsSized(fields: seq<(seq<byte>, Value)>)
    decreases fields, 0
  {
    forall i :: 0 <= i < |fields| ==> FieldSized(fields[i])
  }

  /**
   * Encoding fails exactly when some sequence or map inside the value was
   * opened without a length, and then it fails with `LenNotKnown`.
   */
  lemma {:induction false} EncodeOk(v: Value)
    ensures Encode(v).Ok? <==> Sized(v)
    ensures Encode(v).Err? ==> Encode(v).error == LenNotKnown
    decreases v
  {
    if Scalar(v) {
      ScalarOk(v);
    } else if v.Seq? || v.Tuple? || v.TupleStruct? {
      ElementsOk(v.items);
      SeqOk(v);
    } else {
      match v
      case Some(x) => EncodeOk(x);
      case NewtypeStruct(x) => EncodeOk(x);
      case NewtypeVariant(_, x) => EncodeOk(x);
      case TupleVariant(_, items) => ElementsOk(items);
      case Map(entries, _) => EntriesOk(entries);
      case Struct(fields) => FieldsOk(fields);
      case StructVariant(_, fields) => FieldsOk(fields);
    }
  }

  /** The values with no value inside them. */
  predicate Scalar(v: Value) {
    !(v.Some? || v.NewtypeStruct? || v.NewtypeVariant? || v.Seq? || v.Tuple? || v.TupleStruct?
      || v.TupleVariant? || v.Map? || v.Struct? || v.StructVariant?)
  }

  lemma ScalarOk(v: Value)
    requires Scalar(v)
    ensures Encode(v).Ok? && Sized(v)
  {
  }

  lemma SeqOk(v: Value)
    requires v.Seq? || v.Tuple? || v.TupleStruct?
    requires EncodeElements(v.items).Ok? <==> ElementsSized(v.items)
    requires EncodeElements(v.items).Err? ==> EncodeElements(v.items).error == LenNotKnown
    ensures Encode(v).Ok? <==> Sized(v)
    ensures Encode(v).Err? ==> Encode(v).error == LenNotKnown
  {
  }

  /** Appending one more encoded part fails exactly when either part does, with the first error. */
  lemma SnocOk(init: Result<seq<byte>>, last: Result<seq<byte>>)
    ensures var r := (var f :- init; var l :- last; Ok(f + l));
      && (r.Ok? <==> init.Ok? && last.Ok?)
      && (r.Err? ==> r.error == if init.Err? then init.error else last.error)
  {
  }

  lemma ElementsSizedSnoc(items: seq<Value>)
    requires items != []
    ensures ElementsSized(items) <==> ElementsSized(items[..|items| - 1]) && Sized(items[|items| - 1])
  {
    var init := items[..|items| - 1];
    assert forall i :: 0 <= i < |init| ==> init[i] == items[i];
  }

  lemma {:induction false} ElementsOk(items: seq<Value>)
    ensures EncodeElements(items).Ok? <==> ElementsSized(items)
    ensures EncodeElements(items).Err? ==> EncodeElements(items).error == LenNotKnown
    decreases items
  {
    if items != [] {
      var n := |items| - 1;
      ElementsOk(items[..n]);
      EncodeOk(items[n]);
      SnocOk(EncodeElements(items[..n]), Encode(items[n]));
      ElementsSizedSnoc(items);
    }
  }

  lemma {:induction false} EntryOk(entry: (Value, Value))
    ensures EncodeEntry(entry).Ok? <==> EntrySized(entry)
    ensures EncodeEntry(entry).Err? ==> EncodeEntry(entry).error == LenNotKnown
    decreases entry
  {
    EncodeOk(entry.0);
    EncodeOk(entry.1);
  }

  lemma {:induction false} FieldOk(field: (seq<byte>, Value))
    ensures EncodeField(field).Ok? <==> FieldSized(field)
    ensures EncodeField(field).Err? ==> EncodeField(field).error == LenNotKnown
    decreases field
  {
    EncodeOk(field.1);
  }

  lemma EntriesSizedSnoc(entries: seq<(Value, Value)>)
    requires entries != []
    ensures EntriesSized(entries) <==> EntriesSized(entries[..|entries| - 1]) && EntrySized(entries[|entries| - 1])
  {
    var init := entries[..|entries| - 1];
    assert forall i :: 0 <= i < |init| ==> init[i] == entries[i];
  }

  lemma {:induction false} EntriesOk(entries: seq<(Value, Value)>)
    ensures EncodeEntries(entries).Ok? <==> EntriesSized(entries)
    ensures EncodeEntries(entries).Err? ==> EncodeEntries(entries).error == LenNotKnown
    decreases entries
  {
    if entries != [] {
      var n := |entries| - 1;
      EntriesOk(entries[..n]);
      EntryOk(entries[n]);
      SnocOk(EncodeEntries(entries[..n]), EncodeEntry(entries[n]));
      EntriesSizedSnoc(entries);
    }
  }

  lemma FieldsSizedSnoc(fields: seq<(seq<byte>, Value)>)
    requires fields != []
    ensures FieldsSized(fields) <==> FieldsSized(fields[..|fields| - 1]) && FieldSized(fields[|fields| - 1])
  {
    var init := fields[..|fields| - 1];
    assert forall i :: 0 <= i < |init| ==> init[i] == fields[i];
  }

  lemma {:induction false} FieldsOk(fields: seq<(seq<byte>, Value)>)
    ensures EncodeFields(fields).Ok? <==> FieldsSized(fields)
    ensures EncodeFields(fields).Err? ==> EncodeFields(fields).error == LenNotKnown
    decreases fields
  {
    if fields != [] {
      var n := |fields| - 1;
      FieldsOk(fields[..n]);
      FieldOk(fields[n]);
      SnocOk(EncodeFields(fields[..n]), EncodeField(fields[n]));
      FieldsSizedSnoc(fields);
    }
  }

  // ---------------------------------------------------------------------
  // The frame tree each value maps to.

  /** Text is a simple string when it is a single line, a bulk string otherwise. */
  function TextFrame(t: seq<byte>): (f: F.Frame)
    ensures F.WellFormed(f)
  {
    if NoLineBreak(t) then F.Simple(t) else F.Bulk(t)
  }

  /**
   * The canonical frame of each shape: `None` an empty array, `Some(v)` a
   * one-element array, unit the null bulk string, a unit variant its name,
   * a compound variant `[name, payload]`, a map or struct an array of
   * `[key, value]` pairs. Every frame it builds is well-formed.
   */
  function ToFrame(v: Value): (r: Result<F.Frame>)
    ensures r.Ok? ==> F.WellFormed(r.value)
    decreases v, 0
  {
    match v
    case Bool(b) => Ok(F.Integer(if b then 1 else 0))
    case Int(i) => Ok(F.Integer(i))
    case UInt(u) => Ok(F.Integer(u))
    case Char(c) => Ok(TextFrame(U.EncodeChar(c)))
    case Str(t) => Ok(TextFrame(t))
    case Bytes(d) => Ok(F.Bulk(d))
    case None => Ok(F.Array([]))
    case Some(x) =>
      var f :- ToFrame(x);
      Ok(F.Array([f]))
    case Unit => Ok(F.Null)
    case UnitStruct => Ok(F.Null)
    case UnitVariant(name) => Ok(TextFrame(name))
    case NewtypeStruct(x) => ToFrame(x)
    case NewtypeVariant(name, x) =>
      var f :- ToFrame(x);
      Ok(F.Array([TextFrame(name), f]))
    case Seq(items, sized) =>
      if !sized then Err(LenNotKnown)
      else
        var fs :- ToFrames(items);
        Ok(F.Array(fs))
    case Tuple(items) =>
      var fs :- ToFrames(items);
      Ok(F.Array(fs))
    case TupleStruct(items) =>
      var fs :- ToFrames(items);
      Ok(F.Array(fs))
    case TupleVariant(name, items) =>
      var fs :- ToFrames(items);
      Ok(F.Array([TextFrame(name), F.Array(fs)]))
    case Map(entries, sized) =>
      if !sized then Err(LenNotKnown)
      else
        var fs :- EntryFrames(entries);
        Ok(F.Array(fs))
    case Struct(fields) =>
      var fs :- FieldFrames(fields);
      Ok(F.Array(fs))
    case StructVariant(name, fields) =>
      var fs :- FieldFrames(fields);
      Ok(F.Array([TextFrame(name), F.Array(fs)]))
  }

  /** One frame per element, in order. */
  function ToFrames(items: seq<Value>): (r: Result<seq<F.Frame>>)
    ensures r.Ok? ==> |r.value| == |items| && forall i :: 0 <= i < |items| ==> F.WellFormed(r.value[i])
    decreases items, 0
  {
    if items == [] then Ok([])
    else
      var front :- ToFrames(items[..|items| - 1]);
      var last :- ToFrame(items[|items| - 1]);
      Ok(front + [last])
  }

  function EntryFrame(entry: (Value, Value)): (r: Result<F.Frame>)
    ensures r.Ok? ==> F.WellFormed(r.value)
    decreases entry, 0
  {
    var k :- ToFrame(entry.0);
    var v :- ToFrame(entry.1);
    Ok(F.Array([k, v]))
  }

  function EntryFrames(entries: seq<(Value, Value)>): (r: Result<seq<F.Frame>>)
    ensures r.Ok? ==> |r.value| == |entries| && forall i :: 0 <= i < |entries| ==> F.WellFormed(r.value[i])
    decreases entries, 0
  {
    if entries == [] then Ok([])
    else
      var front :- EntryFrames(entries[..|entries| - 1]);
      var last :- EntryFrame(entries[|entries| - 1]);
      Ok(front + [last])
  }

  function FieldFrame(field: (seq<byte>, Value)): (r: Result<F.Frame>)
    ensures r.Ok? ==> F.WellFormed(r.value)
    decreases field, 0
  {
    var v :- ToFrame(field.1);
    Ok(F.Array([TextFrame(field.0), v]))
  }

  function FieldFrames(fields: seq<(seq<byte>, Value)>): (r: Result<seq<F.Frame>>)
    ensures r.Ok? ==> |r.value| == |fields| && forall i :: 0 <= i < |fields| ==> F.WellFormed(r.value[i])
    decreases fields, 0
  {
    if fields == [] then Ok([])
    else
      var front :- FieldFrames(fields[..|fields| - 1]);
      var last :- FieldFrame(fields[|fields| - 1]);
      Ok(front + [last])
  }

  // ---------------------------------------------------------------------
  // The bytes written are the frame tree, written out.

  function Written(r: Result<F.Frame>): Result<seq<byte>> {
    match r
    case Ok(f) => Ok(F.Write(f))
    case Err(e) => Err(e)
  }

  function WrittenAll(r: Result<seq<F.Frame>>): Result<seq<byte>> {
    match r
    case Ok(fs) => Ok(F.WriteAll(fs))
    case Err(e) => Err(e)
  }

  lemma TextWritten(t: seq<byte>)
    ensures EncodeText(t) == F.Write(TextFrame(t))
  {
  }

  /** An array frame is its header followed by its items. */
  lemma ArrayWritten(fs: seq<F.Frame>)
    ensures F.Write(F.Array(fs)) == ArrayHeader(|fs|) + F.WriteAll(fs)
  {
  }

  lemma PairWritten(a: F.Frame, b: F.Frame)
    ensures F.Write(F.Array([a, b])) == ArrayHeader(2) + F.Write(a) + F.Write(b)
  {
    assert [a, b][1..] == [b];
    assert [b][1..] == [];
    assert F.WriteAll([b]) == F.Write(b) + F.WriteAll([]) == F.Write(b);
    assert F.WriteAll([a, b]) == F.Write(a) + F.WriteAll([b]);
  }

  /** `*n` followed by `n` encoded items is the array of their frames. */
  lemma ArrayOfWritten(e: Result<seq<byte>>, fs: Result<seq<F.Frame>>, n: nat)
    requires e == WrittenAll(fs) && (fs.Ok? ==> |fs.value| == n)
    ensures (var b :- e; Ok(ArrayHeader(n) + b)) == Written(var x :- fs; Ok(F.Array(x)))
  {
    if fs.Ok? {
      ArrayWritten(fs.value);
    }
  }

  /** `[name, payload]` with the payload an array of `n` items. */
  lemma VariantOfWritten(name: seq<byte>, e: Result<seq<byte>>, fs: Result<seq<F.Frame>>, n: nat)
    requires e == WrittenAll(fs) && (fs.Ok? ==> |fs.value| == n)
    ensures (var b :- e; Ok(ArrayHeader(2) + EncodeText(name) + ArrayHeader(n) + b))
         == Written(var x :- fs; Ok(F.Array([TextFrame(name), F.Array(x)])))
  {
    TextWritten(name);
    if fs.Ok? {
      var h, t, p := ArrayHeader(2), EncodeText(name), ArrayHeader(n) + F.WriteAll(fs.value);
      ArrayWritten(fs.value);
      PairWritten(TextFrame(name), F.Array(fs.value));
      assert h + t + ArrayHeader(n) + F.WriteAll(fs.value) == h + t + p;
    }
  }

  /** `[name, value]` */
  lemma NamedWritten(name: seq<byte>, e: Result<seq<byte>>, f: Result<F.Frame>)
    requires e == Written(f)
    ensures (var b :- e; Ok(ArrayHeader(2) + EncodeText(name) + b))
         == Written(var x :- f; Ok(F.Array([TextFrame(name), x])))
  {
    TextWritten(name);
    if f.Ok? {
      PairWritten(TextFrame(name), f.value);
    }
  }

  lemma SingletonWritten(e: Result<seq<byte>>, f: Result<F.Frame>)
    requires e == Written(f)
    ensures (var b :- e; Ok(ArrayHeader(1) + b)) == Written(var x :- f; Ok(F.Array([x])))
  {
    if f.Ok? {
      var x := f.value;
      assert [x][1..] == [];
      assert F.WriteAll([x]) == F.Write(x) + [] == F.Write(x);
      ArrayWritten([x]);
    }
  }

  lemma ScalarWritesFrame(v: Value)
    requires Scalar(v)
    ensures Encode(v) == Written(ToFrame(v))
  {
    match v
    case Char(c) => TextWritten(U.EncodeChar(c));
    case Str(t) => TextWritten(t);
    case UnitVariant(name) => TextWritten(name);
    case None =>
      ArrayWritten([]);
      assert ArrayHeader(0) + [] == ArrayHeader(0);
    case Unit =>
      assert NULL_BULK == F.Header(DOLLAR, [MINUS, ONE]);
    case UnitStruct =>
      assert NULL_BULK == F.Header(DOLLAR, [MINUS, ONE]);
    case Bytes(d) =>
      assert BulkString(d) == F.Header(DOLLAR, NatText(|d|)) + d + CRLF;
    case _ =>
  }

  lemma SeqWritesFrame(v: Value)
    requires v.Seq? || v.Tuple? || v.TupleStruct?
    requires EncodeElements(v.items) == WrittenAll(ToFrames(v.items))
    ensures Encode(v) == Written(ToFrame(v))
  {
    if !v.Seq? || v.sized {
      ArrayOfWritten(EncodeElements(v.items), ToFrames(v.items), |v.items|);
    }
  }

  /**
   * The serializer's bytes are exactly the canonical frame tree of the value,
   * written out, and encoding fails exactly when building that tree does.
   */
  lemma {:induction false} EncodeWritesFrame(v: Value)
    ensures Encode(v) == Written(ToFrame(v))
    decreases v
  {
    if Scalar(v) {
      ScalarWritesFrame(v);
    } else if v.Seq? || v.Tuple? || v.TupleStruct? {
      ElementsWriteFrames(v.items);
      SeqWritesFrame(v);
    } else {
      match v
      case Some(x) =>
        EncodeWritesFrame(x);
        SingletonWritten(Encode(x), ToFrame(x));
      case NewtypeStruct(x) => EncodeWritesFrame(x);
      case NewtypeVariant(name, x) =>
        EncodeWritesFrame(x);
        NamedWritten(name, Encode(x), ToFrame(x));
      case TupleVariant(name, items) =>
        ElementsWriteFrames(items);
        VariantOfWritten(name, EncodeElements(items), ToFrames(items), |items|);
      case Map(entries, sized) =>
        EntriesWriteFrames(entries);
        if sized {
          ArrayOfWritten(EncodeEntries(entries), EntryFrames(entries), |entries|);
        }
      case Struct(fields) =>
        FieldsWriteFrames(fields);
        ArrayOfWritten(EncodeFields(fields), FieldFrames(fields), |fields|);
      case StructVariant(name, fields) =>
        FieldsWriteFrames(fields);
        VariantOfWritten(name, EncodeFields(fields), FieldFrames(fields), |fields|);
    }
  }

  lemma {:induction false} ElementsWriteFrames(items: seq<Value>)
    ensures EncodeElements(items) == WrittenAll(ToFrames(items))
    decreases items
  {
    if items != [] {
      var n := |items| - 1;
      ElementsWriteFrames(items[..n]);
      EncodeWritesFrame(items[n]);
      if ToFrames(items[..n]).Ok? && ToFrame(items[n]).Ok? {
        F.WriteAllSnoc(ToFrames(items[..n]).value, ToFrame(items[n]).value);
      }
    }
  }

  lemma {:induction false} EntryWritesFrame(entry: (Value, Value))
    ensures EncodeEntry(entry) == Written(EntryFrame(entry))
    decreases entry
  {
    EncodeWritesFrame(entry.0);
    EncodeWritesFrame(entry.1);
    if ToFrame(entry.0).Ok? && ToFrame(entry.1).Ok? {
      PairWritten(ToFrame(entry.0).value, ToFrame(entry.1).value);
    }
  }

  lemma {:induction false} EntriesWriteFrames(entries: seq<(Value, Value)>)
    ensures EncodeEntries(entries) == WrittenAll(EntryFrames(entries))
    decreases entries
  {
    if entries != [] {
      var n := |entries| - 1;
      EntriesWriteFrames(entries[..n]);
      EntryWritesFrame(entries[n]);
      if EntryFrames(entries[..n]).Ok? && EntryFrame(entries[n]).Ok? {
        F.WriteAllSnoc(EntryFrames(entries[..n]).value, EntryFrame(entries[n]).value);
      }
    }
  }

  lemma {:induction false} FieldWritesFrame(field: (seq<byte>, Value))
    ensures EncodeField(field) == Written(FieldFrame(field))
    decreases field
  {
    EncodeWritesFrame(field.1);
    TextWritten(field.0);
    if ToFrame(field.1).Ok? {
      PairWritten(TextFrame(field.0), ToFrame(field.1).value);
    }
  }

  lemma {:induction false} FieldsWriteFrames(fields: seq<(seq<byte>, Value)>)
    ensures EncodeFields(fields) == WrittenAll(FieldFrames(fields))
    decreases fields
  {
    if fields != [] {
      var n := |fields| - 1;
      FieldsWriteFrames(fields[..n]);
      FieldWritesFrame(fields[n]);
      if FieldFrames(fields[..n]).Ok? && FieldFrame(fields[n]).Ok? {
        F.WriteAllSnoc(FieldFrames(fields[..n]).value, FieldFrame(fields[n]).value);
      }
    }
  }

  /**
   * Every successful encoding is exactly one well-formed RESP frame, whatever
   * bytes follow it: the grammar reads back the value's canonical frame tree
   * and stops at the last byte written. In particular every array header's
   * count equals the number of frames that follow it and every bulk string's
   * declared length equals its payload's.
   */
  lemma EncodingIsOneFrame(v: Value, rest: seq<byte>)
    requires Sized(v)
    ensures Encode(v).Ok? && ToFrame(v).Ok?
    ensures F.Parse(Encode(v).value + rest) == F.Option.Some((ToFrame(v).value, rest))
  {
    EncodeOk(v);
    EncodeWritesFrame(v);
    F.ParseWrite(ToFrame(v).value, rest);
  }

  // ---------------------------------------------------------------------
  // `to_string`: the encoding, accepted only when it is UTF-8.

  /** The whole encoding of `v`, or the first error: `LenNotKnown`, or `Utf8` when the bytes are not UTF-8. */
  function EncodeToString(v: Value): Result<seq<byte>> {
    var out :- Encode(v);
    if U.Valid(out) then Ok(out) else Err(Utf8)
  }

  /** Every text and byte payload inside `v` (strings, byte strings, variant and field names) is UTF-8. */
  predicate Utf8Payloads(v: Value)
    decreases v, 1
  {
    match v
    case Str(t) => U.Valid(t)
    case Bytes(d) => U.Valid(d)
    case Some(x) => Utf8Payloads(x)
    case UnitVariant(name) => U.Valid(name)
    case NewtypeStruct(x) => Utf8Payloads(x)
    case NewtypeVariant(name, x) => U.Valid(name) && Utf8Payloads(x)
    case Seq(items, _) => ElementsUtf8(items)
    case Tuple(items) => ElementsUtf8(items)
    case TupleStruct(items) => ElementsUtf8(items)
    case TupleVariant(name, items) => U.Valid(name) && ElementsUtf8(items)
    case Map(entries, _) => EntriesUtf8(entries)
    case Struct(fields) => FieldsUtf8(fields)
    case StructVariant(name, fields) => U.Valid(name) && FieldsUtf8(fields)
    case _ => true
  }

  predicate ElementsUtf8(items: seq<Value>)
    decreases items, 0
  {
    forall i :: 0 <= i < |items| ==> Utf8Payloads(items[i])
  }

  predicate EntryUtf8(entry: (Value, Value))
    decreases entry, 0
  {
    Utf8Payloads(entry.0) && Utf8Payloads(entry.1)
  }

  predicate EntriesUtf8(entries: seq<(Value, Value)>)
    decreases entries, 0
  {
    forall i :: 0 <= i < |entries| ==> EntryUtf8(entries[i])
  }

  predicate FieldUtf8(field: (seq<byte>, Value))
    decreases field, 0
  {
    U.Valid(field.0) && Utf8Payloads(field.1)
  }

  predicate FieldsUtf8(fields: seq<(seq<byte>, Value)>)
    decreases fields, 0
  {
    forall i :: 0 <= i < |fields| ==> FieldUtf8(fields[i])
  }

  predicate IsAscii(s: seq<byte>) {
    forall i :: 0 <= i < |s| ==> s[i] < 0x80
  }

  lemma AsciiConcat(a: seq<byte>, b: seq<byte>)
    requires IsAscii(a) && IsAscii(b)
    ensures IsAscii(a + b)
  {
    assert forall i :: |a| <= i < |a + b| ==> (a + b)[i] == b[i - |a|];
  }

  /** Headers and integer lines are plain ASCII. */
  lemma HeadersAscii(n: nat, i: int)
    ensures IsAscii(ArrayHeader(n)) && IsAscii(IntegerLine(i)) && IsAscii(NULL_BULK)
    ensures IsAscii([DOLLAR] + NatText(n) + CRLF)
  {
    var d := NatText(n);
    assert IsAscii(d);
    AsciiConcat([STAR], d);
    AsciiConcat([STAR] + d, CRLF);
    AsciiConcat([DOLLAR], d);
    AsciiConcat([DOLLAR] + d, CRLF);
    var t := IntText(i);
    if i < 0 {
      assert IsAscii(NatText(-i));
      AsciiConcat([MINUS], NatText(-i));
    } else {
      assert IsAscii(NatText(i));
    }
    AsciiConcat([COLON], t);
    AsciiConcat([COLON] + t, CRLF);
  }

  /** `a + b + c` is UTF-8 when its three parts are. */
  lemma Valid3(a: seq<byte>, b: seq<byte>, c: seq<byte>)
    requires U.Valid(a) && U.Valid(b) && U.Valid(c)
    ensures U.Valid(a + b + c)
  {
    U.ValidConcat(a, b);
    U.ValidConcat(a + b, c);
  }

  /** A successful result is UTF-8. */
  predicate OkUtf8(r: Result<seq<byte>>) {
    r.Ok? ==> U.Valid(r.value)
  }

  lemma IntegerUtf8(i: int)
    ensures U.Valid(IntegerLine(i))
  {
    HeadersAscii(0, i);
    U.AsciiValid(IntegerLine(i));
  }

  lemma HeaderUtf8(n: nat)
    ensures U.Valid(ArrayHeader(n)) && U.Valid(NULL_BULK)
  {
    HeadersAscii(n, 0);
    U.AsciiValid(ArrayHeader(n));
    U.AsciiValid(NULL_BULK);
  }

  /** The text encoding of UTF-8 text is UTF-8. */
  lemma TextUtf8(t: seq<byte>)
    requires U.Valid(t)
    ensures U.Valid(EncodeText(t))
  {
    U.AsciiValid(CRLF);
    if NoLineBreak(t) {
      U.AsciiValid([PLUS]);
      Valid3([PLUS], t, CRLF);
    } else {
      BulkUtf8(t);
    }
  }

  lemma BulkUtf8(d: seq<byte>)
    requires U.Valid(d)
    ensures U.Valid(BulkString(d))
  {
    HeadersAscii(|d|, 0);
    U.AsciiValid([DOLLAR] + NatText(|d|) + CRLF);
    U.AsciiValid(CRLF);
    Valid3([DOLLAR] + NatText(|d|) + CRLF, d, CRLF);
  }

  /** `*n` and then a UTF-8 body. */
  lemma HeadedUtf8(n: nat, e: Result<seq<byte>>)
    requires OkUtf8(e)
    ensures OkUtf8(var b :- e; Ok(ArrayHeader(n) + b))
  {
    if e.Ok? {
      HeaderUtf8(n);
      U.ValidConcat(ArrayHeader(n), e.value);
    }
  }

  /** `*2`, a UTF-8 name, and then a UTF-8 body. */
  lemma NamedUtf8(name: seq<byte>, e: Result<seq<byte>>)
    requires U.Valid(name) && OkUtf8(e)
    ensures OkUtf8(var b :- e; Ok(ArrayHeader(2) + EncodeText(name) + b))
  {
    if e.Ok? {
      HeaderUtf8(2);
      TextUtf8(name);
      Valid3(ArrayHeader(2), EncodeText(name), e.value);
    }
  }

  /** `*2`, a UTF-8 name, `*n`, and then a UTF-8 body. */
  lemma NamedHeadedUtf8(name: seq<byte>, n: nat, e: Result<seq<byte>>)
    requires U.Valid(name) && OkUtf8(e)
    ensures OkUtf8(var b :- e; Ok(ArrayHeader(2) + EncodeText(name) + ArrayHeader(n) + b))
  {
    if e.Ok? {
      HeaderUtf8(n);
      U.ValidConcat(ArrayHeader(n), e.value);
      NamedUtf8(name, Ok(ArrayHeader(n) + e.value));
      assert ArrayHeader(2) + EncodeText(name) + ArrayHeader(n) + e.value
          == ArrayHeader(2) + EncodeText(name) + (ArrayHeader(n) + e.value);
    }
  }

  /** Two UTF-8 parts, one after the other. */
  lemma ConcatUtf8(a: Result<seq<byte>>, b: Result<seq<byte>>)
    requires OkUtf8(a) && OkUtf8(b)
    ensures OkUtf8(var x :- a; var y :- b; Ok(x + y))
  {
    if a.Ok? && b.Ok? {
      U.ValidConcat(a.value, b.value);
    }
  }

  /**
   * When every text and byte payload is UTF-8, so is the whole encoding:
   * headers, counts, lengths and integers are ASCII, and UTF-8 is closed
   * under concatenation.
   */
  lemma {:induction false} EncodeUtf8(v: Value)
    requires Utf8Payloads(v)
    ensures OkUtf8(Encode(v))
    decreases v
  {
    match v
    case Bool(b) => IntegerUtf8(if b then 1 else 0);
    case Int(i) => IntegerUtf8(i);
    case UInt(u) => IntegerUtf8(u);
    case Char(c) =>
      U.EncodeCharValid(c);
      TextUtf8(U.EncodeChar(c));
    case Str(t) => TextUtf8(t);
    case Bytes(d) => BulkUtf8(d);
    case None => HeaderUtf8(0);
    case Some(x) =>
      EncodeUtf8(x);
      HeadedUtf8(1, Encode(x));
    case Unit => HeaderUtf8(0);
    case UnitStruct => HeaderUtf8(0);
    case UnitVariant(name) => TextUtf8(name);
    case NewtypeStruct(x) => EncodeUtf8(x);
    case NewtypeVariant(name, x) =>
      EncodeUtf8(x);
      NamedUtf8(name, Encode(x));
    case Seq(items, _) =>
      ElementsUtf8Valid(items);
      HeadedUtf8(|items|, EncodeElements(items));
    case Tuple(items) =>
      ElementsUtf8Valid(items);
      HeadedUtf8(|items|, EncodeElements(items));
    case TupleStruct(items) =>
      ElementsUtf8Valid(items);
      HeadedUtf8(|items|, EncodeElements(items));
    case TupleVariant(name, items) =>
      ElementsUtf8Valid(items);
      NamedHeadedUtf8(name, |items|, EncodeElements(items));
    case Map(entries, _) =>
      EntriesUtf8Valid(entries);
      HeadedUtf8(|entries|, EncodeEntries(entries));
    case Struct(fields) =>
      FieldsUtf8Valid(fields);
      HeadedUtf8(|fields|, EncodeFields(fields));
    case StructVariant(name, fields) =>
      FieldsUtf8Valid(fields);
      NamedHeadedUtf8(name, |fields|, EncodeFields(fields));
  }

  lemma {:induction false} ElementsUtf8Valid(items: seq<Value>)
    requires ElementsUtf8(items)
    ensures OkUtf8(EncodeElements(items))
    decreases items
  {
    if items == [] {
      U.AsciiValid([]);
    } else {
      var n := |items| - 1;
      var init := items[..n];
      assert forall i :: 0 <= i < n ==> init[i] == items[i];
      ElementsUtf8Valid(init);
      EncodeUtf8(items[n]);
      ConcatUtf8(EncodeElements(init), Encode(items[n]));
    }
  }

  /** `*2`, then two UTF-8 parts. */
  lemma PairUtf8(a: Result<seq<byte>>, b: Result<seq<byte>>)
    requires OkUtf8(a) && OkUtf8(b)
    ensures OkUtf8(var k :- a; var v :- b; Ok(ArrayHeader(2) + k + v))
  {
    if a.Ok? && b.Ok? {
      HeaderUtf8(2);
      Valid3(ArrayHeader(2), a.value, b.value);
    }
  }

  lemma {:induction false} EntryUtf8Valid(entry: (Value, Value))
    requires EntryUtf8(entry)
    ensures OkUtf8(EncodeEntry(entry))
    decreases entry
  {
    EncodeUtf8(entry.0);
    EncodeUtf8(entry.1);
    PairUtf8(Encode(entry.0), Encode(entry.1));
  }

  lemma {:induction false} EntriesUtf8Valid(entries: seq<(Value, Value)>)
    requires EntriesUtf8(entries)
    ensures OkUtf8(EncodeEntries(entries))
    decreases entries
  {
    if entries == [] {
      U.AsciiValid([]);
    } else {
      var n := |entries| - 1;
      var init := entries[..n];
      assert forall i :: 0 <= i < n ==> init[i] == entries[i];
      EntriesUtf8Valid(init);
      EntryUtf8Valid(entries[n]);
      ConcatUtf8(EncodeEntries(init), EncodeEntry(entries[n]));
    }
  }

  lemma {:induction false} FieldUtf8Valid(field: (seq<byte>, Value))
    requires FieldUtf8(field)
    ensures OkUtf8(EncodeField(field))
    decreases field
  {
    EncodeUtf8(field.1);
    NamedUtf8(field.0, Encode(field.1));
  }

  lemma {:induction false} FieldsUtf8Valid(fields: seq<(seq<byte>, Value)>)
    requires FieldsUtf8(fields)
    ensures OkUtf8(EncodeFields(fields))
    decreases fields
  {
    if fields == [] {
      U.AsciiValid([]);
    } else {
      var n := |fields| - 1;
      var init := fields[..n];
      assert forall i :: 0 <= i < n ==> init[i] == fields[i];
      FieldsUtf8Valid(init);
      FieldUtf8Valid(fields[n]);
      ConcatUtf8(EncodeFields(init), EncodeField(fields[n]));
    }
  }

  /**
   * `to_string` succeeds, with exactly the serializer's bytes, on every value
   * whose sequences and maps have known lengths and whose payloads are UTF-8.
   */
  lemma ToStringOk(v: Value)
    requires Sized(v) && Utf8Payloads(v)
    ensures EncodeToString(v) == Encode(v) && EncodeToString(v).Ok?
  {
    EncodeOk(v);
    EncodeUtf8(v);
  }

  /** `to_string` fails with `LenNotKnown` exactly when encoding does, whatever the payloads. */
  lemma ToStringLenNotKnown(v: Value)
    ensures EncodeToString(v) == Err(LenNotKnown) <==> !Sized(v)
  {
    EncodeOk(v);
  }

  // ---------------------------------------------------------------------
  // Compound values in terms of their parts.

  /** `[name, value]`: the value's encoding after `*2` and the name, or the value's error. */
  lemma NewtypeVariantEncoding(name: seq<byte>, x: Value)
    ensures Encode(NewtypeVariant(name, x))
         == if Encode(x).Ok? then Ok(ArrayHeader(2) + EncodeText(name) + Encode(x).value) else Encode(x)
  {
  }

  /** `[x]`: the content's encoding after `*1`, or the content's error. */
  lemma SomeEncoding(x: Value)
    ensures Encode(Some(x))
         == if Encode(x).Ok? then Ok(ArrayHeader(1) + Encode(x).value) else Encode(x)
  {
  }

  /** A sequence with a known length is `*n` and its elements; one without fails with `LenNotKnown`. */
  lemma SeqEncoding(items: seq<Value>, sized: bool)
    ensures Encode(Seq(items, sized))
         == if !sized then Err(LenNotKnown)
            else if EncodeElements(items).Ok? then Ok(ArrayHeader(|items|) + EncodeElements(items).value)
            else EncodeElements(items)
  {
  }

  /** Tuples and tuple structs are written exactly like a sequence of known length. */
  lemma TupleEncoding(items: seq<Value>)
    ensures Encode(Tuple(items)) == Encode(TupleStruct(items)) == Encode(Seq(items, true))
  {
  }

  /** `[name, [fields…]]` */
  lemma TupleVariantEncoding(name: seq<byte>, items: seq<Value>)
    ensures Encode(TupleVariant(name, items))
         == if EncodeElements(items).Ok?
            then Ok(ArrayHeader(2) + EncodeText(name) + ArrayHeader(|items|) + EncodeElements(items).value)
            else EncodeElements(items)
  {
  }

  /** A map with a known length is `*n` and its entries; one without fails with `LenNotKnown`. */
  lemma MapEncoding(entries: seq<(Value, Value)>, sized: bool)
    ensures Encode(Map(entries, sized))
         == if !sized then Err(LenNotKnown)
            else if EncodeEntries(entries).Ok? then Ok(ArrayHeader(|entries|) + EncodeEntries(entries).value)
            else EncodeEntries(entries)
  {
  }

  /** A struct is `*n` and its `n` fields. */
  lemma StructEncoding(fields: seq<(seq<byte>, Value)>)
    ensures Encode(Struct(fields))
         == if EncodeFields(fields).Ok? then Ok(ArrayHeader(|fields|) + EncodeFields(fields).value)
            else EncodeFields(fields)
  {
  }

  /** `[name, [[field, value]…]]` */
  lemma StructVariantEncoding(name: seq<byte>, fields: seq<(seq<byte>, Value)>)
    ensures Encode(StructVariant(name, fields))
         == if EncodeFields(fields).Ok?
            then Ok(ArrayHeader(2) + EncodeText(name) + ArrayHeader(|fields|) + EncodeFields(fields).value)
            else EncodeFields(fields)
  {
  }

  /** `[key, value]`: both encodings after `*2`, or the first error. */
  lemma EntryEncoding(key: Value, value: Value)
    ensures EncodeEntry((key, value))
         == if Encode(key).Err? then Encode(key)
            else if Encode(value).Err? then Encode(value)
            else Ok(ArrayHeader(2) + Encode(key).value + Encode(value).value)
  {
  }

  /** `[field, value]`: the field name as text and the value's encoding after `*2`, or the value's error. */
  lemma FieldEncoding(key: seq<byte>, value: Value)
    ensures EncodeField((key, value))
         == if Encode(value).Ok? then Ok(ArrayHeader(2) + EncodeText(key) + Encode(value).value) else Encode(value)
  {
  }

  /** The first `i + 1` elements are the first `i` and then element `i`, or the first error. */
  lemma ElementsPrefix(items: seq<Value>, i: nat)
    requires i < |items|
    ensures EncodeElements(items[..i + 1])
         == if EncodeElements(items[..i]).Err? then EncodeElements(items[..i])
            else if Encode(items[i]).Err? then Encode(items[i])
            else Ok(EncodeElements(items[..i]).value + Encode(items[i]).value)
  {
    assert items[..i + 1][..i] == items[..i];
  }

  lemma EntriesPrefix(entries: seq<(Value, Value)>, i: nat)
    requires i < |entries|
    ensures EncodeEntries(entries[..i + 1])
         == if EncodeEntries(entries[..i]).Err? then EncodeEntries(entries[..i])
            else if EncodeEntry(entries[i]).Err? then EncodeEntry(entries[i])
            else Ok(EncodeEntries(entries[..i]).value + EncodeEntry(entries[i]).value)
  {
    assert entries[..i + 1][..i] == entries[..i];
  }

  lemma FieldsPrefix(fields: seq<(seq<byte>, Value)>, i: nat)
    requires i < |fields|
    ensures EncodeFields(fields[..i + 1])
         == if EncodeFields(fields[..i]).Err? then EncodeFields(fields[..i])
            else if EncodeField(fields[i]).Err? then EncodeField(fields[i])
            else Ok(EncodeFields(fields[..i]).value + EncodeField(fields[i]).value)
  {
    assert fields[..i + 1][..i] == fields[..i];
  }

  /** Once a prefix of the elements fails, the whole list fails the same way. */
  lemma ElementsErr(items: seq<Value>, k: nat)
    requires k <= |items| && EncodeElements(items[..k]).Err?
    ensures EncodeElements(items) == EncodeElements(items[..k])
  {
    ElementsOk(items);
    ElementsOk(items[..k]);
    assert forall i :: 0 <= i < k ==> items[..k][i] == items[i];
  }

  lemma EntriesErr(entries: seq<(Value, Value)>, k: nat)
    requires k <= |entries| && EncodeEntries(entries[..k]).Err?
    ensures EncodeEntries(entries) == EncodeEntries(entries[..k])
  {
    EntriesOk(entries);
    EntriesOk(entries[..k]);
    assert forall i :: 0 <= i < k ==> entries[..k][i] == entries[i];
  }

  lemma FieldsErr(fields: seq<(seq<byte>, Value)>, k: nat)
    requires k <= |fields| && EncodeFields(fields[..k]).Err?
    ensures EncodeFields(fields) == EncodeFields(fields[..k])
  {
    FieldsOk(fields);
    FieldsOk(fields[..k]);
    assert forall i :: 0 <= i < k ==> fields[..k][i] == fields[i];
  }
}
