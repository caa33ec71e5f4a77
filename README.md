# RESP serializer model

This is a Dafny model of the serializer in a Rust crate that writes Rust values as
RESP, the Redis serialization protocol. The model covers `src/ser.rs`: the `Serializer`
struct, `to_string`, the serializer callbacks, and the compound serializers for
sequences, tuples, maps, structs and enum variants.

The model has these layers:

- **`Ascii`, `Decimal`, `Utf8`** hold the building blocks.
  - Bytes, CR/LF and the RESP type markers.
  - The decimal text that Rust's `to_string` gives an integer, with a reader that proves that text round-trips.
  - A UTF-8 validity predicate that stands in for `String::from_utf8`, plus the UTF-8 encoding of a `char`.
- **`Frames`** is the RESP wire grammar as a reference definition.
  - The frame tree: simple string, error, integer, bulk string, null bulk string and array.
  - Its writer.
  - A parser.
  - A proof that every well-formed frame parses back from its bytes, whatever follows it.
- **`Encoding`** is the specification of what the serializer writes.
  - `Value` is a closed datatype with one constructor per serializer callback.
  - `Encode` gives the bytes written for a `Value`, or the error.
  - `EncodeToString` adds the UTF-8 check that `to_string` makes.
  - `ToFrame` maps a value to its frame tree. `Encode` is proved to be the writer applied to that tree, so each successful encoding is exactly one RESP frame.
- **`Ser`** is the serializer itself.
  - `Serializer` is a class whose one field, `output`, is the byte buffer the source appends to.
  - Each callback is a method that appends, and its contract ties the new buffer to `Encode`.
  - `Appended(before, after, r, e)` is how the recursive callbacks state their result:
    - when `e` succeeds, the callback returns `Ok` and has appended exactly `e`'s bytes;
    - when `e` fails, the callback returns the same error and has kept everything written before.
  - Each recursive callback also states its whole new buffer, `output == old(output) + Emit(…)`, on success and on failure alike.
- **`Emitted`** defines `Emit`: the bytes the serializer has written by the time it returns.
  - Every `?` in the source returns at once, so a failure leaves what was written before it and nothing after.
  - `Emit` is proved equal to the encoding on success.
  - On failure it is proved to stop right after the first failing element, entry or field.
  - The loops over elements, entries and fields carry invariants against the matching `Encode…` function.
- **`Properties`** states the encoding rules one by one. **`TestVectors`** proves the byte strings that the crate's own tests expect.

Encoding rules, as the source writes them:

- Integers, and booleans as `0`/`1`, are `:<decimal>\r\n`.
- Text with no CR or LF byte is `+<text>\r\n`. Other text is a bulk string `$<len>\r\n<bytes>\r\n`.
- Byte arrays are bulk strings.
- `None` is `*0\r\n`, and `Some(x)` is `*1\r\n` followed by `x`.
- Unit and unit structs are `$-1\r\n`.
- A unit variant is its name as text. A newtype struct is written as its content.
- A newtype variant is `*2\r\n<name><content>`.
- A sequence, tuple or map is `*<n>\r\n` followed by its items.
  - A map entry is `*2\r\n<key><value>`.
  - A struct field is `*2\r\n<name><value>`.
- Tuple and struct variants are `*2\r\n<name>*<n>\r\n…`.
- A sequence or map whose length is not known up front fails with `LenNotKnown`.
- `to_string` also fails with `Utf8` when the bytes are not UTF-8. That can happen only through byte arrays.

## Model

| member | source | states |
|---|---|---|
| Ser.Serializer.constructor | src/ser.rs:9-12 | A new serializer's output buffer is empty. |
| Ser.Serializer.Write | src/ser.rs:60-65 | Writing bytes appends exactly those bytes to the output and changes nothing else. |
| Ser.ToString | src/ser.rs:15-22 | Serializing into a fresh buffer returns the `Encode` bytes when they are UTF-8, `Utf8` when they are not, and the serialization error when there is one (`EncodeToString`). |
| Ser.Serializer.SerializeBool | src/ser.rs:46-49 | Appends the integer line of 1 or 0. |
| Ser.Serializer.SerializeI64 | src/ser.rs:50-65 | Appends `:`, the signed decimal text and CRLF. The narrower signed widths reach it widened. |
| Ser.Serializer.SerializeU64 | src/ser.rs:67-82 | Appends `:`, the unsigned decimal text and CRLF. The narrower unsigned widths reach it widened. |
| Ser.Serializer.SerializeChar | src/ser.rs:92-94 | Appends the text encoding of the character's UTF-8 bytes. |
| Ser.Serializer.SerializeStr | src/ser.rs:96-105 | Appends `+t\r\n` when `t` has no CR or LF byte, and the bulk string of `t` otherwise (`EncodeText`). |
| Ser.Serializer.SerializeBytes | src/ser.rs:107-114 | Appends `$<len>\r\n<bytes>\r\n`. |
| Ser.Serializer.SerializeNone | src/ser.rs:116-120 | Appends the empty array header `*0\r\n`. |
| Ser.Serializer.SerializeSome | src/ser.rs:122-129 | Appends `*1\r\n` and the content. If the content fails, returns its error and keeps what was written before. |
| Ser.Serializer.SerializeUnit | src/ser.rs:131-135 | Appends the null bulk string `$-1\r\n`. |
| Ser.Serializer.SerializeUnitStruct | src/ser.rs:137-140 | Appends the null bulk string `$-1\r\n`. |
| Ser.Serializer.SerializeUnitVariant | src/ser.rs:142-151 | Appends the variant name as text. |
| Ser.Serializer.SerializeNewtypeStruct | src/ser.rs:153-161 | Appends exactly what the content appends, with the same outcome. |
| Ser.Serializer.SerializeNewtypeVariant | src/ser.rs:163-179 | Appends `*2\r\n`, the variant name and the content, or passes the content's error on. |
| Ser.Serializer.SerializeSeq | src/ser.rs:181-189 | With no length: `Err(LenNotKnown)` and nothing written. With length `n`: `Ok` and `*n\r\n` appended. |
| Ser.Serializer.SerializeTuple | src/ser.rs:191-194 | Appends `*n\r\n` for the tuple's length. |
| Ser.Serializer.SerializeTupleStruct | src/ser.rs:196-203 | Appends `*n\r\n` for the struct's length. |
| Ser.Serializer.SerializeTupleVariant | src/ser.rs:205-216 | Appends `*2\r\n`, the variant name and `*n\r\n`. |
| Ser.Serializer.SerializeMap | src/ser.rs:218-225 | With no length: `Err(LenNotKnown)` and nothing written. With length `n`: `Ok` and `*n\r\n` appended. |
| Ser.Serializer.SerializeStruct | src/ser.rs:227-229 | Appends `*n\r\n` for the field count. |
| Ser.Serializer.SerializeStructVariant | src/ser.rs:231-242 | Appends `*2\r\n`, the variant name and `*n\r\n`. |
| Ser.Serializer.SerializeElement | src/ser.rs:256-318 | An element or tuple field appends exactly its own encoding, or returns its error. |
| Ser.Serializer.End | src/ser.rs:256-391 | Every `end` returns `Ok` and writes nothing. |
| Ser.Serializer.SerializeKey | src/ser.rs:324-329 | Returns `Ok` and writes nothing. |
| Ser.Serializer.SerializeValue | src/ser.rs:331-336 | Returns `Ok` and writes nothing. |
| Ser.Serializer.SerializeEntry | src/ser.rs:338-348 | Appends `*2\r\n`, the key and the value. The first of them to fail decides the error. |
| Ser.Serializer.SerializeField | src/ser.rs:355-391 | Appends `*2\r\n`, the field name as text and the value, or passes the value's error on. |
| Ser.Serializer.SerializeElements | src/ser.rs:256-318 | The element loop appends the concatenated encodings of all elements in order. On failure it returns the first failing element's error, and the buffer grows by exactly `EmitElements(items)`. By `Emitted.ElementsStop`, that is the earlier elements' encodings plus what the failing element wrote, and nothing from later elements. |
| Ser.Serializer.SerializeEntries | src/ser.rs:320-353 | The entry loop appends every entry's `*2\r\n<key><value>` in order. On failure the buffer grows by exactly `EmitEntries(entries)`, which by `Emitted.EntriesStop` ends at the first failing entry. |
| Ser.Serializer.SerializeFields | src/ser.rs:355-391 | The field loop appends every field's `*2\r\n<name><value>` in order. On failure the buffer grows by exactly `EmitFields(fields)`, which by `Emitted.FieldsStop` ends at the first failing field. |
| Ser.Serializer.SerializeSeqValue | src/ser.rs:181-189 | Opening a sequence and then writing its elements appends exactly `Encode` of the sequence, including the `LenNotKnown` failure. |
| Ser.Serializer.SerializeTupleValue | src/ser.rs:191-203 | A tuple or tuple struct, header and elements, appends exactly its `Encode`. |
| Ser.Serializer.SerializeTupleVariantValue | src/ser.rs:205-216 | A tuple variant, header, name and fields, appends exactly its `Encode`. |
| Ser.Serializer.SerializeMapValue | src/ser.rs:218-225 | A map, header and entries, appends exactly its `Encode`, including the `LenNotKnown` failure. |
| Ser.Serializer.SerializeStructValue | src/ser.rs:227-229 | A struct, header and fields, appends exactly its `Encode`. |
| Ser.Serializer.SerializeStructVariantValue | src/ser.rs:231-242 | A struct variant, header, name and fields, appends exactly its `Encode`. |
| Ser.Serializer.Serialize | src/ser.rs:24-242 | Serializing any value appends exactly its `Encode` bytes and returns `Ok` when that succeeds. Otherwise it returns the same error. In both cases the buffer grows by exactly `Emit(v)`. |
| Ser.Serializer.SerializeMapByKeyValue | src/ser.rs:320-336 | A map whose entries are handed over through `serialize_key` and `serialize_value` returns `Ok` but appends only its `*n\r\n` header. |
| Emitted.EmitOk | src/ser.rs:24-242 | When serializing a value succeeds, the bytes it wrote are exactly its encoding. |
| Emitted.ElementsEmitOk | src/ser.rs:256-318 | When a run of elements succeeds, the bytes written are exactly its encoding. |
| Emitted.EntriesEmitOk | src/ser.rs:338-348 | When a run of map entries succeeds, the bytes written are exactly its encoding. |
| Emitted.FieldsEmitOk | src/ser.rs:355-391 | When a run of struct fields succeeds, the bytes written are exactly its encoding. |
| Emitted.EmitElementsErr | src/ser.rs:256-318 | Once a prefix of the elements has failed, the elements after it write nothing. |
| Emitted.EmitEntriesErr | src/ser.rs:338-348 | Once a prefix of the entries has failed, the entries after it write nothing. |
| Emitted.EmitFieldsErr | src/ser.rs:355-391 | Once a prefix of the fields has failed, the fields after it write nothing. |
| Emitted.ElementsStop | src/ser.rs:256-318 | Suppose element `k` is the first to fail. The run fails with element `k`'s error, and what it wrote is the encoding of elements `0..k` plus what element `k` wrote. |
| Emitted.EntriesStop | src/ser.rs:338-348 | Suppose entry `k` is the first to fail. The run fails with entry `k`'s error, and what it wrote is the encoding of entries `0..k` plus what entry `k` wrote. |
| Emitted.FieldsStop | src/ser.rs:355-391 | Suppose field `k` is the first to fail. The run fails with field `k`'s error, and what it wrote is the encoding of fields `0..k` plus what field `k` wrote. |
| Emitted.EntryKeyFails | src/ser.rs:338-348 | An entry whose key fails fails with the key's error and writes `*2\r\n` and the key's bytes. Its value is never started. |
| Encoding.EncodeOk | src/ser.rs:181-189 | Serialization succeeds exactly when every sequence and map in the value had a known length. Its only possible error is `LenNotKnown`. |
| Encoding.ElementsOk | src/ser.rs:256-269 | A run of elements encodes exactly when every element does. The only possible error is `LenNotKnown`. |
| Encoding.EntriesOk | src/ser.rs:338-348 | A run of map entries encodes exactly when every key and value does. |
| Encoding.FieldsOk | src/ser.rs:355-391 | A run of struct fields encodes exactly when every value does. |
| Encoding.EncodeWritesFrame | src/ser.rs:46-242 | The bytes written for a value are the writer applied to its frame tree, and the two fail together. |
| Encoding.EncodingIsOneFrame | src/ser.rs:46-242 | For a value that encodes, the output parses back as exactly its frame tree, whatever bytes follow. |
| Encoding.EncodeUtf8 | src/ser.rs:92-105 | When every text, name and byte array in a value is UTF-8, the whole encoding is UTF-8. RESP markers, decimal digits and CRLF are ASCII and never break it. |
| Encoding.ToStringOk | src/ser.rs:15-22 | `to_string` succeeds with the serialized bytes when every length is known and every byte array is UTF-8. |
| Encoding.ToStringLenNotKnown | src/ser.rs:15-22 | `to_string` fails with `LenNotKnown` exactly when some sequence or map had no known length. |
| Encoding.ElementsErr | src/ser.rs:256-269 | Once a prefix of the elements fails, the whole run fails with that prefix's error. |
| Encoding.EntriesErr | src/ser.rs:338-348 | Once a prefix of the entries fails, the whole run fails with that prefix's error. |
| Encoding.FieldsErr | src/ser.rs:359-368 | Once a prefix of the fields fails, the whole run fails with that prefix's error. |
| Decimal.NatText | src/ser.rs:77-82 | An unsigned decimal text is a non-empty run of digits, with a leading `0` only for zero. It holds no CR or LF. |
| Decimal.IntText | src/ser.rs:60-65 | A signed decimal text is non-empty, holds no CR or LF, and starts with `-` exactly for negative numbers. |
| Decimal.ParseNatText | src/ser.rs:77-82 | Reading back an unsigned decimal text gives the number. |
| Decimal.ParseIntText | src/ser.rs:60-65 | A signed decimal text is well formed and reads back as the integer. |
| Decimal.NatTextCanonical | src/ser.rs:181-189 | A digit run without a leading zero is the decimal text of the number it reads as, so a header count has only one spelling. |
| Utf8.EncodeChar | src/ser.rs:92-94 | A character's UTF-8 encoding is one to four bytes. |
| Utf8.DecodeChar | src/ser.rs:92-94 | Decoding a well-formed character gives a Unicode scalar value, never a surrogate and never above U+10FFFF. |
| Utf8.DecodeEncodeChar | src/ser.rs:92-94 | Decoding the bytes that `EncodeChar` gives a character yields that same character. |
| Utf8.EncodeDecodeChar | src/ser.rs:92-94 | Every well-formed UTF-8 character is `EncodeChar` of the character it decodes to, so no other byte string encodes a character. |
| Utf8.EncodeCharValid | src/ser.rs:92-94 | A character's UTF-8 bytes are one well-formed UTF-8 character. They hold no CR or LF unless the character is `'\r'` or `'\n'`. |
| Utf8.ValidConcat | src/ser.rs:15-22 | Two UTF-8 byte strings concatenate to a UTF-8 byte string. |
| Utf8.AsciiValid | src/ser.rs:15-22 | ASCII bytes are UTF-8. |
| Frames.ParseWrite | src/ser.rs:60-189 | Every well-formed RESP frame parses back from its own bytes, leaving what follows untouched. |
| Frames.ParseWriteAll | src/ser.rs:256-318 | Consecutive well-formed frames parse back one by one, in order. |
| Properties.IntEncoding | src/ser.rs:60-65 | A signed integer is one `:…\r\n` line whose text reads back as the integer, with a `-` exactly when it is negative. |
| Properties.UIntEncoding | src/ser.rs:77-82 | An unsigned integer is one `:…\r\n` line holding canonical decimal digits that read back as the integer. |
| Properties.BoolEncoding | src/ser.rs:46-49 | `true` is `:1\r\n` and `false` is `:0\r\n`. |
| Properties.NegativeExample | src/ser.rs:60-65 | `-5` is `:-5\r\n`. |
| Properties.StrEncoding | src/ser.rs:96-105 | Text is a simple string exactly when it holds no CR or LF. Otherwise it is the bulk string of the same bytes. |
| Properties.CharEncoding | src/ser.rs:92-94 | A character is written as the text of its UTF-8 bytes. It is a simple string unless it is `'\r'` or `'\n'`. |
| Properties.BytesEncoding | src/ser.rs:107-114 | Bytes are `$<h>\r\n<bytes>\r\n`, where `h` is decimal digits that read back as the payload length. |
| Properties.OptionEncoding | src/ser.rs:116-129 | `None` is `*0\r\n`. `Some(x)` is `*1\r\n` followed by `x`, or `x`'s error. |
| Properties.UnitEncoding | src/ser.rs:131-140 | Unit and unit structs are both `$-1\r\n`. |
| Properties.NewtypeTransparent | src/ser.rs:153-161 | A newtype struct writes exactly what its content writes, and has the same frame. |
| Properties.UnitVariantEncoding | src/ser.rs:142-151 | A unit variant writes its name as text. |
| Properties.UnknownLengthFails | src/ser.rs:181-189 | A sequence or map opened without a length fails with `LenNotKnown`, whatever it holds. |
| Properties.KnownLengthHeader | src/ser.rs:181-189 | A sequence with known length starts with `*<len>\r\n` and parses as one array frame whose item count equals the number of elements. |
| Properties.HeaderAloneIsIncomplete | src/ser.rs:320-336 | An array header `*n\r\n` with `n >= 1` and nothing after it is not a complete frame. |
| Properties.KeyValueMapIsNotAFrame | src/ser.rs:320-348 | Take a non-empty map with known lengths. What `serialize_key`/`serialize_value` leave is not a frame. The map's encoding through `serialize_entry` parses as its one frame. The two differ. |
| Properties.MapFrames | src/ser.rs:218-225 | A map is one array with one `[key, value]` array per entry, in order. |
| Properties.EntryFramesOk | src/ser.rs:338-348 | For entries that encode, the i-th entry frame is the array of the i-th key's and value's frames. |
| Properties.FramesOk | src/ser.rs:181-225 | A value with all lengths known has a frame tree. |
| Properties.NonUtf8BytesFail | src/ser.rs:15-22 | The byte array `[0xFF]` serializes, yet `to_string` fails with `Utf8`. |
| TestVectors.StructTestVector | src/ser.rs:397-421 | `Test { int: 1, seq: ["a", "b"] }` becomes `*2\r\n*2\r\n+int\r\n:1\r\n*2\r\n+seq\r\n*2\r\n+a\r\n+b\r\n`. |
| TestVectors.UnitVariantTestVector | src/ser.rs:433-436 | `E::Unit` becomes `+Unit\r\n`. |
| TestVectors.NewtypeVariantTestVector | src/ser.rs:438-441 | `E::Newtype(1)` becomes `*2\r\n+Newtype\r\n:1\r\n`. |
| TestVectors.TupleVariantTestVector | src/ser.rs:443-446 | `E::Tuple(1, 2)` becomes `*2\r\n+Tuple\r\n*2\r\n:1\r\n:2\r\n`. |
| TestVectors.StructVariantTestVector | src/ser.rs:448-457 | `E::Struct { a: 1 }` becomes `*2\r\n+Struct\r\n*1\r\n*2\r\n+a\r\n:1\r\n`. |

## Left out

- Floating point: `serialize_f32` and `serialize_f64` (src/ser.rs:84-90) are not modelled.
- `collect_str` (src/ser.rs:244-249) is not modelled. The crate formats the value through `Display` and passes the text on to `serialize_str`. That formatting is outside the model; what `serialize_str` then writes is `Ser.Serializer.SerializeStr`.
- `is_human_readable` (src/ser.rs:251-253) is not modelled. It is a constant flag and writes nothing.
- Failures of `io::Write::write_all` are not modelled. The buffer is an in-memory `Vec`, so the model treats every write as succeeding.
- The `Msg` error from `ser::Error::custom` is not modelled. Errors that user `Serialize` impls raise come from code outside the model.
- Type names, struct names and variant indices are not modelled. The source never writes them, so `Value` does not keep them.
- Integer widths: `i8`–`i32` and `u8`–`u32` are modelled after widening to `i64`/`u64`. The source widens them that way too (src/ser.rs:50-58, 67-75).
- Ser.Serializer.SerializeSeq: the count in each header is the element count by construction. In the source (src/ser.rs:186) the count is whatever length hint the caller passed, and nothing checks it against the elements that follow. The model only writes sequences and maps whose hint equals their length.
- Ser.Serializer.Serialize: serde's generic dispatch (a `Serialize` impl choosing which callback to call) is replaced by the closed `Value` datatype and this dispatcher. User impls that call the callbacks in other orders are not modelled, apart from the map driven through `serialize_key`/`serialize_value` under "## Findings".
- Text is carried as its UTF-8 bytes. A `&str` is UTF-8 by Rust's type invariant, while `Str` in the model accepts any bytes; `to_string`'s check covers them all the same.
- `Frames.Parse` is a reference grammar for RESP, used to state that the output is one frame. The crate's own deserializer is not part of this model, and neither are `src/error.rs` and `src/lib.rs`.
- The crate's test of `E::Newtype(1)` has its assertion commented out (src/ser.rs:441). The model proves the expected string holds for the encoding as written.

## Findings

| source | as written | input that shows it | evidently intended | confidence | as-written member | corrected member |
|---|---|---|---|---|---|---|
| src/ser.rs:324-336 | `serialize_key` and `serialize_value` return `Ok(())` and write nothing. A map that a `Serialize` impl drives through them loses every entry but keeps its `*n\r\n` header. | A one-entry map handed over as `serialize_map(Some(1))`, `serialize_key(k)`, `serialize_value(v)`, `end()` writes only `*1\r\n`, which is not a complete frame. | Each key and value is written, so that the map is `*n\r\n` followed by `n` `*2\r\n<key><value>` pairs, as `serialize_entry` (src/ser.rs:338-348) writes it. | not executed | Ser.Serializer.SerializeMapByKeyValue, Properties.KeyValueMapIsNotAFrame | Ser.Serializer.SerializeEntry, Properties.MapFrames |
