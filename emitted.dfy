/**
 * What the serializer has written by the time it returns, whether it
 * succeeds or fails. Every `?` in the callbacks returns at once, so a
 * failure leaves the bytes written before it and nothing after it.
 */
module Emitted {
  import opened Ascii
  import opened Errors
  import opened Encoding

  /** The bytes written while serializing `v`, up to and including the point where it failed, if it did. */
  function Emit(v: Value): seq<byte>
    decreases v, 0
  {
    match v
    case Some(x) => ArrayHeader(1) + Emit(x)
    case NewtypeStruct(x) => Emit(x)
    case NewtypeVariant(name, x) => ArrayHeader(2) + EncodeText(name) + Emit(x)
    case Seq(items, sized) => if !sized then [] else ArrayHeader(|items|) + EmitElements(items)
    case Tuple(items) => ArrayHeader(|items|) + EmitElements(items)
    case TupleStruct(items) => ArrayHeader(|items|) + EmitElements(items)
    case TupleVariant(name, items) =>
      ArrayHeader(2) + EncodeText(name) + ArrayHeader(|items|) + EmitElements(items)
    case Map(entries, sized) => if !sized then [] else ArrayHeader(|entries|) + EmitEntries(entries)
    case Struct(fields) => ArrayHeader(|fields|) + EmitFields(fields)
    case StructVariant(name, fields) =>
      ArrayHeader(2) + EncodeText(name) + ArrayHeader(|fields|) + EmitFields(fields)
    case _ => Encode(v).value
  }

  /** Elements in order; once one has failed, nothing more. */
  function EmitElements(items: seq<Value>): seq<byte>
    decreases items, 0
  {
    if items == [] then []
    else
      var init := items[..|items| - 1];
      if EncodeElements(init).Err? then EmitElements(init)
      else EmitElements(init) + Emit(items[|items| - 1])
  }

  /** `*2\r\n`, then the key, then the value only if the key succeeded. */
  function EmitEntry(entry: (Value, Value)): seq<byte>
    decreases entry, 0
  {
    ArrayHeader(2) + Emit(entry.0) + (if Encode(entry.0).Ok? then Emit(entry.1) else [])
  }

  function EmitEntries(entries: seq<(Value, Value)>): seq<byte>
    decreases entries, 0
  {
    if entries == [] then []
    else
      var init := entries[..|entries| - 1];
      if EncodeEntries(init).Err? then EmitEntries(init)
      else EmitEntries(init) + EmitEntry(entries[|entries| - 1])
  }

  /** `*2\r\n`, the field name as text, then the value. */
  function EmitField(field: (seq<byte>, Value)): seq<byte>
    decreases field, 0
  {
    ArrayHeader(2) + EncodeText(field.0) + Emit(field.1)
  }

  function EmitFields(fields: seq<(seq<byte>, Value)>): seq<byte>
    decreases fields, 0
  {
    if fields == [] then []
    else
      var init := fields[..|fields| - 1];
      if EncodeFields(init).Err? then EmitFields(init)
      else EmitFields(init) + EmitField(fields[|fields| - 1])
  }

  // ---------------------------------------------------------------------
  // On success, what is written is the encoding.

  /** When serializing succeeds, the bytes written are exactly the encoding. */
  lemma {:induction false} EmitOk(v: Value)
    ensures Encode(v).Ok? ==> Emit(v) == Encode(v).value
    decreases v
  {
    match v
    case Some(x) => EmitOk(x);
    case NewtypeStruct(x) => EmitOk(x);
    case NewtypeVariant(_, x) => EmitOk(x);
    case Seq(items, _) => ElementsEmitOk(items);
    case Tuple(items) => ElementsEmitOk(items);
    case TupleStruct(items) => ElementsEmitOk(items);
    case TupleVariant(_, items) => ElementsEmitOk(items);
    case Map(entries, _) => EntriesEmitOk(entries);
    case Struct(fields) => FieldsEmitOk(fields);
    case StructVariant(_, fields) => FieldsEmitOk(fields);
    case _ =>
  }

  lemma {:induction false} ElementsEmitOk(items: seq<Value>)
    ensures EncodeElements(items).Ok? ==> EmitElements(items) == EncodeElements(items).value
    decreases items
  {
    if items != [] {
      var n := |items| - 1;
      ElementsEmitOk(items[..n]);
      EmitOk(items[n]);
    }
  }

  lemma {:induction false} EntryEmitOk(entry: (Value, Value))
    ensures EncodeEntry(entry).Ok? ==> EmitEntry(entry) == EncodeEntry(entry).value
    decreases entry
  {
    EmitOk(entry.0);
    EmitOk(entry.1);
  }

  lemma {:induction false} EntriesEmitOk(entries: seq<(Value, Value)>)
    ensures EncodeEntries(entries).Ok? ==> EmitEntries(entries) == EncodeEntries(entries).value
    decreases entries
  {
    if entries != [] {
      var n := |entries| - 1;
      EntriesEmitOk(entries[..n]);
      EntryEmitOk(entries[n]);
    }
  }

  lemma {:induction false} FieldEmitOk(field: (seq<byte>, Value))
    ensures EncodeField(field).Ok? ==> EmitField(field) == EncodeField(field).value
    decreases field
  {
    EmitOk(field.1);
  }

  lemma {:induction false} FieldsEmitOk(fields: seq<(seq<byte>, Value)>)
    ensures EncodeFields(fields).Ok? ==> EmitFields(fields) == EncodeFields(fields).value
    decreases fields
  {
    if fields != [] {
      var n := |fields| - 1;
      FieldsEmitOk(fields[..n]);
      FieldEmitOk(fields[n]);
    }
  }

  // ---------------------------------------------------------------------
  // Growing a prefix, as the loops over elements, entries and fields do.

  lemma EmitElementsPrefix(items: seq<Value>, i: nat)
    requires i < |items| && EncodeElements(items[..i]).Ok?
    ensures EmitElements(items[..i + 1]) == EmitElements(items[..i]) + Emit(items[i])
  {
    assert items[..i + 1][..i] == items[..i];
  }

  lemma EmitEntriesPrefix(entries: seq<(Value, Value)>, i: nat)
    requires i < |entries| && EncodeEntries(entries[..i]).Ok?
    ensures EmitEntries(entries[..i + 1]) == EmitEntries(entries[..i]) + EmitEntry(entries[i])
  {
    assert entries[..i + 1][..i] == entries[..i];
  }

  lemma EmitFieldsPrefix(fields: seq<(seq<byte>, Value)>, i: nat)
    requires i < |fields| && EncodeFields(fields[..i]).Ok?
    ensures EmitFields(fields[..i + 1]) == EmitFields(fields[..i]) + EmitField(fields[i])
  {
    assert fields[..i + 1][..i] == fields[..i];
  }

  /** Once a prefix of the elements has failed, the elements after it add nothing. */
  lemma {:induction false} EmitElementsErr(items: seq<Value>, k: nat)
    requires k <= |items| && EncodeElements(items[..k]).Err?
    ensures EmitElements(items) == EmitElements(items[..k])
    decreases |items|
  {
    if k < |items| {
      var n := |items| - 1;
      var init := items[..n];
      assert init[..k] == items[..k];
      ElementsErr(init, k);
      EmitElementsErr(init, k);
    } else {
      assert items[..k] == items;
    }
  }

  lemma {:induction false} EmitEntriesErr(entries: seq<(Value, Value)>, k: nat)
    requires k <= |entries| && EncodeEntries(entries[..k]).Err?
    ensures EmitEntries(entries) == EmitEntries(entries[..k])
    decreases |entries|
  {
    if k < |entries| {
      var n := |entries| - 1;
      var init := entries[..n];
      assert init[..k] == entries[..k];
      EntriesErr(init, k);
      EmitEntriesErr(init, k);
    } else {
      assert entries[..k] == entries;
    }
  }

  lemma {:induction false} EmitFieldsErr(fields: seq<(seq<byte>, Value)>, k: nat)
    requires k <= |fields| && EncodeFields(fields[..k]).Err?
    ensures EmitFields(fields) == EmitFields(fields[..k])
    decreases |fields|
  {
    if k < |fields| {
      var n := |fields| - 1;
      var init := fields[..n];
      assert init[..k] == fields[..k];
      FieldsErr(init, k);
      EmitFieldsErr(init, k);
    } else {
      assert fields[..k] == fields;
    }
  }

  // ---------------------------------------------------------------------
  // On failure, the run stops at the first item that fails.

  /**
   * If element `k` is the first to fail, what the elements write is the
   * encoding of the ones before it and what element `k` wrote before it
   * failed; no later element writes anything.
   */
  lemma {:induction false} ElementsStop(items: seq<Value>, k: nat)
    requires k < |items| && EncodeElements(items[..k]).Ok? && Encode(items[k]).Err?
    ensures EncodeElements(items).Err? && EncodeElements(items).error == Encode(items[k]).error
    ensures EmitElements(items) == EncodeElements(items[..k]).value + Emit(items[k])
  {
    var upto := items[..k + 1];
    assert EncodeElements(upto) == Encode(items[k]) by { ElementsPrefix(items, k); }
    assert EncodeElements(items) == EncodeElements(upto) by { ElementsErr(items, k + 1); }
    assert EmitElements(upto) == EmitElements(items[..k]) + Emit(items[k]) by { EmitElementsPrefix(items, k); }
    assert EmitElements(items) == EmitElements(upto) by { EmitElementsErr(items, k + 1); }
    assert EmitElements(items[..k]) == EncodeElements(items[..k]).value by { ElementsEmitOk(items[..k]); }
  }

  /** If entry `k` is the first to fail, the entries after it write nothing. */
  lemma {:induction false} EntriesStop(entries: seq<(Value, Value)>, k: nat)
    requires k < |entries| && EncodeEntries(entries[..k]).Ok? && EncodeEntry(entries[k]).Err?
    ensures EncodeEntries(entries).Err? && EncodeEntries(entries).error == EncodeEntry(entries[k]).error
    ensures EmitEntries(entries) == EncodeEntries(entries[..k]).value + EmitEntry(entries[k])
  {
    var upto := entries[..k + 1];
    assert EncodeEntries(upto) == EncodeEntry(entries[k]) by { EntriesPrefix(entries, k); }
    assert EncodeEntries(entries) == EncodeEntries(upto) by { EntriesErr(entries, k + 1); }
    assert EmitEntries(upto) == EmitEntries(entries[..k]) + EmitEntry(entries[k]) by { EmitEntriesPrefix(entries, k); }
    assert EmitEntries(entries) == EmitEntries(upto) by { EmitEntriesErr(entries, k + 1); }
    assert EmitEntries(entries[..k]) == EncodeEntries(entries[..k]).value by { EntriesEmitOk(entries[..k]); }
  }

  /** If field `k` is the first to fail, the fields after it write nothing. */
  lemma {:induction false} FieldsStop(fields: seq<(seq<byte>, Value)>, k: nat)
    requires k < |fields| && EncodeFields(fields[..k]).Ok? && EncodeField(fields[k]).Err?
    ensures EncodeFields(fields).Err? && EncodeFields(fields).error == EncodeField(fields[k]).error
    ensures EmitFields(fields) == EncodeFields(fields[..k]).value + EmitField(fields[k])
  {
    var upto := fields[..k + 1];
    assert EncodeFields(upto) == EncodeField(fields[k]) by { FieldsPrefix(fields, k); }
    assert EncodeFields(fields) == EncodeFields(upto) by { FieldsErr(fields, k + 1); }
    assert EmitFields(upto) == EmitFields(fields[..k]) + EmitField(fields[k]) by { EmitFieldsPrefix(fields, k); }
    assert EmitFields(fields) == EmitFields(upto) by { EmitFieldsErr(fields, k + 1); }
    assert EmitFields(fields[..k]) == EncodeFields(fields[..k]).value by { FieldsEmitOk(fields[..k]); }
  }

  /** A map entry whose key fails writes `*2\r\n` and what the key wrote, and never starts its value. */
  lemma EntryKeyFails(key: Value, value: Value)
    requires Encode(key).Err?
    ensures EncodeEntry((key, value)) == Encode(key)
    ensures EmitEntry((key, value)) == ArrayHeader(2) + Emit(key)
  {
  }
}
