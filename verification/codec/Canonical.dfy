/** What the decoder accepts, the encoder can send on: every decoded message is a valid message. */
module Canonical {
  import opened Bits
  import opened Varint
  import opened VarintLaws
  import opened Schema
  import opened Encoding
  import opened Decoding
  import opened ScalarRoundTrip
  import opened RoundTrip
  import opened EncodeLaws

  // --------------------------------------------------------------------------
  // Sound schemas and messages
  // --------------------------------------------------------------------------

  /** What the descriptor compiler generates beyond WellFormed: integer fields of a legal width,
      room for the size of a bytes field, defaults of the field's type. */
  predicate SoundField(f: Field)
    decreases f
  {
    && (f.ltype.LVarint? || f.ltype.LUVarint? || f.ltype.LSVarint? ==> ValidWidth(f.dataSize))
    && (f.ltype.LBytes? ==> f.dataSize >= BYTES_HEADER)
    && (f.init.Some? && !f.ltype.LSubmessage? ==> ScalarSound(f, f.init.value))
    && (f.ltype.LSubmessage? ==> SoundSchema(f.ltype.sub))
  }

  predicate SoundSchema(fields: seq<Field>)
    decreases fields
  {
    WellFormed(fields) && forall i | 0 <= i < |fields| :: SoundField(fields[i])
  }

  /** A value that its field can hold and the encoder can write. */
  predicate ScalarSound(f: Field, v: Value)
  {
    && ScalarFits(f, v) && ScalarTerminated(f, v)
    && (f.ltype.LBytes? ==> |v.bytes| + BYTES_HEADER <= f.dataSize)
  }

  predicate ValueSound(f: Field, v: Value)
    decreases f, 0
  {
    if f.ltype.LSubmessage? then v.VMsg? && MessageSound(f.ltype.sub, v.slots) else ScalarSound(f, v)
  }

  predicate SlotSound(f: Field, s: Slot)
    decreases f, 1
  {
    match f.htype
    case Required => s.Plain? && ValueSound(f, s.v)
    case Optional => (if f.sizeOffset == 0 then s.Plain? else s.Opt?) && ValueSound(f, s.v)
    case Repeated => s.Rep? && |s.items| <= f.arraySize && forall k | 0 <= k < |s.items| :: ValueSound(f, s.items[k])
    case OneOf => s.Union? && (s.which == f.tag ==> ValueSound(f, s.v))
  }

  predicate MessageSound(fields: seq<Field>, msg: seq<Slot>)
    decreases fields
  {
    forall i | 0 <= i < |fields| :: SlotOf(fields, i) < |msg| && SlotSound(fields[i], msg[SlotOf(fields, i)])
  }

  /** Every fixed-count array that would be encoded holds `arraySize` items: one that was never
      received is memory that decoding does not initialise. */
  predicate ValueComplete(f: Field, v: Value)
    decreases f, 0
  {
    f.ltype.LSubmessage? ==> v.VMsg? && MessageComplete(f.ltype.sub, v.slots)
  }

  predicate SlotComplete(f: Field, s: Slot)
    decreases f, 1
  {
    match f.htype
    case Required => s.Plain? && ValueComplete(f, s.v)
    case Optional => if s.Opt? then s.has ==> ValueComplete(f, s.v) else s.Plain? && ValueComplete(f, s.v)
    case Repeated =>
      && s.Rep? && (FixedCount(f) ==> |s.items| == f.arraySize)
      && forall k | 0 <= k < |s.items| :: ValueComplete(f, s.items[k])
    case OneOf => s.Union? && (s.which == f.tag ==> ValueComplete(f, s.v))
  }

  predicate MessageComplete(fields: seq<Field>, msg: seq<Slot>)
    decreases fields
  {
    forall i | 0 <= i < |fields| :: SlotOf(fields, i) < |msg| && SlotComplete(fields[i], msg[SlotOf(fields, i)])
  }

  lemma {:induction false} SoundValue(f: Field, v: Value)
    requires SoundField(f) && ValueSound(f, v) && ValueComplete(f, v)
    ensures ValueFits(f, v) && ValueEncodable(f, v) && ValueTerminated(f, v)
    decreases f, 0
  {
    hide MessageSound, MessageComplete, SoundSchema, Matches, ScalarFits, ScalarTerminated, Encodable, Terminated;
    if f.ltype.LSubmessage? { SoundMessage(f.ltype.sub, v.slots); }
  }

  lemma {:induction false} SoundSlot(f: Field, s: Slot)
    requires SoundField(f) && SlotSound(f, s) && SlotComplete(f, s)
    ensures SlotFits(f, s) && SlotEncodable(f, s) && SlotTerminated(f, s)
    decreases f, 1
  {
    hide ValueSound, ValueComplete, ValueFits, ValueEncodable, ValueTerminated, SoundField, IsZeroSlot;
    match f.htype {
      case Required => SoundValue(f, s.v);
      case Optional =>
        if s.Opt? {
          if s.has { SoundValue(f, s.v); }
        } else {
          SoundValue(f, s.v);
        }
      case Repeated =>
        forall k | 0 <= k < |s.items|
          ensures ValueFits(f, s.items[k]) && ValueEncodable(f, s.items[k]) && ValueTerminated(f, s.items[k])
        {
          SoundValue(f, s.items[k]);
        }
      case OneOf => if s.which == f.tag { SoundValue(f, s.v); }
    }
  }

  lemma {:induction false} SoundMessage(fields: seq<Field>, msg: seq<Slot>)
    requires SoundSchema(fields) && MessageSound(fields, msg) && MessageComplete(fields, msg)
    ensures Matches(fields, msg) && Encodable(fields, msg) && Terminated(fields, msg)
    decreases fields, 2
  {
    hide SoundField, SlotSound, SlotComplete, SlotFits, SlotEncodable, SlotTerminated, WellFormed;
    forall i | 0 <= i < |fields|
      ensures SlotOf(fields, i) < |msg| && SlotFits(fields[i], msg[SlotOf(fields, i)])
    {
      assert SlotComplete(fields[i], msg[SlotOf(fields, i)]);
      SoundSlot(fields[i], msg[SlotOf(fields, i)]);
    }
    assert Matches(fields, msg);
    forall i | 0 <= i < |fields|
      ensures SlotEncodable(fields[i], msg[SlotOf(fields, i)]) && SlotTerminated(fields[i], msg[SlotOf(fields, i)])
    {
      assert SlotComplete(fields[i], msg[SlotOf(fields, i)]);
      SoundSlot(fields[i], msg[SlotOf(fields, i)]);
    }
  }

  // --------------------------------------------------------------------------
  // Decoded scalars
  // --------------------------------------------------------------------------

  lemma {:induction false} LittleEndianBound(s: seq<byte>)
    ensures FromLittleEndian(s) < Pow2(8 * |s|)
  {
    if s == [] {
    } else {
      LittleEndianBound(s[1..]);
      var p := Pow2(8 * |s[1..]|);
      assert 8 * |s| == 8 * |s[1..]| + 8;
      TimesByte(8 * |s[1..]|);
    }
  }

  lemma TimesByte(k: nat)
    ensures Pow2(k + 8) == 0x100 * Pow2(k)
  {
    assert Pow2(k + 8) == 2 * Pow2(k + 7) == 4 * Pow2(k + 6) == 8 * Pow2(k + 5) == 16 * Pow2(k + 4);
    assert Pow2(k + 4) == 2 * Pow2(k + 3) == 4 * Pow2(k + 2) == 8 * Pow2(k + 1) == 16 * Pow2(k);
  }

  lemma ClampsSound(f: Field, v: nat)
    requires ValidWidth(f.dataSize)
    ensures ClampVarint(f.dataSize, v).Some? && f.ltype.LVarint? ==> ScalarFits(f, ClampVarint(f.dataSize, v).value)
    ensures ClampUVarint(f.dataSize, v).Some? && f.ltype.LUVarint? ==> ScalarFits(f, ClampUVarint(f.dataSize, v).value)
    ensures ClampSVarint(f.dataSize, v).Some? && f.ltype.LSVarint? ==> ScalarFits(f, ClampSVarint(f.dataSize, v).value)
  {
    TruncateFits(f.dataSize, if f.dataSize == 8 then AsInt64(U64(v)) else Truncate(4, v));
    TruncateFits(f.dataSize, UnZigZag(U64(v)));
    hide Truncate, UnZigZag, AsInt64;
  }

  lemma TruncateFits(size: nat, n: int)
    requires ValidWidth(size)
    ensures FitsSigned(size, Truncate(size, n))
  {
  }

  lemma FixedSound(f: Field, s: seq<byte>)
    requires f.ltype.LFixed32? || f.ltype.LFixed64?
    ensures DecScalar(f, s).Got? ==> ScalarSound(f, DecScalar(f, s).value)
  {
    var k: nat := if f.ltype.LFixed32? then 4 else 8;
    assert Pow2(32) == TWO32 && Pow2(64) == TWO64 by { Pow2Values(); }
    hide FromLittleEndian, Pow2, DecBool, DecInteger, DecBytes, DecString, DecFixedBytes;
    assert DecScalar(f, s) == DecFixed(k, s);
    hide DecScalar;
    if |s| >= k { LittleEndianBound(s[..k]); }
  }

  lemma IntegerSound(f: Field, s: seq<byte>)
    requires f.ltype.LVarint? || f.ltype.LUVarint? || f.ltype.LSVarint?
    requires ValidWidth(f.dataSize)
    ensures DecScalar(f, s).Got? ==> ScalarSound(f, DecScalar(f, s).value)
  {
    hide ScalarFits, DecVarint64, ClampVarint, ClampUVarint, ClampSVarint;
    if DecVarint64(s).Got? { ClampsSound(f, DecVarint64(s).value); }
  }

  lemma StringSound(f: Field, s: seq<byte>)
    requires f.ltype.LString?
    ensures DecScalar(f, s).Got? ==> ScalarSound(f, DecScalar(f, s).value)
  {
    hide DecVarint32, DecInteger, DecFixed, DecBytes, DecFixedBytes, CString, Take;
    var r := DecString(f, s);
    if r.Got? {
      assert 0 in r.value.bytes;
      TerminatedMeansNul(f, r.value);
    }
  }

  lemma DecScalarSound(f: Field, s: seq<byte>)
    requires SoundField(f) && !f.ltype.LSubmessage?
    ensures DecScalar(f, s).Got? ==> ScalarSound(f, DecScalar(f, s).value)
  {
    hide DecVarint32;
    if f.ltype.LVarint? || f.ltype.LUVarint? || f.ltype.LSVarint? {
      IntegerSound(f, s);
    } else if f.ltype.LFixed32? || f.ltype.LFixed64? {
      FixedSound(f, s);
    } else if f.ltype.LString? {
      StringSound(f, s);
    } else {
      hide DecInteger, DecFixed, DecString;
    }
  }

  // --------------------------------------------------------------------------
  // Defaults
  // --------------------------------------------------------------------------

  lemma {:induction false} DefaultSound(f: Field)
    requires WellFormedField(f) && SoundField(f)
    ensures SlotSound(f, DefaultSlot(f)) && ValueSound(f, DefaultValue(f))
    decreases f
  {
    hide MessageSound, SoundSchema, WellFormed, Defaults;
    if f.ltype.LSubmessage? { DefaultsSound(f.ltype.sub); }
    assert f.tag != 0;
  }

  lemma {:induction false} DefaultsSound(fields: seq<Field>)
    requires SoundSchema(fields)
    ensures MessageSound(fields, Defaults(fields))
    decreases fields
  {
    hide SlotOf, Defaults, SlotSound, SoundField, WellFormedField;
    forall i | 0 <= i < |fields|
      ensures SlotOf(fields, i) < |Defaults(fields)| && SlotSound(fields[i], Defaults(fields)[SlotOf(fields, i)])
    {
      DefaultsAt(fields, i);
      DefaultSound(fields[i]);
    }
  }

  // --------------------------------------------------------------------------
  // Decoding keeps messages sound
  // --------------------------------------------------------------------------

  lemma NewItemSound(f: Field)
    requires WellFormedField(f) && SoundField(f) && f.ltype.LSubmessage?
    ensures ValueSound(f, NewItem(f))
  {
    hide MessageSound, SoundSchema, WellFormed, Defaults;
    DefaultsSound(f.ltype.sub);
  }

  /** Non-messages are overwritten; a submessage is merged into a sound one. */
  lemma {:induction false} DecValueSound(f: Field, prior: Value, s: seq<byte>)
    requires SoundField(f) && (f.ltype.LSubmessage? ==> ValueSound(f, prior))
    ensures DecValue(f, prior, s).Got? ==> ValueSound(f, DecValue(f, prior, s).value)
    decreases |s|, 1
  {
    if !f.ltype.LSubmessage? {
      DecScalarSound(f, s);
    } else {
      hide DecodeInto, MessageSound, SoundSchema, DecPrefixed;
      if DecPrefixed(s).Got? { IntoSound(f.ltype.sub, prior.slots, DecPrefixed(s).value); }
    }
  }

  predicate ItemsSound(f: Field, items: seq<Value>)
  {
    forall k | 0 <= k < |items| :: ValueSound(f, items[k])
  }

  lemma PutSound(f: Field, items: seq<Value>, k: nat, v: Value)
    requires ItemsSound(f, items) && k <= |items| && ValueSound(f, v)
    ensures ItemsSound(f, PutItem(items, k, v))
  {
    hide ValueSound;
  }

  lemma {:induction false} PackedSound(f: Field, items: seq<Value>, k: nat, s: seq<byte>)
    requires SoundField(f) && !f.ltype.LSubmessage? && ItemsSound(f, items) && k <= |items| <= f.arraySize
    ensures var r := PackedLoop(f, items, k, s);
            r.Got? ==> ItemsSound(f, r.value.0) && |r.value.0| <= f.arraySize
    decreases |s|
  {
    if s == [] || k >= f.arraySize || DecScalar(f, s).Fail? {
    } else {
      DecScalarSound(f, s);
      var v := DecScalar(f, s).value;
      assert ValueSound(f, v);
      hide DecScalar, ItemsSound, ValueSound, SoundField;
      PutSound(f, items, k, v);
      PackedSound(f, PutItem(items, k, v), k + 1, DecScalar(f, s).rest);
    }
  }

  lemma {:induction false} DecStaticSound(f: Field, wireType: nat, slot: Slot, count: nat, s: seq<byte>)
    requires WellFormedField(f) && SoundField(f) && SlotSound(f, slot)
    ensures var r := DecStatic(f, wireType, slot, count, s);
            r.Got? ==> SlotSound(f, r.value.slot)
    decreases |s|, 2
  {
    if f.ltype.LSubmessage? { NewItemSound(f); }
    hide DecValue, ValueSound, SoundField, WellFormedField, DecPrefixed, PackedLoop, NewItem;
    match f.htype {
      case Required => DecValueSound(f, slot.v, s);
      case Optional => DecValueSound(f, slot.v, s);
      case OneOf => DecValueSound(f, NewItem(f), s);
      case Repeated =>
        assert ItemsSound(f, slot.items);
        if count > |slot.items| {
        } else if wireType == WT_STRING && Packable(f.ltype) {
          if DecPrefixed(s).Got? { PackedSound(f, slot.items, count, DecPrefixed(s).value); }
        } else {
          DecValueSound(f, NewItem(f), s);
          var p := DecValue(f, NewItem(f), s);
          if p.Got? { PutSound(f, slot.items, count, p.value); }
        }
    }
  }

  /** A slot written for position i is sound for every member of its oneof. */
  lemma SlotPutSound(fields: seq<Field>, msg: seq<Slot>, i: nat, slot: Slot)
    requires i < |fields| && DistinctTags(fields) && MessageSound(fields, msg) && SlotSound(fields[i], slot)
    requires fields[i].htype.OneOf? ==> slot.Union? && slot.which == fields[i].tag
    ensures MessageSound(fields, msg[SlotOf(fields, i) := slot])
  {
    hide SlotOf, ValueSound;
    forall j | 0 <= j < |fields|
      ensures SlotOf(fields, j) < |msg| && SlotSound(fields[j], msg[SlotOf(fields, i) := slot][SlotOf(fields, j)])
    {
      if i < j { SharedSlotIsOneOf(fields, i, j); }
      if j < i { SharedSlotIsOneOf(fields, j, i); }
    }
  }

  lemma OneOfWritten(f: Field, wireType: nat, slot: Slot, count: nat, s: seq<byte>)
    requires f.htype.OneOf? && DecStatic(f, wireType, slot, count, s).Got?
    ensures DecStatic(f, wireType, slot, count, s).value.slot.Union?
    ensures DecStatic(f, wireType, slot, count, s).value.slot.which == f.tag
  {
    hide DecValue;
  }

  lemma {:induction false} RecordSound(fields: seq<Field>, st: State, i: nat, wireType: nat, s: seq<byte>)
    requires i < |fields| && SoundSchema(fields) && MessageSound(fields, st.msg)
    ensures var r := DecRecordAt(fields, st, i, wireType, s); r.Got? ==> MessageSound(fields, r.value.msg)
    decreases |s|, 3
  {
    assert WellFormedField(fields[i]) && SoundField(fields[i]);
    assert SlotOf(fields, i) < |st.msg| && SlotSound(fields[i], st.msg[SlotOf(fields, i)]);
    hide DecStatic, SlotSound, SlotOf, SoundField, WellFormedField, MessageSound, FixedComplete;
    var r := DecRecordAt(fields, st, i, wireType, s);
    if r.Got? {
      var f, slot, entered := fields[i], st.msg[SlotOf(fields, i)], EnterFixed(fields, st, i).value;
      var count := CountOf(f, slot, MarkSeen(fields, entered, i));
      DecStaticSound(f, wireType, slot, count, s);
      if f.htype.OneOf? { OneOfWritten(f, wireType, slot, count, s); }
      SlotPutSound(fields, st.msg, i, DecStatic(f, wireType, slot, count, s).value.slot);
    }
  }

  lemma {:induction false} LoopSound(fields: seq<Field>, st: State, s: seq<byte>)
    requires SoundSchema(fields) && MessageSound(fields, st.msg)
    ensures DecLoop(fields, st, s).Done? ==> MessageSound(fields, DecLoop(fields, st, s).st.msg)
    decreases |s|, 5
  {
    hide DecRecordAt, MessageSound, DecTag, SoundSchema, SkipField, DecVarint32, Find;
    if s == [] || !DecTag(s).Tag? {
    } else {
      var t := DecTag(s);
      if Find(fields, t.tag).Some? { RecordSound(fields, st, Find(fields, t.tag).value, t.wireType, t.rest); }
      var r := DecRecord(fields, st, t.tag, t.wireType, t.rest);
      assert r.Got? ==> MessageSound(fields, r.value.msg);
      hide DecRecord;
      if r.Got? { LoopSound(fields, r.value, r.rest); }
    }
  }

  lemma {:induction false} IntoSound(fields: seq<Field>, msg: seq<Slot>, s: seq<byte>)
    requires SoundSchema(fields) && MessageSound(fields, msg)
    ensures DecodeInto(fields, msg, s).Got? ==> MessageSound(fields, DecodeInto(fields, msg, s).value)
    decreases |s|, 6
  {
    hide DecLoop, MessageSound, SoundSchema;
    LoopSound(fields, Start(msg), s);
  }

  /** Whatever bytes the decoder accepts, the message it builds has values that fit their fields,
      counts within their arrays and terminated strings. If every fixed-count array in it has been
      received, it encodes, and (below 2^32 bytes) the encoding decodes to the same message. */
  lemma DecodedReencodes(fields: seq<Field>, s: seq<byte>)
    requires SoundSchema(fields) && Decode(fields, s).Got?
    ensures MessageSound(fields, Decode(fields, s).value)
    ensures var msg := Decode(fields, s).value;
            MessageComplete(fields, msg) ==>
              && Matches(fields, msg) && Encode(fields, msg).Some?
              && (|Encode(fields, msg).value| < TWO32 ==>
                    Decode(fields, Encode(fields, msg).value).Got? &&
                    SameMessage(fields, Decode(fields, Encode(fields, msg).value).value, msg))
  {
    hide DecodeInto, MessageSound, MessageComplete, Defaults, WellFormedField, SoundField, EncMsg, Matches, SameMessage,
         Encodable, Terminated;
    var msg := Decode(fields, s).value;
    DefaultsSound(fields);
    IntoSound(fields, Defaults(fields), s);
    if MessageComplete(fields, msg) {
      SoundMessage(fields, msg);
      EncodeSucceeds(fields, msg);
      if |Encode(fields, msg).value| < TWO32 { MessageRoundTrips(fields, msg); }
    }
  }

  /** Without fixed-count arrays a sound message is complete. */
  lemma {:induction false} NoFixedComplete(fields: seq<Field>, msg: seq<Slot>)
    requires MessageSound(fields, msg) && NoFixedArrays(fields)
    ensures MessageComplete(fields, msg)
    decreases fields, 2
  {
    hide SlotSound, SlotComplete, SlotOf, NoFixedArray;
    forall i | 0 <= i < |fields|
      ensures SlotOf(fields, i) < |msg| && SlotComplete(fields[i], msg[SlotOf(fields, i)])
    {
      assert NoFixedArray(fields[i]) && SlotSound(fields[i], msg[SlotOf(fields, i)]);
      NoFixedSlot(fields[i], msg[SlotOf(fields, i)]);
    }
  }

  predicate NoFixedArray(f: Field)
    decreases f
  {
    !FixedCount(f) && (f.ltype.LSubmessage? ==> NoFixedArrays(f.ltype.sub))
  }

  predicate NoFixedArrays(fields: seq<Field>)
    decreases fields
  {
    forall i | 0 <= i < |fields| :: NoFixedArray(fields[i])
  }

  lemma {:induction false} NoFixedSlot(f: Field, s: Slot)
    requires SlotSound(f, s) && NoFixedArray(f)
    ensures SlotComplete(f, s)
    decreases f, 1
  {
    hide ValueSound, ValueComplete;
    match f.htype {
      case Repeated =>
        forall k | 0 <= k < |s.items| ensures ValueComplete(f, s.items[k]) { NoFixedValue(f, s.items[k]); }
      case OneOf => if s.which == f.tag { NoFixedValue(f, s.v); }
      case _ => NoFixedValue(f, s.v);
    }
  }

  lemma {:induction false} NoFixedValue(f: Field, v: Value)
    requires ValueSound(f, v) && NoFixedArray(f)
    ensures ValueComplete(f, v)
    decreases f, 0
  {
    hide MessageSound, MessageComplete, NoFixedArrays;
    if f.ltype.LSubmessage? { NoFixedComplete(f.ltype.sub, v.slots); }
  }
}
