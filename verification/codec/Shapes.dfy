/** The struct layout a descriptor promises, and that decoding keeps it. */
module Shapes {
  import opened Bits
  import opened Varint
  import opened Schema
  import opened Decoding

  /** The memory of a submessage is a struct of its descriptor. */
  predicate ValueShaped(f: Field, v: Value)
    decreases f, 0
  {
    f.ltype.LSubmessage? ==> v.VMsg? && Shaped(f.ltype.sub, v.slots)
  }

  predicate SlotShaped(f: Field, s: Slot)
    decreases f, 1
  {
    match f.htype
    case Required => s.Plain? && ValueShaped(f, s.v)
    case Optional => (if f.sizeOffset == 0 then s.Plain? else s.Opt?) && ValueShaped(f, s.v)
    case Repeated => s.Rep?
    case OneOf => s.Union?
  }

  predicate Shaped(fields: seq<Field>, msg: seq<Slot>)
    decreases fields
  {
    forall i | 0 <= i < |fields| :: SlotOf(fields, i) < |msg| && SlotShaped(fields[i], msg[SlotOf(fields, i)])
  }

  /** The decoding state: the fixed-count array being received holds the items counted. */
  predicate StateShaped(fields: seq<Field>, st: State)
  {
    && Shaped(fields, st.msg)
    && (st.fixedField.Some? ==> ReceivingAt(fields, st))
  }

  predicate ReceivingAt(fields: seq<Field>, st: State)
    requires Shaped(fields, st.msg) && st.fixedField.Some?
  {
    var i := st.fixedField.value;
    i < |fields| && FixedCount(fields[i]) && st.msg[SlotOf(fields, i)].Rep?
      && st.fixedSize <= |st.msg[SlotOf(fields, i)].items|
  }

  lemma {:induction false} DefaultsShaped(fields: seq<Field>)
    ensures Shaped(fields, Defaults(fields))
    decreases fields
  {
    hide SlotOf, Defaults;
    forall i | 0 <= i < |fields|
      ensures SlotOf(fields, i) < |Defaults(fields)| && SlotShaped(fields[i], Defaults(fields)[SlotOf(fields, i)])
    {
      DefaultsAt(fields, i);
      DefaultShaped(fields[i]);
    }
  }

  lemma {:induction false} DefaultShaped(f: Field)
    ensures SlotShaped(f, DefaultSlot(f))
    decreases f
  {
    hide Defaults;
    if f.ltype.LSubmessage? { DefaultsShaped(f.ltype.sub); }
  }

  lemma NewItemShaped(f: Field)
    ensures ValueShaped(f, NewItem(f))
  {
    if f.ltype.LSubmessage? { DefaultsShaped(f.ltype.sub); }
  }

  lemma {:induction false} DecValueShaped(f: Field, prior: Value, s: seq<byte>)
    requires ValueShaped(f, prior)
    ensures DecValue(f, prior, s).Got? ==> ValueShaped(f, DecValue(f, prior, s).value)
    decreases |s|, 1
  {
    hide DecodeInto, Shaped, DecPrefixed, DecScalar;
    if f.ltype.LSubmessage? && DecPrefixed(s).Got? {
      IntoShaped(f.ltype.sub, prior.slots, DecPrefixed(s).value);
    }
  }

  lemma {:induction false} DecStaticShaped(f: Field, wireType: nat, slot: Slot, count: nat, s: seq<byte>)
    requires SlotShaped(f, slot)
    ensures var r := DecStatic(f, wireType, slot, count, s);
            r.Got? ==>
              && SlotShaped(f, r.value.slot)
              && (f.htype.Repeated? ==> r.value.slot.Rep? && r.value.count <= |r.value.slot.items|)
    decreases |s|, 2
  {
    hide DecValue, ValueShaped, PackedLoop, DecPrefixed;
    match f.htype {
      case Required => DecValueShaped(f, slot.v, s);
      case Optional => DecValueShaped(f, slot.v, s);
      case Repeated =>
      case OneOf =>
    }
  }

  lemma {:induction false} RecordAtShaped(fields: seq<Field>, st: State, i: nat, wireType: nat, s: seq<byte>)
    requires i < |fields| && StateShaped(fields, st)
    ensures var r := DecRecordAt(fields, st, i, wireType, s); r.Got? ==> StateShaped(fields, r.value)
    decreases |s|, 3
  {
    hide DecStatic, SlotShaped, SlotOf;
    var r := DecRecordAt(fields, st, i, wireType, s);
    if r.Got? {
      var k := SlotOf(fields, i);
      var st' := MarkSeen(fields, EnterFixed(fields, st, i).value, i);
      var f := fields[i];
      var d := DecStatic(f, wireType, st'.msg[k], CountOf(f, st'.msg[k], st'), s).value;
      DecStaticShaped(f, wireType, st'.msg[k], CountOf(f, st'.msg[k], st'), s);
      SlotPut(fields, st.msg, i, d.slot);
      if r.value.fixedField.Some? && r.value.fixedField.value != i {
        var j := r.value.fixedField.value;
        if i < j { SharedSlotIsOneOf(fields, i, j); } else { SharedSlotIsOneOf(fields, j, i); }
      }
    }
  }

  /** Replacing a slot by one that fits its position: other members of the oneof fit it too. */
  lemma SlotPut(fields: seq<Field>, msg: seq<Slot>, i: nat, slot: Slot)
    requires i < |fields| && Shaped(fields, msg) && SlotShaped(fields[i], slot)
    ensures Shaped(fields, msg[SlotOf(fields, i) := slot])
  {
    hide SlotOf, ValueShaped;
    forall j | 0 <= j < |fields|
      ensures SlotOf(fields, j) < |msg| && SlotShaped(fields[j], msg[SlotOf(fields, i) := slot][SlotOf(fields, j)])
    {
      if i < j { SharedSlotIsOneOf(fields, i, j); }
      if j < i { SharedSlotIsOneOf(fields, j, i); }
    }
  }

  lemma {:induction false} RecordShaped(fields: seq<Field>, st: State, tag: nat, wireType: nat, s: seq<byte>)
    requires StateShaped(fields, st)
    ensures var r := DecRecord(fields, st, tag, wireType, s); r.Got? ==> StateShaped(fields, r.value)
    decreases |s|, 4
  {
    hide DecRecordAt, StateShaped, SkipField, DecVarint32, Find;
    if Find(fields, tag).Some? { RecordAtShaped(fields, st, Find(fields, tag).value, wireType, s); }
  }

  lemma {:induction false} LoopShaped(fields: seq<Field>, st: State, s: seq<byte>)
    requires StateShaped(fields, st)
    ensures DecLoop(fields, st, s).Done? ==> StateShaped(fields, DecLoop(fields, st, s).st)
    decreases |s|, 5
  {
    hide DecRecord, StateShaped, DecTag;
    if s == [] || !DecTag(s).Tag? {
    } else {
      var t := DecTag(s);
      RecordShaped(fields, st, t.tag, t.wireType, t.rest);
      var r := DecRecord(fields, st, t.tag, t.wireType, t.rest);
      if r.Got? { LoopShaped(fields, r.value, r.rest); }
    }
  }

  /** Decoding into a struct of the descriptor gives a struct of the descriptor. */
  lemma {:induction false} IntoShaped(fields: seq<Field>, msg: seq<Slot>, s: seq<byte>)
    requires Shaped(fields, msg)
    ensures DecodeInto(fields, msg, s).Got? ==> Shaped(fields, DecodeInto(fields, msg, s).value)
    decreases |s|, 6
  {
    hide DecLoop, Shaped;
    LoopShaped(fields, Start(msg), s);
  }
}
