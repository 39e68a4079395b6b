/** CountLaws at every depth: the arrays of submessages, too, are received whole or not at all. */
module NestedCounts {
  import opened Bits
  import opened Varint
  import opened Schema
  import opened Encoding
  import opened Decoding
  import opened CountLaws

  predicate ValueCounts(f: Field, v: Value)
    decreases f, 0
  {
    f.ltype.LSubmessage? && v.VMsg? ==> AllCounts(f.ltype.sub, v.slots)
  }

  /** The values in a slot: all items of an array, the selected member of a oneof. */
  predicate ContentCounts(f: Field, s: Slot)
    decreases f, 1
  {
    match s
    case Plain(v) => ValueCounts(f, v)
    case Opt(_, v) => ValueCounts(f, v)
    case Rep(items) => forall k | 0 <= k < |items| :: ValueCounts(f, items[k])
    case Union(which, v) => which == f.tag ==> ValueCounts(f, v)
  }

  predicate ContentsCount(fields: seq<Field>, msg: seq<Slot>)
    decreases fields, 0
  {
    forall i | 0 <= i < |fields| :: SlotOf(fields, i) < |msg| ==> ContentCounts(fields[i], msg[SlotOf(fields, i)])
  }

  /** The counts of this struct and of all structs in it. */
  predicate AllCounts(fields: seq<Field>, msg: seq<Slot>)
    decreases fields, 1
  {
    CountsOk(fields, msg) && ContentsCount(fields, msg)
  }

  lemma {:induction false} DefaultCounts(f: Field)
    ensures ContentCounts(f, DefaultSlot(f)) && ValueCounts(f, DefaultValue(f)) && ValueCounts(f, NewItem(f))
    decreases f, 0
  {
    hide AllCounts, Defaults;
    if f.ltype.LSubmessage? {
      DefaultsCount(f.ltype.sub);
    }
  }

  lemma {:induction false} DefaultsCount(fields: seq<Field>)
    ensures AllCounts(fields, Defaults(fields))
    decreases fields, 1
  {
    hide SlotOf, Defaults, DefaultSlot, ContentCounts;
    forall i | 0 <= i < |fields|
      ensures CountOk(fields, Defaults(fields), i) && SlotOf(fields, i) < |Defaults(fields)|
      ensures ContentCounts(fields[i], Defaults(fields)[SlotOf(fields, i)])
    {
      DefaultsAt(fields, i);
      DefaultCounts(fields[i]);
      FreshArray(fields[i]);
    }
  }

  lemma FreshArray(f: Field)
    ensures f.htype.Repeated? ==> DefaultSlot(f) == Rep([])
    ensures DefaultSlot(f).Rep? ==> DefaultSlot(f).items == []
  {
  }

  lemma {:induction false} DecValueCounts(f: Field, prior: Value, s: seq<byte>)
    requires WellFormedField(f) && ValueCounts(f, prior)
    ensures DecValue(f, prior, s).Got? ==> ValueCounts(f, DecValue(f, prior, s).value)
    decreases |s|, 1
  {
    hide DecodeInto, AllCounts, WellFormed, DecPrefixed, DecScalar;
    if f.ltype.LSubmessage? && DecPrefixed(s).Got? && prior.VMsg? {
      IntoCounts(f.ltype.sub, prior.slots, DecPrefixed(s).value);
    }
  }

  lemma {:induction false} DecStaticCounts(f: Field, wireType: nat, slot: Slot, count: nat, s: seq<byte>)
    requires WellFormedField(f) && ContentCounts(f, slot)
    ensures var r := DecStatic(f, wireType, slot, count, s);
            r.Got? ==> ContentCounts(f, r.value.slot)
    decreases |s|, 2
  {
    hide DecValue, ValueCounts, WellFormedField, NewItem, DecPackedRecord;
    DefaultCounts(f);
    if f.htype.Required? || f.htype.Optional? {
      if slot.Plain? || slot.Opt? { DecValueCounts(f, slot.v, s); }
    } else if f.htype.Repeated? && wireType == WT_STRING && Packable(f.ltype) {
      if slot.Rep? && count <= |slot.items| { PackedContents(f, slot.items, count, s); }
    } else {
      DecValueCounts(f, NewItem(f), s);
    }
  }

  lemma PackedContents(f: Field, items: seq<Value>, count: nat, s: seq<byte>)
    requires Packable(f.ltype) && count <= |items|
    ensures var r := DecPackedRecord(f, items, count, s);
            r.Got? ==> ContentCounts(f, r.value.slot)
  {
    hide PackedLoop, DecPrefixed, AllCounts;
  }

  lemma RecordContents(fields: seq<Field>, msg: seq<Slot>, i: nat, slot: Slot)
    requires i < |fields| && DistinctTags(fields) && ContentsCount(fields, msg) && ContentCounts(fields[i], slot)
    requires fields[i].htype.OneOf? ==> slot.Union? && slot.which == fields[i].tag
    requires SlotOf(fields, i) < |msg|
    ensures ContentsCount(fields, msg[SlotOf(fields, i) := slot])
  {
    hide SlotOf, ValueCounts;
    var next := msg[SlotOf(fields, i) := slot];
    forall j | 0 <= j < |fields|
      ensures SlotOf(fields, j) < |next| ==> ContentCounts(fields[j], next[SlotOf(fields, j)])
    {
      if i < j { SharedSlotIsOneOf(fields, i, j); }
      if j < i { SharedSlotIsOneOf(fields, j, i); }
    }
  }

  lemma MemberWritten(f: Field, wireType: nat, slot: Slot, count: nat, s: seq<byte>)
    requires f.htype.OneOf? && DecStatic(f, wireType, slot, count, s).Got?
    ensures DecStatic(f, wireType, slot, count, s).value.slot.Union?
    ensures DecStatic(f, wireType, slot, count, s).value.slot.which == f.tag
  {
    hide DecValue;
  }

  lemma {:induction false} RecordKeepsContents(fields: seq<Field>, st: State, i: nat, wireType: nat, s: seq<byte>)
    requires i < |fields| && WellFormed(fields) && ContentsCount(fields, st.msg)
    ensures var r := DecRecordAt(fields, st, i, wireType, s); r.Got? ==> ContentsCount(fields, r.value.msg)
    decreases |s|, 3
  {
    hide DecStatic, ContentCounts, SlotOf, WellFormedField, FixedComplete;
    var r := DecRecordAt(fields, st, i, wireType, s);
    if r.Got? {
      var f, slot, entered := fields[i], st.msg[SlotOf(fields, i)], EnterFixed(fields, st, i).value;
      var count := CountOf(f, slot, MarkSeen(fields, entered, i));
      DecStaticCounts(f, wireType, slot, count, s);
      if f.htype.OneOf? { MemberWritten(f, wireType, slot, count, s); }
      RecordContents(fields, st.msg, i, DecStatic(f, wireType, slot, count, s).value.slot);
    }
  }

  lemma {:induction false} LoopKeepsContents(fields: seq<Field>, st: State, s: seq<byte>)
    requires WellFormed(fields) && ContentsCount(fields, st.msg)
    ensures DecLoop(fields, st, s).Done? ==> ContentsCount(fields, DecLoop(fields, st, s).st.msg)
    decreases |s|, 5
  {
    hide DecRecordAt, ContentsCount, DecTag, WellFormed, SkipField, DecVarint32, Find;
    if s == [] || !DecTag(s).Tag? {
    } else {
      var t := DecTag(s);
      if Find(fields, t.tag).Some? { RecordKeepsContents(fields, st, Find(fields, t.tag).value, t.wireType, t.rest); }
      var r := DecRecord(fields, st, t.tag, t.wireType, t.rest);
      assert r.Got? ==> ContentsCount(fields, r.value.msg);
      hide DecRecord;
      if r.Got? { LoopKeepsContents(fields, r.value, r.rest); }
    }
  }

  /** After a whole decode, and at every depth, an array holds at most `arraySize` items, and a
      fixed-count array all of its items or none. */
  lemma {:induction false} IntoCounts(fields: seq<Field>, msg: seq<Slot>, s: seq<byte>)
    requires WellFormed(fields) && AllCounts(fields, msg)
    ensures DecodeInto(fields, msg, s).Got? ==> AllCounts(fields, DecodeInto(fields, msg, s).value)
    decreases |s|, 6
  {
    hide DecLoop, CountsOk, ContentsCount, WellFormed;
    DecodedCounts(fields, msg, s);
    LoopKeepsContents(fields, Start(msg), s);
  }

  /** In particular when decoding starts from the defaults. */
  lemma FreshAllCounts(fields: seq<Field>, s: seq<byte>)
    requires WellFormed(fields)
    ensures Decode(fields, s).Got? ==> AllCounts(fields, Decode(fields, s).value)
  {
    hide DecodeInto, AllCounts, Defaults, WellFormed;
    DefaultsCount(fields);
    IntoCounts(fields, Defaults(fields), s);
  }
}
