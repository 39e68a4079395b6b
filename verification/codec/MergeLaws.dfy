/** A field that occurs again: submessages are merged, everything else that is singular is replaced. */
module MergeLaws {
  import opened Bits
  import opened Varint
  import opened Options
  import opened Schema
  import opened Encoding
  import opened Decoding
  import opened ScalarRoundTrip
  import opened RoundTrip
  import opened Locality
  import opened DecodeLaws
  import opened DefaultLaws

  /** A record of a submessage. */
  function MessageRecord(tag: nat, body: seq<byte>): seq<byte>
  {
    EncTag(2, tag) + Prefixed(body)
  }

  /** The struct, and its slot kind, that a record of position i finds. */
  predicate HoldsMessage(f: Field, slot: Slot)
  {
    && (if f.htype.Optional? && f.sizeOffset != 0 then slot.Opt? else slot.Plain?)
    && slot.v.VMsg?
  }

  function WithMessage(f: Field, msg: seq<Slot>): Slot
  {
    if f.htype.Optional? && f.sizeOffset != 0 then Opt(true, VMsg(msg)) else Plain(VMsg(msg))
  }

  lemma StaticMessage(f: Field, slot: Slot, count: nat, body: seq<byte>, t: seq<byte>)
    requires SingularMessage(f) && HoldsMessage(f, slot) && |body| < TWO32
    ensures DecStatic(f, 2, slot, count, Prefixed(body) + t) ==
            var r := DecodeInto(f.ltype.sub, slot.v.slots, body);
            if r.Fail? then Fail else Got(Stored(WithMessage(f, r.value), count), t)
  {
    hide DecodeInto, DecPrefixed, Prefixed;
    PrefixedSplit(body, t);
    var p := DecValue(f, slot.v, Prefixed(body) + t);
    var r := DecodeInto(f.ltype.sub, slot.v.slots, body);
    assert p == if r.Fail? then Fail else Got(VMsg(r.value), t);
  }

  /** What a record of a singular submessage does to the state. */
  function Merged(fields: seq<Field>, st: State, i: nat, body: seq<byte>): Option<State>
    requires i < |fields| && fields[i].ltype.LSubmessage?
  {
    var k := SlotOf(fields, i);
    if k >= |st.msg| || !HoldsMessage(fields[i], st.msg[k]) then None else
    var r := DecodeInto(fields[i].ltype.sub, st.msg[k].v.slots, body);
    if r.Fail? then None
    else Some(MarkSeen(fields, st, i).(msg := st.msg[k := WithMessage(fields[i], r.value)]))
  }

  lemma RecordMerges(fields: seq<Field>, st: State, i: nat, body: seq<byte>, t: seq<byte>)
    requires i < |fields| && SingularMessage(fields[i]) && |body| < TWO32
    requires SlotOf(fields, i) < |st.msg| && HoldsMessage(fields[i], st.msg[SlotOf(fields, i)])
    ensures DecRecordAt(fields, st, i, 2, Prefixed(body) + t) ==
            var next := Merged(fields, st, i, body);
            if next.None? then Fail else Got(next.value, t)
  {
    hide SlotOf, DecStatic, DecodeInto, Prefixed, RequiredBefore, HoldsMessage, WithMessage;
    var k := SlotOf(fields, i);
    StaticMessage(fields[i], st.msg[k], CountOf(fields[i], st.msg[k], MarkSeen(fields, st, i)), body, t);
  }

  lemma MergedTwice(fields: seq<Field>, st: State, i: nat, a: seq<byte>, b: seq<byte>)
    requires i < |fields| && SingularMessage(fields[i])
    requires SlotOf(fields, i) < |st.msg| && HoldsMessage(fields[i], st.msg[SlotOf(fields, i)])
    requires NoBookkeeping(fields[i].ltype.sub)
    requires WholeRecords(fields[i].ltype.sub, Start(st.msg[SlotOf(fields, i)].v.slots), a)
    ensures var first := Merged(fields, st, i, a);
            && first.Some? && SlotOf(fields, i) < |first.value.msg|
            && HoldsMessage(fields[i], first.value.msg[SlotOf(fields, i)])
            && Merged(fields, first.value, i, b) == Merged(fields, st, i, a + b)
  {
    hide SlotOf, DecodeInto, RequiredBefore, WholeRecords, NoBookkeeping;
    var k, sub := SlotOf(fields, i), fields[i].ltype.sub;
    DecodingIsFold(sub, st.msg[k].v.slots, a, b);
    var first := Merged(fields, st, i, a).value;
    var r := DecodeInto(sub, first.msg[k].v.slots, b);
    if r.Got? { UpdateTwice(st.msg, k, first.msg[k], WithMessage(fields[i], r.value)); }
  }

  /** Two records of a singular submessage are one record with the bytes of both: the second
      occurrence is merged into the first. */
  lemma SplitMessageMerges(fields: seq<Field>, st: State, i: nat, a: seq<byte>, b: seq<byte>, t: seq<byte>)
    requires WellFormed(fields) && i < |fields| && SingularMessage(fields[i]) && |a + b| < TWO32
    requires SlotOf(fields, i) < |st.msg| && HoldsMessage(fields[i], st.msg[SlotOf(fields, i)])
    requires NoBookkeeping(fields[i].ltype.sub)
    requires WholeRecords(fields[i].ltype.sub, Start(st.msg[SlotOf(fields, i)].v.slots), a)
    ensures var tag := fields[i].tag;
            DecLoop(fields, st, MessageRecord(tag, a) + (MessageRecord(tag, b) + t)) ==
            DecLoop(fields, st, MessageRecord(tag, a + b) + t)
  {
    assert WellFormedField(fields[i]);
    hide DecLoop, EncTag, DecRecordAt, WellFormedField, Prefixed, Merged, HoldsMessage, SlotOf, WholeRecords,
         NoBookkeeping;
    var tag := fields[i].tag;
    FieldTagLegal(fields[i]);
    MergedTwice(fields, st, i, a, b);
    var first := Merged(fields, st, i, a).value;
    RecordMerges(fields, st, i, a, MessageRecord(tag, b) + t);
    RecordMerges(fields, first, i, b, t);
    RecordMerges(fields, st, i, a + b, t);
    Framed(tag, a, MessageRecord(tag, b) + t);
    Framed(tag, b, t);
    Framed(tag, a + b, t);
    LoopRecord(fields, st, i, 2, Prefixed(a) + (MessageRecord(tag, b) + t));
    LoopRecord(fields, first, i, 2, Prefixed(b) + t);
    LoopRecord(fields, st, i, 2, Prefixed(a + b) + t);
  }

  lemma Framed(tag: nat, body: seq<byte>, t: seq<byte>)
    ensures MessageRecord(tag, body) + t == EncTag(2, tag) + (Prefixed(body) + t)
  {
    hide EncTag, Prefixed;
  }

  // --------------------------------------------------------------------------
  // Array items and oneof members
  // --------------------------------------------------------------------------

  /** A new array item, and a oneof member, is what pb_decode makes of the record's body: nothing of
      what the memory held before is left. */
  lemma MemberStartsAfresh(f: Field, wireType: nat, slot: Slot, count: nat, body: seq<byte>, t: seq<byte>)
    requires f.ltype.LSubmessage? && |body| < TWO32
    ensures f.htype.OneOf? && slot.Union? ==>
              DecStatic(f, wireType, slot, count, Prefixed(body) + t) ==
              var r := Decode(f.ltype.sub, body);
              if r.Fail? then Fail else Got(Stored(Union(f.tag, VMsg(r.value)), count), t)
    ensures f.htype.Repeated? && slot.Rep? && count == |slot.items| < f.arraySize ==>
              DecStatic(f, wireType, slot, count, Prefixed(body) + t) ==
              var r := Decode(f.ltype.sub, body);
              if r.Fail? then Fail else Got(Stored(Rep(slot.items + [VMsg(r.value)]), count + 1), t)
  {
    hide DecodeInto, DecPrefixed, Prefixed, Defaults;
    PrefixedSplit(body, t);
    var p, r := DecValue(f, NewItem(f), Prefixed(body) + t), Decode(f.ltype.sub, body);
    assert p == if r.Fail? then Fail else Got(VMsg(r.value), t);
  }

  // --------------------------------------------------------------------------
  // The last one wins
  // --------------------------------------------------------------------------

  /** A field whose record does not depend on what its slot held. */
  predicate Replaces(f: Field)
  {
    f.htype.OneOf? || ((f.htype.Required? || f.htype.Optional?) && !f.ltype.LSubmessage?)
  }

  predicate SlotKind(f: Field, s: Slot)
  {
    match f.htype
    case Required => s.Plain?
    case Optional => if f.sizeOffset != 0 then s.Opt? else s.Plain?
    case Repeated => s.Rep?
    case OneOf => s.Union?
  }

  lemma StaticReplaces(f: Field, wireType: nat, a: Slot, b: Slot, count: nat, s: seq<byte>)
    requires Replaces(f) && SlotKind(f, a) && SlotKind(f, b)
    ensures DecStatic(f, wireType, a, count, s) == DecStatic(f, wireType, b, count, s)
    ensures DecStatic(f, wireType, a, count, s).Got? ==> SlotKind(f, DecStatic(f, wireType, a, count, s).value.slot)
  {
    hide DecScalar, DecPrefixed, DecodeInto, NewItem;
    if f.htype.OneOf? {
      hide DecValue;
    } else {
      assert forall v :: DecValue(f, v, s) == DecScalar(f, s);
    }
  }

  lemma RecordReplaces(fields: seq<Field>, st: State, i: nat, wireType: nat, s: seq<byte>, slot: Slot)
    requires i < |fields| && Replaces(fields[i]) && SlotOf(fields, i) < |st.msg|
    requires SlotKind(fields[i], st.msg[SlotOf(fields, i)]) && SlotKind(fields[i], slot)
    ensures var before := MarkSeen(fields, st, i).(msg := st.msg[SlotOf(fields, i) := slot]);
            DecRecordAt(fields, before, i, wireType, s) == DecRecordAt(fields, st, i, wireType, s)
  {
    hide SlotOf, DecStatic, RequiredBefore;
    var f, k := fields[i], SlotOf(fields, i);
    var before := MarkSeen(fields, st, i).(msg := st.msg[k := slot]);
    StaticReplaces(f, wireType, st.msg[k], slot, 0, s);
    NoCount(f, st.msg[k], st);
    NoCount(f, slot, before);
    var r := DecStatic(f, wireType, slot, 0, s);
    NoCount(f, st.msg[k], MarkSeen(fields, st, i));
    NoCount(f, slot, MarkSeen(fields, before, i));
    if r.Got? { UpdateTwice(st.msg, k, slot, r.value.slot); }
  }

  lemma NoCount(f: Field, slot: Slot, st: State)
    requires Replaces(f) && SlotKind(f, slot)
    ensures CountOf(f, slot, st) == 0
  {
  }

  /** The state after a record that decodes. */
  lemma RecordLeaves(fields: seq<Field>, st: State, i: nat, wireType: nat, s: seq<byte>) returns (slot: Slot)
    requires i < |fields| && Replaces(fields[i]) && SlotOf(fields, i) < |st.msg|
    requires SlotKind(fields[i], st.msg[SlotOf(fields, i)]) && DecRecordAt(fields, st, i, wireType, s).Got?
    ensures SlotKind(fields[i], slot)
    ensures DecRecordAt(fields, st, i, wireType, s).value ==
            MarkSeen(fields, st, i).(msg := st.msg[SlotOf(fields, i) := slot])
  {
    hide SlotOf, DecStatic, RequiredBefore;
    var f, k := fields[i], SlotOf(fields, i);
    var count := CountOf(f, st.msg[k], MarkSeen(fields, st, i));
    slot := DecStatic(f, wireType, st.msg[k], count, s).value.slot;
    StaticReplaces(f, wireType, st.msg[k], st.msg[k], count, s);
  }

  /** Of two records of a singular field that is no submessage, or of a oneof member, the last one
      wins: the first leaves no trace. */
  lemma LastOneWins(fields: seq<Field>, st: State, i: nat, wa: nat, a: seq<byte>, wb: nat, b: seq<byte>)
    requires WellFormed(fields) && i < |fields| && Replaces(fields[i]) && wa < 8 && wb < 8
    requires SlotOf(fields, i) < |st.msg| && SlotKind(fields[i], st.msg[SlotOf(fields, i)])
    requires DecRecordAt(fields, st, i, wa, a).Got? && DecRecordAt(fields, st, i, wa, a).rest == []
    ensures var tag := fields[i].tag;
            DecLoop(fields, st, EncTag(wa, tag) + (a + (EncTag(wb, tag) + b))) ==
            DecLoop(fields, st, EncTag(wb, tag) + b)
  {
    assert WellFormedField(fields[i]);
    hide DecLoop, EncTag, DecRecordAt, WellFormedField, SlotOf, Replaces, SlotKind, RequiredBefore;
    var tag := fields[i].tag;
    FieldTagLegal(fields[i]);
    var more := EncTag(wb, tag) + b;
    DecRecordAtLocal(fields, st, i, wa, a, more);
    assert [] + more == more;
    var slot := RecordLeaves(fields, st, i, wa, a);
    var next := DecRecordAt(fields, st, i, wa, a).value;
    LoopRecord(fields, st, i, wa, a + more);
    LoopRecord(fields, next, i, wb, b);
    LoopRecord(fields, st, i, wb, b);
    RecordReplaces(fields, st, i, wb, b, slot);
  }

  // --------------------------------------------------------------------------
  // Fixed-count arrays
  // --------------------------------------------------------------------------

  /** The packed loop writes from the given index on, over what is there. */
  lemma {:induction false} PackedOver(f: Field, items: seq<Value>, k: nat, vs: seq<Value>)
    requires WellFormedField(f) && Packable(f.ltype) && forall j | 0 <= j < |vs| :: ScalarFits(f, vs[j])
    requires EncItems(f, vs).Some? && |EncItems(f, vs).value| < TWO32
    requires k <= |items| && k + |vs| == f.arraySize && |items| <= f.arraySize
    ensures PackedLoop(f, items, k, EncItems(f, vs).value) == Got((items[..k] + vs, f.arraySize), [])
    decreases |vs|
  {
    hide EncScalar, DecScalar, ScalarFits, WellFormedField;
    if vs == [] {
      assert items[..k] + vs == items;
    } else {
      var head, tail := EncScalar(f, vs[0]).value, EncItems(f, vs[1..]).value;
      assert EncItems(f, vs).value == head + tail;
      PackableScalar(f, vs[0], tail);
      var next := PutItem(items, k, vs[0]);
      PackedOver(f, next, k + 1, vs[1..]);
      assert next[..k + 1] + vs[1..] == items[..k] + vs;
    }
  }

  /** A fixed-count array that is received again, in one record, holds the new items and none of the
      old ones. */
  lemma FixedArrayReplaced(fields: seq<Field>, st: State, i: nat, vs: seq<Value>, t: seq<byte>)
    requires i < |fields| && WellFormedField(fields[i]) && Packable(fields[i].ltype) && FixedCount(fields[i])
    requires |vs| == fields[i].arraySize && forall j | 0 <= j < |vs| :: ScalarFits(fields[i], vs[j])
    requires EncItems(fields[i], vs).Some? && |EncItems(fields[i], vs).value| < TWO32
    requires SlotOf(fields, i) < |st.msg| && st.msg[SlotOf(fields, i)].Rep?
    requires |st.msg[SlotOf(fields, i)].items| <= fields[i].arraySize
    requires st.fixedField != Some(i) && FixedComplete(fields, st)
    ensures var r := DecRecordAt(fields, st, i, 2, Prefixed(EncItems(fields[i], vs).value) + t);
            && r.Got? && r.rest == t && FixedComplete(fields, r.value)
            && r.value.msg == st.msg[SlotOf(fields, i) := Rep(vs)]
  {
    hide SlotOf, EncItems, DecPrefixed, Prefixed, PackedLoop, ScalarFits, WellFormedField, DecValue;
    var f, k := fields[i], SlotOf(fields, i);
    var items, payload := st.msg[k].items, EncItems(f, vs).value;
    PrefixedSplit(payload, t);
    PackedOver(f, items, 0, vs);
    assert items[..0] + vs == vs;
    assert DecPackedRecord(f, items, 0, Prefixed(payload) + t) == Got(Stored(Rep(vs), f.arraySize), t);
  }
}
