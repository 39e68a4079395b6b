/** How many items the arrays of a decoded struct hold. */
module CountLaws {
  import opened Bits
  import opened Varint
  import opened Options
  import opened Schema
  import opened Encoding
  import opened Decoding

  /** The items of the array at position i, if the slot is one. */
  function ItemsAt(fields: seq<Field>, msg: seq<Slot>, i: nat): Option<seq<Value>>
    requires i < |fields|
  {
    if SlotOf(fields, i) < |msg| && msg[SlotOf(fields, i)].Rep? then Some(msg[SlotOf(fields, i)].items) else None
  }

  /** A counted array holds at most `arraySize` items, a fixed-count array none or all. */
  predicate CountOk(fields: seq<Field>, msg: seq<Slot>, i: nat)
    requires i < |fields|
  {
    fields[i].htype.Repeated? && ItemsAt(fields, msg, i).Some? ==>
      var n := |ItemsAt(fields, msg, i).value|;
      n <= fields[i].arraySize && (FixedCount(fields[i]) ==> n == 0 || n == fields[i].arraySize)
  }

  predicate CountsOk(fields: seq<Field>, msg: seq<Slot>)
  {
    forall i | 0 <= i < |fields| :: CountOk(fields, msg, i)
  }

  /** The array being received holds the items counted, and what it may hold over from before. */
  predicate ReceivingOk(fields: seq<Field>, st: State, i: nat)
    requires i < |fields|
  {
    && FixedCount(fields[i])
    && (ItemsAt(fields, st.msg, i).Some? ==> st.fixedSize <= |ItemsAt(fields, st.msg, i).value| <= fields[i].arraySize)
  }

  predicate StateOk(fields: seq<Field>, st: State)
  {
    forall i | 0 <= i < |fields| ::
      if st.fixedField == Some(i) then ReceivingOk(fields, st, i) else CountOk(fields, st.msg, i)
  }

  lemma {:induction false} PackedCounts(f: Field, items: seq<Value>, k: nat, s: seq<byte>)
    requires k <= |items| <= f.arraySize
    ensures var r := PackedLoop(f, items, k, s);
            r.Got? ==>
              && r.value.1 <= |r.value.0| <= f.arraySize && |items| <= |r.value.0|
              && (k == |items| ==> r.value.1 == |r.value.0|)
    decreases |s|
  {
    hide DecScalar;
    if s == [] || k >= f.arraySize {
    } else if DecScalar(f, s).Got? {
      PackedCounts(f, PutItem(items, k, DecScalar(f, s).value), k + 1, DecScalar(f, s).rest);
    }
  }

  /** A record leaves at most `arraySize` items in an array that held no more before, and counts
      the items of one that was counted exactly. */
  lemma RecordCounts(f: Field, wireType: nat, slot: Slot, count: nat, s: seq<byte>)
    requires f.htype.Repeated? && slot.Rep? && |slot.items| <= f.arraySize
    requires DecStatic(f, wireType, slot, count, s).Got?
    ensures var stored := DecStatic(f, wireType, slot, count, s).value;
            && stored.slot.Rep? && stored.count <= |stored.slot.items| <= f.arraySize
            && |slot.items| <= |stored.slot.items|
            && (count == |slot.items| ==> stored.count == |stored.slot.items|)
  {
    hide DecValue, DecPrefixed, NewItem, DecScalar;
    if wireType == WT_STRING && Packable(f.ltype) && count <= |slot.items| {
      PackedCounts(f, slot.items, count, DecPrefixed(s).value);
    }
  }

  /** Another position's record leaves the array alone. */
  lemma OtherItems(fields: seq<Field>, msg: seq<Slot>, i: nat, j: nat, slot: Slot)
    requires i < |fields| && j < |fields| && i != j && fields[j].htype.Repeated? && SlotOf(fields, i) < |msg|
    ensures ItemsAt(fields, msg[SlotOf(fields, i) := slot], j) == ItemsAt(fields, msg, j)
  {
    hide SlotOf;
    if i < j { SharedSlotIsOneOf(fields, i, j); } else { SharedSlotIsOneOf(fields, j, i); }
  }

  /** Turning to another fixed-count array, the one received before is complete. */
  lemma EnterOk(fields: seq<Field>, st: State, i: nat)
    requires i < |fields| && StateOk(fields, st) && EnterFixed(fields, st, i).Some?
    ensures StateOk(fields, EnterFixed(fields, st, i).value)
    ensures FixedCount(fields[i]) ==> EnterFixed(fields, st, i).value.fixedField == Some(i)
  {
    hide ItemsAt, SlotOf;
    if FixedCount(fields[i]) && st.fixedField != Some(i) {
      var next := EnterFixed(fields, st, i).value;
      assert CountOk(fields, st.msg, i);
      forall j | 0 <= j < |fields|
        ensures if next.fixedField == Some(j) then ReceivingOk(fields, next, j) else CountOk(fields, next.msg, j)
      {
        if st.fixedField == Some(j) { assert ReceivingOk(fields, st, j); } else { assert CountOk(fields, st.msg, j); }
      }
    }
  }

  lemma RecordOk(fields: seq<Field>, st: State, i: nat, wireType: nat, s: seq<byte>)
    requires i < |fields| && StateOk(fields, st)
    ensures var r := DecRecordAt(fields, st, i, wireType, s); r.Got? ==> StateOk(fields, r.value)
  {
    hide DecStatic, SlotOf, FixedComplete, RequiredBefore;
    var r := DecRecordAt(fields, st, i, wireType, s);
    if r.Got? {
      EnterOk(fields, st, i);
      var f, k, entered := fields[i], SlotOf(fields, i), EnterFixed(fields, st, i).value;
      var count := CountOf(f, entered.msg[k], entered);
      var stored := DecStatic(f, wireType, entered.msg[k], count, s).value;
      assert r.value.msg == entered.msg[k := stored.slot] && r.value.fixedField == entered.fixedField;
      assert if entered.fixedField == Some(i) then ReceivingOk(fields, entered, i) else CountOk(fields, entered.msg, i);
      StoredOk(f, wireType, entered.msg[k], count, s);
      if f.htype.Repeated? { RecordCounts(f, wireType, entered.msg[k], count, s); }
      forall j | 0 <= j < |fields|
        ensures if r.value.fixedField == Some(j) then ReceivingOk(fields, r.value, j)
          else CountOk(fields, r.value.msg, j)
      {
        assert if entered.fixedField == Some(j) then ReceivingOk(fields, entered, j)
          else CountOk(fields, entered.msg, j);
        if j != i && fields[j].htype.Repeated? { OtherItems(fields, entered.msg, i, j, stored.slot); }
      }
    }
  }

  lemma StoredOk(f: Field, wireType: nat, slot: Slot, count: nat, s: seq<byte>)
    ensures f.htype.Repeated? && DecStatic(f, wireType, slot, count, s).Got? ==> slot.Rep? && count <= |slot.items|
  {
    hide DecValue, DecPackedRecord, NewItem;
  }

  lemma {:induction false} LoopOk(fields: seq<Field>, st: State, s: seq<byte>)
    requires StateOk(fields, st)
    ensures DecLoop(fields, st, s).Done? ==> StateOk(fields, DecLoop(fields, st, s).st)
    decreases |s|
  {
    hide DecRecordAt, StateOk, DecTag, SkipField, DecVarint32, Find;
    if s == [] || !DecTag(s).Tag? {
    } else {
      var t := DecTag(s);
      if Find(fields, t.tag).Some? { RecordOk(fields, st, Find(fields, t.tag).value, t.wireType, t.rest); }
      var r := DecRecord(fields, st, t.tag, t.wireType, t.rest);
      assert r.Got? ==> StateOk(fields, r.value);
      hide DecRecord;
      if r.Got? { LoopOk(fields, r.value, r.rest); }
    }
  }

  /** After a whole decode every array holds at most `arraySize` items, and a fixed-count array
      all of its items or none. */
  lemma DecodedCounts(fields: seq<Field>, msg: seq<Slot>, s: seq<byte>)
    requires CountsOk(fields, msg)
    ensures DecodeInto(fields, msg, s).Got? ==> CountsOk(fields, DecodeInto(fields, msg, s).value)
  {
    hide DecLoop, ItemsAt, SlotOf;
    LoopOk(fields, Start(msg), s);
    if DecodeInto(fields, msg, s).Got? {
      var st := DecLoop(fields, Start(msg), s).st;
      forall i | 0 <= i < |fields| ensures CountOk(fields, st.msg, i) {
        assert if st.fixedField == Some(i) then ReceivingOk(fields, st, i) else CountOk(fields, st.msg, i);
      }
    }
  }

  /** In particular when decoding starts from the defaults. */
  lemma FreshCounts(fields: seq<Field>, s: seq<byte>)
    ensures Decode(fields, s).Got? ==> CountsOk(fields, Decode(fields, s).value)
  {
    hide DecodeInto, SlotOf, Defaults;
    forall i | 0 <= i < |fields| ensures CountOk(fields, Defaults(fields), i) { DefaultsAt(fields, i); }
    DecodedCounts(fields, Defaults(fields), s);
  }
}
