/** The decoder of pb_decode.c: struct defaults, arrays, submessages and the message loop. */
module PbDecode {
  import opened Bits
  import opened Varint
  import opened Options
  import opened Schema
  import opened Encoding
  import opened Decoding
  import opened Shapes
  import opened FieldIter
  import opened StructMemory
  import opened InputStream
  import opened FieldDecode
  import opened RequiredBitmap
  import opened Framing

  // --------------------------------------------------------------------------
  // pb_message_set_to_defaults
  // --------------------------------------------------------------------------

  /** pb_field_set_to_default */
  method SetFieldDefault(f: Field) returns (s: Slot)
    ensures s == DefaultSlot(f)
    decreases f, 1
  {
    hide Defaults;
    if f.htype.Repeated? { return Rep([]); }
    if f.htype.OneOf? { return Union(0, NO_VALUE); }
    var v;
    if f.ltype.LSubmessage? {
      var slots := SetDefaults(f.ltype.sub);
      v := VMsg(slots);
    } else if f.init.Some? {
      v := f.init.value;
    } else {
      v := ZeroValue(f);
    }
    s := if f.htype.Optional? && f.sizeOffset != 0 then Opt(false, v) else Plain(v);
  }

  /** pb_message_set_to_defaults, on the struct's memory: one slot for each position or oneof. */
  method SetDefaults(fields: seq<Field>) returns (dest: seq<Slot>)
    ensures dest == Defaults(fields)
    decreases fields, 0
  {
    hide SlotsUsed, DefaultSlot;
    dest := seq(SlotsUsed(fields, |fields|), _ => Plain(NO_VALUE));
    var iter := new Iter(fields);
    if fields == [] { NoSlots(fields); return; }
    DefaultsStart(fields);
    while true
      invariant iter.Valid() && iter.start == fields && fresh(iter)
      invariant |dest| == SlotsUsed(fields, |fields|) && SlotsUsed(fields, iter.pos) <= |dest|
      invariant dest[..SlotsUsed(fields, iter.pos)] == DefaultsTo(fields, iter.pos)
      decreases |fields| - iter.pos
    {
      ghost var before, i := dest, iter.pos;
      DefaultsStep(fields, i);
      var slot := SetFieldDefault(fields[iter.pos]);
      dest := dest[SlotOf(fields, iter.pos) := slot];
      DefaultsPut(fields, i, before, dest);
      var more := iter.Next();
      if !more { return; }
    }
  }

  lemma NoSlots(fields: seq<Field>)
    requires fields == []
    ensures SlotsUsed(fields, 0) == 0 && Defaults(fields) == []
  {
  }

  lemma DefaultsStart(fields: seq<Field>)
    ensures SlotsUsed(fields, 0) == 0 && DefaultsTo(fields, 0) == []
  {
  }

  /** Position i lies in the struct, right behind the slots before it or in the last of them. */
  lemma DefaultsStep(fields: seq<Field>, i: nat)
    requires i < |fields|
    ensures SlotOf(fields, i) < SlotsUsed(fields, i + 1) <= SlotsUsed(fields, |fields|)
    ensures if SharesSlot(fields, i) then SlotsUsed(fields, i + 1) == SlotsUsed(fields, i)
            else SlotsUsed(fields, i + 1) == SlotsUsed(fields, i) + 1
    ensures SlotOf(fields, i) == SlotsUsed(fields, i + 1) - 1
  {
    UsedMonotone(fields, i + 1, |fields|);
  }

  /** Writing a position's default extends the defaults written so far; a further member of a
      oneof finds its slot holding the default already. */
  lemma DefaultsPut(fields: seq<Field>, i: nat, before: seq<Slot>, after: seq<Slot>)
    requires i < |fields| && |before| == SlotsUsed(fields, |fields|) && SlotsUsed(fields, i) <= |before|
    requires before[..SlotsUsed(fields, i)] == DefaultsTo(fields, i)
    requires SlotOf(fields, i) < |before| && after == before[SlotOf(fields, i) := DefaultSlot(fields[i])]
    ensures SlotsUsed(fields, i + 1) <= |after| && after[..SlotsUsed(fields, i + 1)] == DefaultsTo(fields, i + 1)
  {
    DefaultsStep(fields, i);
    if SharesSlot(fields, i) {
      DefaultsToAt(fields, i, i - 1);
      assert SlotOf(fields, i) == SlotOf(fields, i - 1);
      assert DefaultSlot(fields[i]) == DefaultSlot(fields[i - 1]);
      hide SlotsUsed, DefaultsTo;
      assert after == before;
    } else {
      assert DefaultsTo(fields, i + 1) == DefaultsTo(fields, i) + [DefaultSlot(fields[i])];
    }
  }

  // --------------------------------------------------------------------------
  // One field
  // --------------------------------------------------------------------------

  /** What pb_dec_submessage decodes into: array items are initialised first, other submessages
      have been already. */
  ghost function PriorOf(f: Field, dest: Value): Value
  {
    if f.htype.Repeated? then NewItem(f) else dest
  }

  lemma PriorShaped(f: Field, dest: Value)
    requires !f.htype.Repeated? ==> ValueShaped(f, dest)
    ensures ValueShaped(f, PriorOf(f, dest))
  {
    NewItemShaped(f);
  }

  /** The decoder function of a field. */
  method DecodeValue(stream: IStream, f: Field, dest: Value) returns (ok: bool, v: Value)
    requires stream.Valid() && WellFormedField(f) && (!f.htype.Repeated? ==> ValueShaped(f, dest))
    requires ItemsInsideField(f)
    modifies stream
    ensures stream.Reads(DecValue(f, PriorOf(f, dest), old(stream.Rest())), ok)
    ensures ok ==> v == DecValue(f, PriorOf(f, dest), old(stream.Rest())).value
    decreases stream.bytesLeft, 1
  {
    hide DecScalar, WellFormed, Shaped, DecodeInto;
    if f.ltype.LSubmessage? {
      ok, v := DecodeSubmessage(stream, f, dest);
    } else {
      ok, v := DecodeScalar(stream, f);
    }
  }

  method PriorSlots(f: Field, dest: Value) returns (slots: seq<Slot>)
    requires f.ltype.LSubmessage? && (!f.htype.Repeated? ==> ValueShaped(f, dest))
    ensures VMsg(slots) == PriorOf(f, dest) && Shaped(f.ltype.sub, slots)
  {
    PriorShaped(f, dest);
    hide Shaped, Defaults;
    if f.htype.Repeated? {
      slots := SetDefaults(f.ltype.sub);
    } else {
      slots := dest.slots;
    }
  }

  lemma SubmessageSteps(f: Field, prior: Value, s: seq<byte>)
    requires f.ltype.LSubmessage? && ValueShaped(f, prior)
    ensures prior.VMsg?
    ensures var p := DecPrefixed(s);
            DecValue(f, prior, s) ==
            if p.Fail? || DecodeInto(f.ltype.sub, prior.slots, p.value).Fail? then Fail
            else Got(VMsg(DecodeInto(f.ltype.sub, prior.slots, p.value).value), p.rest)
  {
    hide DecodeInto, DecPrefixed;
  }

  /** pb_dec_submessage */
  method DecodeSubmessage(stream: IStream, f: Field, dest: Value) returns (ok: bool, v: Value)
    requires stream.Valid() && f.ltype.LSubmessage? && WellFormed(f.ltype.sub)
    requires !f.htype.Repeated? ==> ValueShaped(f, dest)
    requires ItemsInsideField(f)
    modifies stream
    ensures stream.Reads(DecValue(f, PriorOf(f, dest), old(stream.Rest())), ok)
    ensures ok ==> v == DecValue(f, PriorOf(f, dest), old(stream.Rest())).value
    decreases stream.bytesLeft, 0
  {
    PriorShaped(f, dest);
    SubmessageSteps(f, PriorOf(f, dest), stream.Rest());
    hide DecodeInto, WellFormed, Shaped, Defaults, DecPrefixed, DecValue, PriorOf, ValueShaped, NewItem;
    ghost var p := DecPrefixed(stream.Rest());
    var sub, slots, closed;
    v := NO_VALUE;
    ok, sub := stream.MakeSubstream();
    if !ok { return; }
    slots := PriorSlots(f, dest);
    ok, slots := DecodeNoInit(sub, f.ltype.sub, slots);
    assert ok ==> stream.buffer[sub.End()..sub.End() + stream.bytesLeft] == p.rest;
    closed := stream.CloseSubstream(sub);
    if !closed { return false, v; }
    assert ok ==> stream.Rest() == p.rest;
    v := VMsg(slots);
  }

  /** decode_static_field. The struct slot and the item count are given and returned. A failed decode
      has marked its field already: the has_ flag, the which_ tag, and the count of an unpacked
      array, which is one above array_size when the array was full. */
  method DecodeStatic(stream: IStream, f: Field, wireType: nat, slot: Slot, count: nat)
    returns (ok: bool, stored: Stored)
    requires stream.Valid() && WellFormedField(f) && SlotShaped(f, slot)
    requires f.htype.Repeated? ==> count <= |slot.items|
    requires ItemsInsideField(f)
    modifies stream
    ensures stream.Reads(DecStatic(f, wireType, slot, count, old(stream.Rest())), ok)
    ensures ok ==> stored == DecStatic(f, wireType, slot, count, old(stream.Rest())).value
    ensures !ok && f.htype.Optional? && f.sizeOffset != 0 ==> stored.slot.Opt? && stored.slot.has
    ensures !ok && f.htype.OneOf? ==> stored.slot.Union? && stored.slot.which == f.tag
    ensures !ok && f.htype.Repeated? && !(wireType == WT_STRING && Packable(f.ltype)) ==> stored.count == count + 1
    decreases stream.bytesLeft, 2
  {
    NewItemShaped(f);
    hide DecValue, ValueShaped, WellFormedField, DecPackedRecord, Defaults;
    var v;
    match f.htype {
      case Required =>
        ok, v := DecodeValue(stream, f, slot.v);
        stored := Stored(Plain(v), count);
      case Optional =>
        ok, v := DecodeValue(stream, f, slot.v);
        stored := Stored(if f.sizeOffset != 0 then Opt(true, v) else Plain(v), count);
      case Repeated =>
        if wireType == WT_STRING && Packable(f.ltype) {
          ok, stored := DecodePacked(stream, f, slot.items, count);
          return;
        }
        stored := Stored(slot, count + 1);
        if count >= f.arraySize { return false, stored; }
        ok, v := DecodeValue(stream, f, NO_VALUE);
        stored := Stored(Rep(PutItem(slot.items, count, v)), count + 1);
      case OneOf =>
        v := NO_VALUE;
        if f.ltype.LSubmessage? {
          var slots := SetDefaults(f.ltype.sub);
          v := VMsg(slots);
        }
        ok, v := DecodeValue(stream, f, v);
        stored := Stored(Union(f.tag, v), count);
    }
  }

  /** The packed branch of decode_static_field. */
  method DecodePacked(stream: IStream, f: Field, prior: seq<Value>, count: nat) returns (ok: bool, stored: Stored)
    requires stream.Valid() && count <= |prior|
    modifies stream
    ensures stream.Reads(DecPackedRecord(f, prior, count, old(stream.Rest())), ok)
    ensures ok ==> stored == DecPackedRecord(f, prior, count, old(stream.Rest())).value
    ensures count == stored.count || count <= stored.count <= f.arraySize
  {
    hide DecPrefixed, PackedLoop, DecScalar;
    var items: seq<Value>, size: nat, status := prior, count, true;
    stored := Stored(Rep(items), size);
    var sub;
    ok, sub := stream.MakeSubstream();
    if !ok { return; }
    ghost var payload, end, at, left := sub.Rest(), sub.End(), stream.state, stream.bytesLeft;
    while sub.bytesLeft > 0 && size < f.arraySize
      invariant stream.state == at && stream.bytesLeft == left
      invariant sub.Valid() && at <= sub.state && sub.End() == end && status
      invariant size <= |items| && (size == count || count <= size <= f.arraySize)
      invariant PackedLoop(f, prior, count, payload) == PackedLoop(f, items, size, sub.Rest())
      decreases sub.bytesLeft
    {
      var v;
      PackedRound(f, items, size, sub.Rest());
      ok, v := DecodeScalar(sub, f);
      if !ok { status := false; break; }
      items := PutItem(items, size, v);
      size := size + 1;
    }
    if status { PackedEnd(f, items, size, sub.Rest()); }
    stored := Stored(Rep(items), size);
    if sub.bytesLeft != 0 { return false, stored; }
    var closed := stream.CloseSubstream(sub);
    if !closed { return false, stored; }
    ok := status;
  }

  lemma PackedRound(f: Field, items: seq<Value>, k: nat, s: seq<byte>)
    requires k <= |items| && s != [] && k < f.arraySize
    ensures DecScalar(f, s).Fail? ==> PackedLoop(f, items, k, s).Fail?
    ensures DecScalar(f, s).Got? ==>
              PackedLoop(f, items, k, s) ==
              PackedLoop(f, PutItem(items, k, DecScalar(f, s).value), k + 1, DecScalar(f, s).rest)
  {
    hide DecScalar;
  }

  lemma PackedEnd(f: Field, items: seq<Value>, k: nat, s: seq<byte>)
    requires k <= |items| && (s == [] || k >= f.arraySize)
    ensures PackedLoop(f, items, k, s) == Got((items, k), s)
  {
  }

  // --------------------------------------------------------------------------
  // All fields
  // --------------------------------------------------------------------------

  /** One known record in the loop of pb_decode_noinit: fixed-count bookkeeping, the required
      bitmap, and the field itself. `st` is what the locals stand for. */
  method DecodeKnown(stream: IStream, iter: Iter, wireType: nat, words: array<nat>, ghost st: State,
                     msg: seq<Slot>, fixedField: Option<nat>, fixedSize: nat)
    returns (ok: bool, msg': seq<Slot>, fixedField': Option<nat>, fixedSize': nat, ghost st': State)
    requires stream.Valid() && iter.Valid() && iter.start != [] && WellFormed(iter.start)
    requires Recorded(iter.start, words[..], st.seen) && words.Length == 2
    requires st == State(msg, st.seen, fixedField, fixedSize) && StateShaped(iter.start, st)
    requires ItemsInside(iter.start)
    modifies stream, words
    ensures stream.Reads(DecRecordAt(iter.start, st, iter.pos, wireType, old(stream.Rest())), ok)
    ensures ok ==> st' == DecRecordAt(iter.start, st, iter.pos, wireType, old(stream.Rest())).value
    ensures ok ==> st' == State(msg', st'.seen, fixedField', fixedSize') && StateShaped(iter.start, st')
    ensures ok ==> Recorded(iter.start, words[..], st'.seen)
    decreases stream.bytesLeft, 3
  {
    hide DecStatic, SlotShaped, SlotOf, Recorded, WellFormedField, RequiredBefore;
    msg', fixedField', fixedSize', st' := msg, fixedField, fixedSize, st;
    var fields, f := iter.start, iter.start[iter.pos];
    RecordAtShaped(fields, st, iter.pos, wireType, stream.Rest());
    if f.htype.Repeated? && f.sizeOffset == 0 {
      if fixedField != Some(iter.pos) {
        if fixedField.Some? && fixedSize != fields[fixedField.value].arraySize {
          return false, msg, fixedField, fixedSize, st;
        }
        fixedField', fixedSize' := Some(iter.pos), 0;
      }
    }
    st' := st.(fixedField := fixedField', fixedSize := fixedSize');
    if f.htype.Required? && iter.requiredFieldIndex < MAX_REQUIRED_FIELDS {
      Mark(fields, words, iter.pos, iter.requiredFieldIndex, st.seen);
    }
    st' := MarkSeen(fields, st', iter.pos);
    var k := SlotOf(fields, iter.pos);
    var count := if FixedCount(f) then fixedSize' else if msg[k].Rep? then |msg[k].items| else 0;
    var stored;
    ok, stored := DecodeStatic(stream, f, wireType, msg[k], count);
    if !ok { return; }
    msg' := msg[k := stored.slot];
    if FixedCount(f) { fixedSize' := stored.count; }
    st' := st'.(msg := msg', fixedSize := fixedSize');
  }

  /** A record whose tag the descriptor may or may not know. The terminator of an empty descriptor
      answers to tag 0, as a required bool. */
  method DecodeRecord(stream: IStream, iter: Iter, tag: nat, wireType: nat, words: array<nat>, ghost st: State,
                      msg: seq<Slot>, fixedField: Option<nat>, fixedSize: nat)
    returns (ok: bool, msg': seq<Slot>, fixedField': Option<nat>, fixedSize': nat, ghost st': State)
    requires stream.Valid() && iter.Valid() && WellFormed(iter.start) && words.Length == 2
    requires iter.start != [] ==> Recorded(iter.start, words[..], st.seen)
    requires st == State(msg, st.seen, fixedField, fixedSize) && StateShaped(iter.start, st)
    requires ItemsInside(iter.start)
    modifies stream, iter, words
    ensures iter.Valid()
    ensures stream.Reads(DecRecord(iter.start, st, tag, wireType, old(stream.Rest())), ok)
    ensures ok ==> st' == DecRecord(iter.start, st, tag, wireType, old(stream.Rest())).value
    ensures ok ==> st' == State(msg', st'.seen, fixedField', fixedSize') && StateShaped(iter.start, st')
    ensures ok && iter.start != [] ==> Recorded(iter.start, words[..], st'.seen)
    decreases stream.bytesLeft, 4
  {
    hide DecRecordAt, StateShaped, WellFormed, Recorded, Decoding.SkipField, DecVarint32, BitOr, RequiredBefore,
         DataOffset, SizeOffset;
    msg', fixedField', fixedSize', st' := msg, fixedField, fixedSize, st;
    var found := iter.Find(tag);
    if !found {
      NotFound(iter.start, tag);
      ok := stream.SkipField(wireType);
    } else if iter.start == [] {
      words[0] := BitOr(words[0], 1);
      var dropped;
      ok, dropped := DecodeBool(stream);
    } else {
      FoundAt(iter.start, tag, iter.pos);
      ok, msg', fixedField', fixedSize', st' :=
        DecodeKnown(stream, iter, wireType, words, st, msg, fixedField, fixedSize);
    }
  }

  lemma NotFound(fields: seq<Field>, tag: nat)
    requires forall i | 0 <= i < |fields| :: !Matching(fields, i, tag)
    ensures Find(fields, tag) == None
  {
    var r := Find(fields, tag);
    if r.Some? { assert Matching(fields, r.value, tag); }
  }

  /** Tags are distinct, so the iterator's match is the descriptor's. */
  lemma FoundAt(fields: seq<Field>, tag: nat, pos: nat)
    requires WellFormed(fields) && pos < |fields| && Matching(fields, pos, tag)
    ensures Find(fields, tag) == Some(pos)
  {
    hide WellFormedField;
  }

  /** The loop of pb_decode_noinit. */
  method DecodeRecords(stream: IStream, iter: Iter, words: array<nat>, dest: seq<Slot>)
    returns (ok: bool, msg: seq<Slot>, fixedField: Option<nat>, fixedSize: nat, ghost st: State)
    requires stream.Valid() && iter.Valid() && WellFormed(iter.start) && Shaped(iter.start, dest)
    requires words.Length == 2 && words[..] == [0, 0]
    requires ItemsInside(iter.start)
    modifies stream, iter, words
    ensures iter.Valid() && stream.Valid() && old(stream.state) <= stream.state && stream.End() <= old(stream.End())
    ensures var r := DecLoop(iter.start, Start(dest), old(stream.Rest()));
            && ok == r.Done?
            && (ok ==> r.st == st && r.rest == stream.Rest() && stream.End() == old(stream.End()))
    ensures ok ==> st == State(msg, st.seen, fixedField, fixedSize) && StateShaped(iter.start, st)
    ensures ok && iter.start != [] ==> Recorded(iter.start, words[..], st.seen)
    decreases stream.bytesLeft, 5
  {
    StartShaped(iter.start, dest);
    NothingRecorded(iter.start);
    hide DecLoop, DecRecord, StateShaped, WellFormed, Recorded, DecTag, RequiredBefore, DataOffset, SizeOffset;
    msg, fixedField, fixedSize, st := dest, None, 0, Start(dest);
    while stream.bytesLeft > 0
      invariant stream.Valid() && stream.End() == old(stream.End()) && old(stream.state) <= stream.state
      invariant iter.Valid()
      invariant st == State(msg, st.seen, fixedField, fixedSize) && StateShaped(iter.start, st)
      invariant iter.start != [] ==> Recorded(iter.start, words[..], st.seen)
      invariant DecLoop(iter.start, Start(dest), old(stream.Rest())) == DecLoop(iter.start, st, stream.Rest())
      decreases stream.bytesLeft
    {
      LoopRound(iter.start, st, stream.Rest());
      var eof, wireType, tag;
      ok, eof, wireType, tag := stream.DecodeTag();
      if !ok {
        if eof { return true, msg, fixedField, fixedSize, st; }
        return;
      }
      ok, msg, fixedField, fixedSize, st :=
        DecodeRecord(stream, iter, tag, wireType, words, st, msg, fixedField, fixedSize);
      if !ok { return; }
    }
    LoopRound(iter.start, st, stream.Rest());
    ok := true;
  }

  lemma StartShaped(fields: seq<Field>, dest: seq<Slot>)
    requires Shaped(fields, dest)
    ensures StateShaped(fields, Start(dest))
  {
  }

  ghost function AfterRecord(fields: seq<Field>, r: Parse<State>): LoopResult
  {
    if r.Fail? then Failed else DecLoop(fields, r.value, r.rest)
  }

  lemma LoopRound(fields: seq<Field>, st: State, s: seq<byte>)
    ensures s == [] ==> DecLoop(fields, st, s) == Done(st, [], false)
    ensures s != [] && DecTag(s).Bad? ==> DecLoop(fields, st, s) == Failed
    ensures s != [] && DecTag(s).Stop? ==> DecLoop(fields, st, s) == Done(st, DecTag(s).rest, true)
    ensures s != [] && DecTag(s).Tag? ==>
              DecLoop(fields, st, s) ==
              AfterRecord(fields, DecRecord(fields, st, DecTag(s).tag, DecTag(s).wireType, DecTag(s).rest))
  {
    hide DecRecord, DecTag;
  }

  /** Counting the required fields by walking the iterator to the end, from wherever it is. */
  method CountRequired(iter: Iter) returns (count: nat)
    requires iter.Valid()
    modifies iter
    ensures iter.Valid() && count == RequiredBefore(iter.start, |iter.start|)
  {
    hide DataOffset, SizeOffset;
    var fields := iter.start;
    if fields == [] {
      var _ := iter.Next();
      return 0;
    }
    while true
      invariant iter.Valid()
      decreases |fields| - iter.pos
    {
      ghost var pos := iter.pos;
      count := iter.requiredFieldIndex;
      var lastType := fields[iter.pos].htype;
      var more := iter.Next();
      if !more {
        if lastType.Required? { count := count + 1; }
        return;
      }
    }
  }

  /** pb_decode_noinit: success is exactly success of the specification, whichever position the
      iterator was left in. */
  method DecodeNoInit(stream: IStream, fields: seq<Field>, dest: seq<Slot>) returns (ok: bool, msg: seq<Slot>)
    requires stream.Valid() && WellFormed(fields) && Shaped(fields, dest)
    requires ItemsInside(fields)
    modifies stream
    ensures stream.Reads(DecodeInto(fields, dest, old(stream.Rest())), ok)
    ensures ok ==> msg == DecodeInto(fields, dest, old(stream.Rest())).value
    decreases stream.bytesLeft, 6
  {
    hide DecLoop, WellFormed, Shaped, Recorded, RequiredBefore, DataOffset, SizeOffset;
    var words := new nat[2] [0, 0];
    var iter := new Iter(fields);
    var fixedField, fixedSize;
    ghost var st;
    ok, msg, fixedField, fixedSize, st := DecodeRecords(stream, iter, words, dest);
    if !ok { return; }
    FixedFieldExists(fields, st);
    if fixedField.Some? && fixedSize != fields[fixedField.value].arraySize { return false, msg; }
    var count := CountRequired(iter);
    ok := AllPresent(fields, words, count, st.seen);
  }

  lemma FixedFieldExists(fields: seq<Field>, st: State)
    requires StateShaped(fields, st)
    ensures st.fixedField.Some? ==> st.fixedField.value < |fields|
  {
  }

  // --------------------------------------------------------------------------
  // Entry points
  // --------------------------------------------------------------------------

  /** pb_decode */
  method DecodeMessage(stream: IStream, fields: seq<Field>) returns (ok: bool, msg: seq<Slot>)
    requires stream.Valid() && WellFormed(fields)
    requires ItemsInside(fields)
    modifies stream
    ensures stream.Reads(Decode(fields, old(stream.Rest())), ok)
    ensures ok ==> msg == Decode(fields, old(stream.Rest())).value
  {
    hide DecodeInto, WellFormed, Shaped, Defaults;
    DefaultsShaped(fields);
    msg := SetDefaults(fields);
    ok, msg := DecodeNoInit(stream, fields, msg);
  }

  /** pb_decode_delimited: wherever the nested message stopped, the stream continues behind the
      delimited region. */
  method DecodeDelimitedFrom(stream: IStream, fields: seq<Field>) returns (ok: bool, msg: seq<Slot>)
    requires stream.Valid() && WellFormed(fields)
    requires ItemsInside(fields)
    modifies stream
    ensures stream.Reads(DecodeDelimited(fields, old(stream.Rest())), ok)
    ensures ok ==> msg == DecodeDelimited(fields, old(stream.Rest())).value
  {
    hide Decode, WellFormed, DecPrefixed;
    var sub;
    msg := [];
    ok, sub := stream.MakeSubstream();
    if !ok { return; }
    ok, msg := DecodeMessage(sub, fields);
    var closed := stream.CloseSubstream(sub);
    if !closed { return false, msg; }
  }
}
