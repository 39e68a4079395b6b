/** Decoding as a fold over the records of the input. */
module DecodeLaws {
  import opened Bits
  import opened Varint
  import opened Options
  import opened Schema
  import opened Encoding
  import opened Decoding
  import opened Locality
  import opened StructMemory
  import opened ScalarRoundTrip
  import opened RoundTrip

  /** The input decodes as whole records, none of them the zero byte that ends a message. */
  predicate WholeRecords(fields: seq<Field>, st: State, s: seq<byte>)
  {
    var r := DecLoop(fields, st, s);
    r.Done? && !r.stopped
  }

  // --------------------------------------------------------------------------
  // Concatenation
  // --------------------------------------------------------------------------

  /** Decoding whole records followed by b is decoding the records, then b. */
  lemma {:induction false} DecLoopConcat(fields: seq<Field>, st: State, a: seq<byte>, b: seq<byte>)
    requires WholeRecords(fields, st, a)
    ensures DecLoop(fields, st, a).rest == []
    ensures DecLoop(fields, st, a + b) == DecLoop(fields, DecLoop(fields, st, a).st, b)
    decreases |a|
  {
    hide DecTag, DecRecord;
    if a == [] {
      assert a + b == b;
    } else {
      DecTagLocal(a, b);
      var Tag(tag, wireType, rest) := DecTag(a);
      DecRecordLocal(fields, st, tag, wireType, rest, b);
      var Got(st', rest') := DecRecord(fields, st, tag, wireType, rest);
      DecLoopConcat(fields, st', rest', b);
    }
  }

  /** A schema for which the decoder keeps no state outside the struct. */
  predicate NoBookkeeping(fields: seq<Field>)
  {
    forall i | 0 <= i < |fields| :: !fields[i].htype.Required? && !FixedCount(fields[i])
  }

  lemma {:induction false} NoRequiredBefore(fields: seq<Field>, n: nat)
    requires NoBookkeeping(fields) && n <= |fields|
    ensures RequiredBefore(fields, n) == 0
  {
    if n == 0 {
    } else {
      NoRequiredBefore(fields, n - 1);
    }
  }

  lemma RecordWithoutBookkeeping(fields: seq<Field>, msg: seq<Slot>, tag: nat, wireType: nat, s: seq<byte>)
    requires NoBookkeeping(fields) && DecRecord(fields, Start(msg), tag, wireType, s).Got?
    ensures var st := DecRecord(fields, Start(msg), tag, wireType, s).value; st == Start(st.msg)
  {
    hide DecStatic, SlotOf, Find, SkipField, DecVarint32;
  }

  lemma {:induction false} LoopWithoutBookkeeping(fields: seq<Field>, msg: seq<Slot>, s: seq<byte>)
    requires NoBookkeeping(fields) && DecLoop(fields, Start(msg), s).Done?
    ensures var st := DecLoop(fields, Start(msg), s).st; st == Start(st.msg)
    decreases |s|
  {
    hide DecTag, DecRecord;
    if s == [] || !DecTag(s).Tag? {
    } else {
      var Tag(tag, wireType, rest) := DecTag(s);
      RecordWithoutBookkeeping(fields, msg, tag, wireType, rest);
      var Got(st', rest') := DecRecord(fields, Start(msg), tag, wireType, rest);
      LoopWithoutBookkeeping(fields, st'.msg, rest');
    }
  }

  /** Without required and fixed-count fields, pb_decode_noinit on a ++ b is pb_decode_noinit on a
      and then on b into the same struct. */
  lemma DecodingIsFold(fields: seq<Field>, msg: seq<Slot>, a: seq<byte>, b: seq<byte>)
    requires NoBookkeeping(fields) && WholeRecords(fields, Start(msg), a)
    ensures DecodeInto(fields, msg, a).Got?
    ensures DecodeInto(fields, msg, a + b) == DecodeInto(fields, DecodeInto(fields, msg, a).value, b)
  {
    hide DecLoop;
    DecLoopConcat(fields, Start(msg), a, b);
    LoopWithoutBookkeeping(fields, msg, a);
    NoRequiredBefore(fields, |fields|);
  }

  // --------------------------------------------------------------------------
  // Unknown fields
  // --------------------------------------------------------------------------

  /** A payload that is well-formed for its wire type. */
  predicate RawPayload(wireType: nat, p: seq<byte>)
  {
    if wireType == 0 then
      p != [] && p[|p| - 1] < 0x80 && forall k | 0 <= k < |p| - 1 :: p[k] >= 0x80
    else if wireType == 1 then |p| == 8
    else if wireType == 5 then |p| == 4
    else wireType == 2 && DecVarint32(p).Got? && |DecVarint32(p).rest| == DecVarint32(p).value
  }

  lemma {:induction false} SkipVarintExact(p: seq<byte>)
    ensures RawPayload(WT_VARINT, p) <==> SkipVarint(p) == Got((), [])
    decreases |p|
  {
    hide DecVarint32;
    if p == [] || p[0] < 0x80 {
    } else {
      SkipVarintExact(p[1..]);
      if RawPayload(WT_VARINT, p[1..]) {
        assert p[|p| - 1] == p[1..][|p| - 2];
        forall k | 0 <= k < |p| - 1 ensures p[k] >= 0x80 {
          if k > 0 { assert p[k] == p[1..][k - 1]; }
        }
      }
    }
  }

  /** pb_skip_field consumes exactly the well-formed payloads. */
  lemma SkipFieldExact(wireType: nat, p: seq<byte>)
    ensures RawPayload(wireType, p) <==> SkipField(wireType, p) == Got((), [])
  {
    hide DecVarint32, SkipVarint;
    SkipVarintExact(p);
  }

  predicate Undescribed(fields: seq<Field>, tag: nat)
  {
    forall i | 0 <= i < |fields| :: fields[i].tag != tag
  }

  /** A well-formed record with an undescribed tag, at the head of the input, has no effect. */
  lemma UnknownRecordSkipped(fields: seq<Field>, st: State, tag: nat, wireType: nat, p: seq<byte>, b: seq<byte>)
    requires 1 <= tag < 0x2000_0000 && Undescribed(fields, tag)
    requires wireType < 8 && RawPayload(wireType, p)
    ensures DecLoop(fields, st, EncTag(wireType, tag) + p + b) == DecLoop(fields, st, b)
  {
    hide EncTag, DecTag, SkipField, RawPayload, DecRecordAt, FindFrom;
    TagRoundTrip(wireType, tag, p + b);
    SkipFieldExact(wireType, p);
    SkipFieldLocal(wireType, p, b);
    assert EncTag(wireType, tag) + p + b == EncTag(wireType, tag) + (p + b);
    assert [] + b == b;
  }

  /** Part of an input: whole records, or one unknown record. */
  datatype Segment = Known(records: seq<byte>) | Unknown(tag: nat, wireType: nat, payload: seq<byte>)

  function SegmentBytes(g: Segment): seq<byte>
  {
    match g case Known(records) => records case Unknown(tag, wireType, p) => EncTag(wireType, tag) + p
  }

  /** The input with its unknown records, and without them. */
  function Full(segments: seq<Segment>): seq<byte>
  {
    if segments == [] then [] else SegmentBytes(segments[0]) + Full(segments[1..])
  }

  function Kept(segments: seq<Segment>): seq<byte>
  {
    if segments == [] then []
    else (if segments[0].Known? then segments[0].records else []) + Kept(segments[1..])
  }

  /** The known segments are whole records where they stand, the unknown ones are well formed and
      undescribed. */
  predicate AtBoundaries(fields: seq<Field>, st: State, segments: seq<Segment>)
    decreases |segments|
  {
    if segments == [] then true
    else match segments[0]
         case Known(records) =>
           WholeRecords(fields, st, records) && AtBoundaries(fields, DecLoop(fields, st, records).st, segments[1..])
         case Unknown(tag, wireType, p) =>
           && 1 <= tag < 0x2000_0000 && Undescribed(fields, tag) && wireType < 8 && RawPayload(wireType, p)
           && AtBoundaries(fields, st, segments[1..])
  }

  lemma FirstSegment(segments: seq<Segment>, t: seq<byte>)
    requires segments != []
    ensures Full(segments) + t == SegmentBytes(segments[0]) + (Full(segments[1..]) + t)
    ensures Kept(segments) + t ==
            if segments[0].Known? then segments[0].records + (Kept(segments[1..]) + t) else Kept(segments[1..]) + t
  {
    hide EncTag, SegmentBytes;
    var g, more := segments[0], segments[1..];
    Associates(SegmentBytes(g), Full(more), t);
    if g.Known? { Associates(g.records, Kept(more), t); } else { assert [] + Kept(more) == Kept(more); }
  }

  lemma Associates(a: seq<byte>, b: seq<byte>, c: seq<byte>)
    ensures a + b + c == a + (b + c)
  {
  }

  lemma {:induction false} SegmentsTransparent(fields: seq<Field>, st: State, segments: seq<Segment>, t: seq<byte>)
    requires AtBoundaries(fields, st, segments)
    ensures DecLoop(fields, st, Full(segments) + t) == DecLoop(fields, st, Kept(segments) + t)
    decreases |segments|
  {
    if segments == [] {
    } else {
      var g, more := segments[0], segments[1..];
      FirstSegment(segments, t);
      hide DecLoop, EncTag, RawPayload, Undescribed, Full, Kept;
      if g.Known? {
        DecLoopConcat(fields, st, g.records, Full(more) + t);
        DecLoopConcat(fields, st, g.records, Kept(more) + t);
        SegmentsTransparent(fields, DecLoop(fields, st, g.records).st, more, t);
      } else {
        UnknownRecordSkipped(fields, st, g.tag, g.wireType, g.payload, Full(more) + t);
        SegmentsTransparent(fields, st, more, t);
      }
    }
  }

  /** Unknown fields are transparent: well-formed records with undescribed tags, inserted at any
      number of record boundaries, change neither the success nor the result of pb_decode_noinit.
      An extension placeholder in the descriptor stands for an empty list of extensions. */
  lemma UnknownFieldsTransparent(fields: seq<Field>, msg: seq<Slot>, segments: seq<Segment>, t: seq<byte>)
    requires AtBoundaries(fields, Start(msg), segments)
    ensures DecodeInto(fields, msg, Full(segments) + t) == DecodeInto(fields, msg, Kept(segments) + t)
  {
    hide DecLoop, Full, Kept, AtBoundaries, Accepts;
    SegmentsTransparent(fields, Start(msg), segments, t);
  }

  // --------------------------------------------------------------------------
  // Records of different fields commute
  // --------------------------------------------------------------------------

  /** Positions whose records do not interfere: different slots, and not both fixed-count arrays. */
  predicate Independent(fields: seq<Field>, i: nat, j: nat)
    requires i < |fields| && j < |fields|
  {
    SlotOf(fields, i) != SlotOf(fields, j) && !(FixedCount(fields[i]) && FixedCount(fields[j]))
  }

  /** The effect of position i's record on the state, when the record decodes. */
  function Apply(fields: seq<Field>, st: State, i: nat, wireType: nat, s: seq<byte>): (r: Option<State>)
    requires i < |fields|
  {
    var p := DecRecordAt(fields, st, i, wireType, s);
    if p.Got? && p.rest == [] then Some(p.value) else None
  }

  /** `next` differs from st by the effect of a record of position j that left `effect` behind. */
  predicate HasEffect(fields: seq<Field>, j: nat, effect: State, st: State, next: State)
    requires j < |fields|
  {
    var k := SlotOf(fields, j);
    && k < |effect.msg| == |st.msg|
    && next.msg == st.msg[k := effect.msg[k]]
    && next.seen == st.seen + MarkSeen(fields, Start([]), j).seen
    && (if FixedCount(fields[j]) then next.fixedField == effect.fixedField && next.fixedSize == effect.fixedSize
        else next.fixedField == st.fixedField && next.fixedSize == st.fixedSize)
  }

  /** A record of position j reads and writes only that position's slot, its required bit, and for
      a fixed-count array the array bookkeeping. */
  lemma RecordAtFramed(fields: seq<Field>, st: State, st': State, j: nat, wireType: nat, s: seq<byte>)
    requires j < |fields| && |st.msg| == |st'.msg|
    requires SlotOf(fields, j) < |st.msg| ==> st.msg[SlotOf(fields, j)] == st'.msg[SlotOf(fields, j)]
    requires FixedCount(fields[j]) ==> st.fixedField == st'.fixedField && st.fixedSize == st'.fixedSize
    ensures var p, p' := DecRecordAt(fields, st, j, wireType, s), DecRecordAt(fields, st', j, wireType, s);
            && p.Fail? == p'.Fail?
            && (p.Got? ==> p'.rest == p.rest)
            && (p.Got? ==> HasEffect(fields, j, p.value, st, p.value) && HasEffect(fields, j, p.value, st', p'.value))
  {
    hide DecStatic, SlotOf, RequiredBefore, FixedComplete;
    if FixedCount(fields[j]) { FixedCompleteFramed(fields, st, st'); }
  }

  lemma FixedCompleteFramed(fields: seq<Field>, st: State, st': State)
    requires st.fixedField == st'.fixedField && st.fixedSize == st'.fixedSize
    ensures FixedComplete(fields, st) == FixedComplete(fields, st')
  {
  }

  /** The effect of a second record after a first one. */
  function Then(fields: seq<Field>, first: Option<State>, i: nat, wireType: nat, s: seq<byte>): Option<State>
    requires i < |fields|
  {
    if first.None? then None else Apply(fields, first.value, i, wireType, s)
  }

  /** A record of position j reads the same state before and after one of position i. */
  lemma AppliesAfter(fields: seq<Field>, st: State, i: nat, wi: nat, a: seq<byte>, j: nat, wj: nat, b: seq<byte>)
    requires i < |fields| && j < |fields| && Independent(fields, i, j) && Apply(fields, st, i, wi, a).Some?
    ensures var p, p' := DecRecordAt(fields, st, j, wj, b),
      DecRecordAt(fields, Apply(fields, st, i, wi, a).value, j, wj, b);
            && p.Fail? == p'.Fail?
            && (p.Got? ==>
                  && p.rest == p'.rest && HasEffect(fields, j, p.value, st, p.value)
                  && HasEffect(fields, j, p.value, Apply(fields, st, i, wi, a).value, p'.value))
  {
    hide DecRecordAt, SlotOf, MarkSeen;
    RecordAtFramed(fields, st, st, i, wi, a);
    RecordAtFramed(fields, st, Apply(fields, st, i, wi, a).value, j, wj, b);
  }

  /** Two records of independent fields have the same joint effect in either order, or fail in
      either order. The slots stand for the struct's memory as long as no item is initialised past
      its end; otherwise order can matter. */
  lemma RecordsCommute(fields: seq<Field>, st: State, i: nat, wi: nat, a: seq<byte>, j: nat, wj: nat, b: seq<byte>)
    requires i < |fields| && j < |fields| && Independent(fields, i, j) && ItemsInside(fields)
    ensures Then(fields, Apply(fields, st, i, wi, a), j, wj, b) == Then(fields, Apply(fields, st, j, wj, b), i, wi, a)
  {
    hide DecRecordAt, SlotOf, MarkSeen;
    var first, second := Apply(fields, st, i, wi, a), Apply(fields, st, j, wj, b);
    if first.Some? { AppliesAfter(fields, st, i, wi, a, j, wj, b); }
    if second.Some? { AppliesAfter(fields, st, j, wj, b, i, wi, a); }
    if first.Some? && second.Some? {
      var x, y := Apply(fields, first.value, j, wj, b).value, Apply(fields, second.value, i, wi, a).value;
      RecordAtFramed(fields, st, st, i, wi, a);
      assert x.msg == y.msg && x.seen == y.seen;
    }
  }

  /** The record fails whatever follows it: the array is full, the number too wide, the fixed-count
      array before it incomplete. */
  ghost predicate Rejected(fields: seq<Field>, st: State, i: nat, wireType: nat, a: seq<byte>)
    requires i < |fields|
  {
    forall t: seq<byte> :: DecRecordAt(fields, st, i, wireType, a + t).Fail?
  }

  lemma LoopRejects(fields: seq<Field>, st: State, i: nat, wireType: nat, a: seq<byte>, t: seq<byte>)
    requires WellFormed(fields) && i < |fields| && wireType < 8 && Rejected(fields, st, i, wireType, a)
    ensures DecLoop(fields, st, EncTag(wireType, fields[i].tag) + a + t) == Failed
  {
    assert WellFormedField(fields[i]);
    hide DecLoop, EncTag, DecRecordAt, WellFormedField;
    FieldTagLegal(fields[i]);
    assert EncTag(wireType, fields[i].tag) + a + t == EncTag(wireType, fields[i].tag) + (a + t);
    LoopRecord(fields, st, i, wireType, a + t);
  }

  lemma RejectedAfter(fields: seq<Field>, st: State, i: nat, wi: nat, a: seq<byte>, j: nat, wj: nat, b: seq<byte>)
    requires i < |fields| && j < |fields| && Independent(fields, i, j) && Apply(fields, st, i, wi, a).Some?
    requires Rejected(fields, st, j, wj, b)
    ensures Rejected(fields, Apply(fields, st, i, wi, a).value, j, wj, b)
  {
    hide DecRecordAt, Apply, Independent;
    forall t: seq<byte> ensures DecRecordAt(fields, Apply(fields, st, i, wi, a).value, j, wj, b + t).Fail? {
      AppliesAfter(fields, st, i, wi, a, j, wj, b + t);
    }
  }

  /** A record that decodes exactly, or fails whatever follows. */
  ghost predicate Decided(fields: seq<Field>, st: State, i: nat, wireType: nat, a: seq<byte>)
    requires i < |fields|
  {
    Apply(fields, st, i, wireType, a).Some? || Rejected(fields, st, i, wireType, a)
  }

  lemma OneOrder(fields: seq<Field>, st: State, i: nat, wi: nat, a: seq<byte>, j: nat, wj: nat,
    b: seq<byte>, t: seq<byte>)
    requires WellFormed(fields) && i < |fields| && j < |fields| && Independent(fields, i, j) && wi < 8 && wj < 8
    requires Decided(fields, st, i, wi, a) && Decided(fields, st, j, wj, b)
    ensures var both := Then(fields, Apply(fields, st, i, wi, a), j, wj, b);
            DecLoop(fields, st, EncTag(wi, fields[i].tag) + a + (EncTag(wj, fields[j].tag) + b + t)) ==
            if both.None? then Failed else DecLoop(fields, both.value, t)
  {
    hide DecLoop, EncTag, DecRecordAt, Independent, WellFormed, Apply, Rejected;
    var rb := EncTag(wj, fields[j].tag) + b;
    if Apply(fields, st, i, wi, a).None? {
      LoopRejects(fields, st, i, wi, a, rb + t);
    } else {
      var st1 := Apply(fields, st, i, wi, a).value;
      LoopApply(fields, st, i, wi, a, rb + t);
      AppliedOrRejected(fields, st, i, wi, a, j, wj, b);
      if Apply(fields, st1, j, wj, b).Some? {
        LoopApply(fields, st1, j, wj, b, t);
      } else {
        LoopRejects(fields, st1, j, wj, b, t);
      }
    }
  }

  lemma AppliedOrRejected(fields: seq<Field>, st: State, i: nat, wi: nat, a: seq<byte>, j: nat, wj: nat, b: seq<byte>)
    requires i < |fields| && j < |fields| && Independent(fields, i, j) && Apply(fields, st, i, wi, a).Some?
    requires Decided(fields, st, j, wj, b)
    ensures Decided(fields, Apply(fields, st, i, wi, a).value, j, wj, b)
  {
    AppliesAfter(fields, st, i, wi, a, j, wj, b);
    if Rejected(fields, st, j, wj, b) { RejectedAfter(fields, st, i, wi, a, j, wj, b); }
    hide DecRecordAt, Rejected, Independent, HasEffect;
  }

  /** Swapping adjacent records of different tags, outside a shared oneof, does not change what
      pb_decode_noinit returns: also when one of them or both are rejected. */
  lemma AdjacentRecordsSwap(fields: seq<Field>, msg: seq<Slot>, front: seq<byte>,
                            i: nat, wi: nat, a: seq<byte>, j: nat, wj: nat, b: seq<byte>, t: seq<byte>)
    requires WellFormed(fields) && i < |fields| && j < |fields| && Independent(fields, i, j) && ItemsInside(fields)
    requires wi < 8 && wj < 8 && WholeRecords(fields, Start(msg), front)
    requires Decided(fields, DecLoop(fields, Start(msg), front).st, i, wi, a)
    requires Decided(fields, DecLoop(fields, Start(msg), front).st, j, wj, b)
    ensures DecodeInto(fields, msg, front + (EncTag(wi, fields[i].tag) + a + (EncTag(wj, fields[j].tag) + b + t))) ==
            DecodeInto(fields, msg, front + (EncTag(wj, fields[j].tag) + b + (EncTag(wi, fields[i].tag) + a + t)))
  {
    assert Independent(fields, j, i);
    hide DecLoop, EncTag, Accepts, Apply, Independent, WellFormed, Decided, Then;
    var st := DecLoop(fields, Start(msg), front).st;
    var ra, rb := EncTag(wi, fields[i].tag) + a, EncTag(wj, fields[j].tag) + b;
    DecLoopConcat(fields, Start(msg), front, ra + (rb + t));
    DecLoopConcat(fields, Start(msg), front, rb + (ra + t));
    RecordsCommute(fields, st, i, wi, a, j, wj, b);
    OneOrder(fields, st, i, wi, a, j, wj, b, t);
    OneOrder(fields, st, j, wj, b, i, wi, a, t);
  }

  lemma LoopApply(fields: seq<Field>, st: State, i: nat, wireType: nat, a: seq<byte>, t: seq<byte>)
    requires WellFormed(fields) && i < |fields| && wireType < 8 && Apply(fields, st, i, wireType, a).Some?
    ensures DecLoop(fields, st, EncTag(wireType, fields[i].tag) + a + t) ==
            DecLoop(fields, Apply(fields, st, i, wireType, a).value, t)
  {
    assert WellFormedField(fields[i]);
    hide DecLoop, EncTag, DecRecordAt, WellFormedField;
    FieldTagLegal(fields[i]);
    assert EncTag(wireType, fields[i].tag) + a + t == EncTag(wireType, fields[i].tag) + (a + t);
    DecRecordAtLocal(fields, st, i, wireType, a, t);
    LoopRecord(fields, st, i, wireType, a + t);
    assert [] + t == t;
  }

  // --------------------------------------------------------------------------
  // Packed and unpacked arrays
  // --------------------------------------------------------------------------

  function Concat(chunks: seq<seq<byte>>): seq<byte>
  {
    if chunks == [] then [] else chunks[0] + Concat(chunks[1..])
  }

  /** Each chunk is the encoding of one item, in any form the decoder accepts. */
  predicate ItemChunks(f: Field, chunks: seq<seq<byte>>)
  {
    forall k | 0 <= k < |chunks| :: DecScalar(f, chunks[k]).Got? && DecScalar(f, chunks[k]).rest == []
  }

  function PackedForm(tag: nat, chunks: seq<seq<byte>>): seq<byte>
  {
    EncTag(WT_STRING, tag) + Prefixed(Concat(chunks))
  }

  function UnpackedForm(wireType: nat, tag: nat, chunks: seq<seq<byte>>): seq<byte>
  {
    if chunks == [] then [] else EncTag(wireType, tag) + chunks[0] + UnpackedForm(wireType, tag, chunks[1..])
  }

  /** The first item of a packed record is stored like an unpacked record; the rest follows. */
  lemma PackedHead(f: Field, items: seq<Value>, k: nat, chunk: seq<byte>, tail: seq<byte>, t: seq<byte>)
    requires k <= |items| && DecScalar(f, chunk).Got? && DecScalar(f, chunk).rest == []
    requires |chunk + tail| < TWO32
    ensures var v := DecScalar(f, chunk).value;
            DecPackedRecord(f, items, k, Prefixed(chunk + tail) + t) ==
            if k >= f.arraySize then Fail
            else DecPackedRecord(f, PutItem(items, k, v), k + 1, Prefixed(tail) + t)
  {
    hide DecScalar, Prefixed, DecPrefixed, PutItem;
    PrefixedSplit(chunk + tail, t);
    PrefixedSplit(tail, t);
    DecScalarLocal(f, chunk, tail);
    assert [] + tail == tail;
  }

  lemma PackedEmpty(f: Field, items: seq<Value>, k: nat, t: seq<byte>)
    requires k <= |items|
    ensures DecPackedRecord(f, items, k, Prefixed([]) + t) == Got(Stored(Rep(items), k), t)
  {
    hide Prefixed, DecPrefixed;
    PrefixedSplit([], t);
  }

  /** What the decoder does with one item of an array at position i, before the next one. */
  function ItemState(fields: seq<Field>, st: State, i: nat, v: Value): Option<State>
    requires i < |fields|
  {
    if SlotOf(fields, i) >= |st.msg| || EnterFixed(fields, st, i).None? then None else
    var entered := EnterFixed(fields, st, i).value;
    var slot := entered.msg[SlotOf(fields, i)];
    if !slot.Rep? then None else
    var k := if FixedCount(fields[i]) then entered.fixedSize else |slot.items|;
    if k > |slot.items| || k >= fields[i].arraySize then None
    else Some(entered.(msg := entered.msg[SlotOf(fields, i) := Rep(PutItem(slot.items, k, v))],
                       fixedSize := if FixedCount(fields[i]) then k + 1 else entered.fixedSize))
  }

  lemma UnpackedItem(fields: seq<Field>, st: State, i: nat, wireType: nat, chunk: seq<byte>, t: seq<byte>)
    requires i < |fields| && fields[i].htype.Repeated? && Packable(fields[i].ltype) && wireType != WT_STRING
    requires DecScalar(fields[i], chunk).Got? && DecScalar(fields[i], chunk).rest == []
    ensures DecRecordAt(fields, st, i, wireType, chunk + t) ==
            match ItemState(fields, st, i, DecScalar(fields[i], chunk).value)
            case None => Fail
            case Some(next) => Got(next, t)
  {
    hide DecScalar, SlotOf, FixedComplete, NewItem, PutItem;
    DecScalarLocal(fields[i], chunk, t);
    assert [] + t == t;
    assert DecValue(fields[i], NewItem(fields[i]), chunk + t) == Got(DecScalar(fields[i], chunk).value, t);
  }

  lemma PackedItem(fields: seq<Field>, st: State, i: nat, chunk: seq<byte>, tail: seq<byte>, t: seq<byte>)
    requires i < |fields| && fields[i].htype.Repeated? && Packable(fields[i].ltype)
    requires DecScalar(fields[i], chunk).Got? && DecScalar(fields[i], chunk).rest == []
    requires |chunk + tail| < TWO32
    ensures DecRecordAt(fields, st, i, WT_STRING, Prefixed(chunk + tail) + t) ==
            match ItemState(fields, st, i, DecScalar(fields[i], chunk).value)
            case None => Fail
            case Some(next) => DecRecordAt(fields, next, i, WT_STRING, Prefixed(tail) + t)
  {
    hide DecScalar, SlotOf, FixedComplete, NewItem, DecPackedRecord, Prefixed;
    var f := fields[i];
    if SlotOf(fields, i) < |st.msg| && EnterFixed(fields, st, i).Some? {
      var entered := EnterFixed(fields, st, i).value;
      var slot := entered.msg[SlotOf(fields, i)];
      if slot.Rep? {
        var k := if FixedCount(f) then entered.fixedSize else |slot.items|;
        if k <= |slot.items| {
          PackedHead(f, slot.items, k, chunk, tail, t);
          var items := PutItem(slot.items, k, DecScalar(f, chunk).value);
          var p := DecPackedRecord(f, items, k + 1, Prefixed(tail) + t);
          if p.Got? { UpdateTwice(entered.msg, SlotOf(fields, i), Rep(items), p.value.slot); }
        }
      }
    }
  }

  lemma UpdateTwice(msg: seq<Slot>, k: nat, a: Slot, b: Slot)
    requires k < |msg|
    ensures msg[k := a][k := b] == msg[k := b]
  {
  }

  lemma FormsSplit(wireType: nat, tag: nat, chunks: seq<seq<byte>>, t: seq<byte>)
    requires chunks != []
    ensures Concat(chunks) == chunks[0] + Concat(chunks[1..])
    ensures PackedForm(tag, chunks) + t ==
            EncTag(WT_STRING, tag) + (Prefixed(chunks[0] + Concat(chunks[1..])) + t)
    ensures UnpackedForm(wireType, tag, chunks) + t ==
            EncTag(wireType, tag) + (chunks[0] + (UnpackedForm(wireType, tag, chunks[1..]) + t))
  {
    hide EncTag, Prefixed;
  }

  lemma PackedLast(fields: seq<Field>, st: State, i: nat, v: Value, t: seq<byte>)
    requires i < |fields| && fields[i].htype.Repeated? && Packable(fields[i].ltype)
    requires ItemState(fields, st, i, v).Some?
    ensures DecRecordAt(fields, ItemState(fields, st, i, v).value, i, WT_STRING, Prefixed([]) + t) ==
            Got(ItemState(fields, st, i, v).value, t)
  {
    hide SlotOf, FixedComplete, NewItem, DecPackedRecord, Prefixed;
    var next := ItemState(fields, st, i, v).value;
    var slot := next.msg[SlotOf(fields, i)];
    PackedEmpty(fields[i], slot.items, if FixedCount(fields[i]) then next.fixedSize else |slot.items|, t);
    assert next.msg[SlotOf(fields, i) := slot] == next.msg;
  }

  predicate PackableRun(fields: seq<Field>, i: nat, chunks: seq<seq<byte>>)
  {
    && WellFormed(fields) && i < |fields| && fields[i].htype.Repeated? && Packable(fields[i].ltype)
    && chunks != [] && ItemChunks(fields[i], chunks) && |Concat(chunks)| < TWO32
  }

  lemma RunFacts(fields: seq<Field>, i: nat, chunks: seq<seq<byte>>)
    requires PackableRun(fields, i, chunks)
    ensures i < |fields| && FieldTagIsLegal(fields[i]) && |chunks[0] + Concat(chunks[1..])| < TWO32
    ensures DecScalar(fields[i], chunks[0]).Got? && DecScalar(fields[i], chunks[0]).rest == []
    ensures |chunks| > 1 ==> PackableRun(fields, i, chunks[1..])
  {
    assert WellFormedField(fields[i]);
    hide DecScalar, WellFormedField;
    FieldTagLegal(fields[i]);
    FormsSplit(0, 1, chunks, []);
  }

  predicate FieldTagIsLegal(f: Field)
  {
    1 <= f.tag < 0x2000_0000
  }

  function AfterItem(fields: seq<Field>, next: Option<State>, s: seq<byte>): LoopResult
  {
    if next.None? then Failed else DecLoop(fields, next.value, s)
  }

  lemma PackedStep(fields: seq<Field>, st: State, i: nat, chunks: seq<seq<byte>>, t: seq<byte>)
    requires PackableRun(fields, i, chunks)
    ensures DecScalar(fields[i], chunks[0]).Got?
    ensures DecLoop(fields, st, PackedForm(fields[i].tag, chunks) + t) ==
            AfterItem(fields, ItemState(fields, st, i, DecScalar(fields[i], chunks[0]).value),
                      if |chunks| == 1 then t else PackedForm(fields[i].tag, chunks[1..]) + t)
  {
    RunFacts(fields, i, chunks);
    hide DecLoop, EncTag, DecRecordAt, WellFormedField, DecScalar, Prefixed, ItemState, PackedForm, UnpackedForm,
         Concat, ItemChunks;
    var f, chunk, tail := fields[i], chunks[0], Concat(chunks[1..]);
    var v := DecScalar(f, chunk).value;
    FormsSplit(0, f.tag, chunks, t);
    LoopRecord(fields, st, i, WT_STRING, Prefixed(chunk + tail) + t);
    PackedItem(fields, st, i, chunk, tail, t);
    if ItemState(fields, st, i, v).Some? {
      if |chunks| == 1 {
        NoChunks(0, f.tag, t);
        PackedLast(fields, st, i, v, t);
      } else {
        FormsSplit(0, f.tag, chunks[1..], t);
        LoopRecord(fields, ItemState(fields, st, i, v).value, i, WT_STRING, Prefixed(tail) + t);
      }
    }
  }

  lemma UnpackedStep(fields: seq<Field>, st: State, i: nat, wireType: nat, chunks: seq<seq<byte>>, t: seq<byte>)
    requires PackableRun(fields, i, chunks) && wireType < 8 && wireType != WT_STRING
    ensures DecScalar(fields[i], chunks[0]).Got?
    ensures DecLoop(fields, st, UnpackedForm(wireType, fields[i].tag, chunks) + t) ==
            AfterItem(fields, ItemState(fields, st, i, DecScalar(fields[i], chunks[0]).value),
                      UnpackedForm(wireType, fields[i].tag, chunks[1..]) + t)
  {
    RunFacts(fields, i, chunks);
    hide DecLoop, EncTag, DecRecordAt, WellFormedField, DecScalar, Prefixed, ItemState, PackedForm, UnpackedForm,
         Concat, ItemChunks;
    var f, rest := fields[i], UnpackedForm(wireType, fields[i].tag, chunks[1..]) + t;
    FormsSplit(wireType, f.tag, chunks, t);
    LoopRecord(fields, st, i, wireType, chunks[0] + rest);
    UnpackedItem(fields, st, i, wireType, chunks[0], rest);
  }

  /** What an empty packed record needs to leave the state as it is: an array at position i that is
      counted, or the fixed-count array already being received. */
  predicate LeftAlone(fields: seq<Field>, st: State, i: nat)
    requires i < |fields|
  {
    && SlotOf(fields, i) < |st.msg| && st.msg[SlotOf(fields, i)].Rep?
    && (FixedCount(fields[i]) ==> st.fixedField == Some(i) && st.fixedSize <= |st.msg[SlotOf(fields, i)].items|)
  }

  /** For another fixed-count array the record starts to count items. */
  lemma EmptyRecord(fields: seq<Field>, st: State, i: nat, t: seq<byte>)
    requires i < |fields| && fields[i].htype.Repeated? && Packable(fields[i].ltype)
    ensures DecRecordAt(fields, st, i, WT_STRING, Prefixed([]) + t) == Got(st, t) <==> LeftAlone(fields, st, i)
    ensures DecRecordAt(fields, st, i, WT_STRING, Prefixed([]) + t).Got? ==>
              DecRecordAt(fields, st, i, WT_STRING, Prefixed([]) + t).rest == t
  {
    hide SlotOf, FixedComplete, NewItem, DecPackedRecord, Prefixed;
    if SlotOf(fields, i) < |st.msg| && EnterFixed(fields, st, i).Some? {
      var entered := EnterFixed(fields, st, i).value;
      var slot := entered.msg[SlotOf(fields, i)];
      if slot.Rep? {
        var k := if FixedCount(fields[i]) then entered.fixedSize else |slot.items|;
        if k <= |slot.items| { PackedEmpty(fields[i], slot.items, k, t); }
        assert entered.msg[SlotOf(fields, i) := slot] == entered.msg;
      }
    }
  }

  /** An empty packed record is no record if and only if it leaves the state alone. */
  lemma EmptyPackedExactly(fields: seq<Field>, st: State, i: nat)
    requires WellFormed(fields) && i < |fields| && fields[i].htype.Repeated? && Packable(fields[i].ltype)
    ensures (forall t :: DecLoop(fields, st, PackedForm(fields[i].tag, []) + t) == DecLoop(fields, st, t)) <==>
            LeftAlone(fields, st, i)
  {
    hide WellFormedField, EncTag, DecRecordAt, Prefixed, LeftAlone, DecTag, DecRecord;
    forall t
      ensures DecLoop(fields, st, PackedForm(fields[i].tag, []) + t) ==
              AfterRecord(fields, DecRecordAt(fields, st, i, WT_STRING, Prefixed([]) + t))
    {
      EmptyPackedLoop(fields, st, i, t);
    }
    forall t
      ensures DecRecordAt(fields, st, i, WT_STRING, Prefixed([]) + t) == Got(st, t) <==> LeftAlone(fields, st, i)
    {
      EmptyRecord(fields, st, i, t);
    }
    EmptyRecord(fields, st, i, []);
    assert DecLoop(fields, st, PackedForm(fields[i].tag, []) + []) ==
           AfterRecord(fields, DecRecordAt(fields, st, i, WT_STRING, Prefixed([]) + []));
  }

  lemma EmptyPackedLoop(fields: seq<Field>, st: State, i: nat, t: seq<byte>)
    requires WellFormed(fields) && i < |fields| && fields[i].htype.Repeated? && Packable(fields[i].ltype)
    ensures DecLoop(fields, st, PackedForm(fields[i].tag, []) + t) ==
            AfterRecord(fields, DecRecordAt(fields, st, i, WT_STRING, Prefixed([]) + t))
  {
    assert WellFormedField(fields[i]);
    hide DecLoop, EncTag, DecRecordAt, WellFormedField, Prefixed;
    FieldTagLegal(fields[i]);
    NoChunks(0, 1, t);
    assert PackedForm(fields[i].tag, []) + t == EncTag(WT_STRING, fields[i].tag) + (Prefixed([]) + t);
    LoopRecord(fields, st, i, WT_STRING, Prefixed([]) + t);
  }

  function AfterRecord(fields: seq<Field>, r: Parse<State>): LoopResult
  {
    if r.Fail? then Failed else DecLoop(fields, r.value, r.rest)
  }

  /** One packed record and the matching unpacked records leave the same struct and count, and
      both fail when the array is too small. An empty packed record must be one that leaves the
      state alone. */
  lemma {:induction false} PackedAgreesWithUnpacked(fields: seq<Field>, st: State, i: nat, wireType: nat,
                                                    chunks: seq<seq<byte>>, t: seq<byte>)
    requires WellFormed(fields) && i < |fields| && fields[i].htype.Repeated? && Packable(fields[i].ltype)
    requires wireType < 8 && wireType != WT_STRING
    requires ItemChunks(fields[i], chunks) && |Concat(chunks)| < TWO32
    requires chunks == [] ==> LeftAlone(fields, st, i)
    ensures DecLoop(fields, st, PackedForm(fields[i].tag, chunks) + t) ==
            DecLoop(fields, st, UnpackedForm(wireType, fields[i].tag, chunks) + t)
    decreases |chunks|
  {
    if chunks == [] {
      hide DecLoop, WellFormed, PackedForm, UnpackedForm, LeftAlone, DecRecordAt, ItemChunks;
      EmptyPackedLoop(fields, st, i, t);
      EmptyRecord(fields, st, i, t);
      NoChunks(wireType, fields[i].tag, t);
      return;
    }
    assert PackableRun(fields, i, chunks);
    PackedStep(fields, st, i, chunks, t);
    UnpackedStep(fields, st, i, wireType, chunks, t);
    RunFacts(fields, i, chunks);
    hide DecLoop, WellFormed, DecScalar, ItemState, PackedForm, UnpackedForm, Concat, ItemChunks;
    var next := ItemState(fields, st, i, DecScalar(fields[i], chunks[0]).value);
    if |chunks| == 1 {
      assert chunks[1..] == [];
      NoChunks(wireType, fields[i].tag, t);
    } else if next.Some? {
      PackedAgreesWithUnpacked(fields, next.value, i, wireType, chunks[1..], t);
    }
  }

  lemma NoChunks(wireType: nat, tag: nat, t: seq<byte>)
    ensures Concat([]) == [] && UnpackedForm(wireType, tag, []) + t == t
  {
  }
}
