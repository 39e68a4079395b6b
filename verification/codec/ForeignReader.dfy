/** A reader whose descriptor knows none of a message's fields skips all of it. */
module ForeignReader {
  import opened Bits
  import opened Varint
  import opened VarintLaws
  import opened Schema
  import opened Encoding
  import opened Decoding
  import opened ScalarRoundTrip
  import opened DecodeLaws
  import opened WireLaws

  lemma VarintIsRaw(n: nat)
    ensures RawPayload(0, EncVarint(n))
  {
    EncIsNumber(n);
  }

  lemma PrefixedIsRaw(b: seq<byte>)
    requires |b| < TWO32
    ensures RawPayload(2, Prefixed(b))
  {
    hide Prefixed, DecVarint32;
    PrefixedSplit(b, []);
    assert Prefixed(b) + [] == Prefixed(b) && b + [] == b;
  }

  lemma PrefixedLonger(b: seq<byte>)
    ensures |Prefixed(b)| >= |b|
  {
  }

  /** The payload of a record is well formed for the wire type of its tag. */
  lemma PayloadIsRaw(f: Field, v: Value)
    requires EncValue(f, v).Some? && |EncValue(f, v).value| < TWO32
    ensures RawPayload(WireType(f.ltype), EncValue(f, v).value)
  {
    hide RawPayload, Prefixed, EncVarint, LittleEndian, EncMsg, CString, ZigZag, AsWord64;
    match f.ltype {
      case LBool => VarintIsRaw(if v.flag then 1 else 0);
      case LVarint => VarintIsRaw(AsWord64(v.n));
      case LUVarint => VarintIsRaw(v.n);
      case LSVarint => VarintIsRaw(ZigZag(v.n));
      case LFixed32 => FixedIsRaw(LittleEndian(v.n, 4), LittleEndian(v.n, 8));
      case LFixed64 => FixedIsRaw(LittleEndian(v.n, 4), LittleEndian(v.n, 8));
      case LBytes => PrefixedLonger(v.bytes); PrefixedIsRaw(v.bytes);
      case LString => PrefixedLonger(CString(v.bytes)); PrefixedIsRaw(CString(v.bytes));
      case LFixedBytes => PrefixedLonger(v.bytes); PrefixedIsRaw(v.bytes);
      case LSubmessage(sub) =>
        PrefixedLonger(EncMsg(sub, 0, v.slots).value);
        PrefixedIsRaw(EncMsg(sub, 0, v.slots).value);
    }
  }

  lemma FixedIsRaw(four: seq<byte>, eight: seq<byte>)
    requires |four| == 4 && |eight| == 8
    ensures RawPayload(5, four) && RawPayload(1, eight)
  {
  }

  /** A descriptor that the tag is foreign to. */
  predicate Foreign(other: seq<Field>, f: Field)
  {
    1 <= f.tag < 0x2000_0000 && Undescribed(other, f.tag)
  }

  lemma TaggedSkipped(other: seq<Field>, st: State, f: Field, v: Value, t: seq<byte>)
    requires Foreign(other, f) && EncTagged(f, v).Some? && |EncTagged(f, v).value| < TWO32
    ensures DecLoop(other, st, EncTagged(f, v).value + t) == DecLoop(other, st, t)
  {
    hide EncTag, EncValue, DecLoop, RawPayload, Undescribed;
    PayloadIsRaw(f, v);
    UnknownRecordSkipped(other, st, f.tag, WireType(f.ltype), EncValue(f, v).value, t);
  }

  lemma {:induction false} UnpackedSkipped(other: seq<Field>, st: State, f: Field, items: seq<Value>, t: seq<byte>)
    requires Foreign(other, f) && EncUnpacked(f, items).Some? && |EncUnpacked(f, items).value| < TWO32
    ensures DecLoop(other, st, EncUnpacked(f, items).value + t) == DecLoop(other, st, t)
    decreases |items|
  {
    hide EncTagged, DecLoop, Foreign;
    if items == [] {
      assert [] + t == t;
    } else {
      var a, b := EncTagged(f, items[0]).value, EncUnpacked(f, items[1..]).value;
      assert EncUnpacked(f, items).value == a + b && a + b + t == a + (b + t);
      TaggedSkipped(other, st, f, items[0], b + t);
      UnpackedSkipped(other, st, f, items[1..], t);
    }
  }

  lemma PackedSkipped(other: seq<Field>, st: State, f: Field, items: seq<Value>, t: seq<byte>)
    requires Foreign(other, f) && EncPacked(f, items).Some? && |EncPacked(f, items).value| < TWO32
    ensures DecLoop(other, st, EncPacked(f, items).value + t) == DecLoop(other, st, t)
  {
    hide EncTag, EncItems, DecLoop, RawPayload, Undescribed, Prefixed;
    var payload := EncItems(f, items).value;
    PrefixedLonger(payload);
    PrefixedIsRaw(payload);
    UnknownRecordSkipped(other, st, f.tag, 2, Prefixed(payload), t);
  }

  lemma SlotSkipped(other: seq<Field>, st: State, f: Field, s: Slot, t: seq<byte>)
    requires Foreign(other, f) && EncSlot(f, s).Some? && |EncSlot(f, s).value| < TWO32
    ensures DecLoop(other, st, EncSlot(f, s).value + t) == DecLoop(other, st, t)
  {
    hide EncTagged, EncPacked, EncUnpacked, DecLoop, Foreign, IsZeroValue;
    assert [] + t == t;
    match s
    case Plain(v) => if EncSlot(f, s).value != [] { TaggedSkipped(other, st, f, v, t); }
    case Opt(_, v) => if EncSlot(f, s).value != [] { TaggedSkipped(other, st, f, v, t); }
    case Union(_, v) => if EncSlot(f, s).value != [] { TaggedSkipped(other, st, f, v, t); }
    case Rep(items) =>
      if items != [] {
        if Packable(f.ltype) {
          PackedSkipped(other, st, f, items, t);
        } else {
          UnpackedSkipped(other, st, f, items, t);
        }
      }
  }

  lemma {:induction false} SkippedFrom(other: seq<Field>, st: State, fields: seq<Field>, i: nat, msg: seq<Slot>,
                                       t: seq<byte>)
    requires i <= |fields| && forall f | f in fields :: Foreign(other, f)
    requires EncMsg(fields, i, msg).Some? && |EncMsg(fields, i, msg).value| < TWO32
    ensures DecLoop(other, st, EncMsg(fields, i, msg).value + t) == DecLoop(other, st, t)
    decreases |fields| - i
  {
    hide EncSlot, DecLoop, Foreign, SlotOf;
    if i == |fields| {
      assert [] + t == t;
    } else {
      var slot := msg[SlotOf(fields, i)];
      var a, b := EncSlot(fields[i], slot).value, EncMsg(fields, i + 1, msg).value;
      assert EncMsg(fields, i, msg).value == a + b && a + b + t == a + (b + t);
      SlotSkipped(other, st, fields[i], slot, b + t);
      SkippedFrom(other, st, fields, i + 1, msg, t);
    }
  }

  /** Whatever a message holds, a reader with another schema, none of whose fields has a tag of the
      message's, skips all of it and goes on with what follows. */
  lemma SkippedByOthers(other: seq<Field>, st: State, fields: seq<Field>, msg: seq<Slot>, t: seq<byte>)
    requires forall f | f in fields :: Foreign(other, f)
    requires Encode(fields, msg).Some? && |Encode(fields, msg).value| < TWO32
    ensures DecLoop(other, st, Encode(fields, msg).value + t) == DecLoop(other, st, t)
  {
    SkippedFrom(other, st, fields, 0, msg, t);
  }
}
