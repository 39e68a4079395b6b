/** When encoding succeeds, and how long the output is. */
module EncodeLaws {
  import opened Varint
  import opened Schema
  import opened Encoding

  /** The field encoders' error conditions: an integer field of odd size, a bytes field longer than
      its buffer, more items than the array holds; anywhere in what would be encoded. */
  predicate ValueEncodable(f: Field, v: Value)
    requires ValueFits(f, v)
    decreases f, 0
  {
    match f.ltype
    case LSubmessage(sub) => Encodable(sub, v.slots)
    case LVarint | LUVarint | LSVarint => ValidWidth(f.dataSize)
    case LBytes => |v.bytes| + BYTES_HEADER <= f.dataSize
    case _ => true
  }

  predicate SlotEncodable(f: Field, s: Slot)
    requires SlotFits(f, s)
    decreases f, 1
  {
    match f.htype
    case Required => ValueEncodable(f, s.v)
    case Optional =>
      if f.sizeOffset == 0 then !IsZeroSlot(f, s) ==> ValueEncodable(f, s.v) else s.has ==> ValueEncodable(f, s.v)
    case Repeated => |s.items| <= f.arraySize && forall k | 0 <= k < |s.items| :: ValueEncodable(f, s.items[k])
    case OneOf => s.which == f.tag ==> ValueEncodable(f, s.v)
  }

  predicate EncodableFrom(fields: seq<Field>, i: nat, msg: seq<Slot>)
    requires i <= |fields| && Matches(fields, msg)
    decreases fields, 0
  {
    forall j | i <= j < |fields| :: SlotEncodable(fields[j], msg[SlotOf(fields, j)])
  }

  predicate Encodable(fields: seq<Field>, msg: seq<Slot>)
    requires Matches(fields, msg)
    decreases fields, 1
  {
    EncodableFrom(fields, 0, msg)
  }

  lemma {:induction false} ValueEncodes(f: Field, v: Value)
    requires ValueFits(f, v)
    ensures EncValue(f, v).Some? <==> ValueEncodable(f, v)
    decreases f, 0
  {
    hide EncMsg, Encodable, Matches, EncVarint, LittleEndian, CString;
    if f.ltype.LSubmessage? { MessageEncodes(f.ltype.sub, 0, v.slots); EncodableUnfold(f.ltype.sub, v.slots); }
  }

  lemma EncodableUnfold(fields: seq<Field>, msg: seq<Slot>)
    requires Matches(fields, msg)
    ensures Encodable(fields, msg) == EncodableFrom(fields, 0, msg)
  {
    hide SlotOf, Matches;
  }

  lemma {:induction false} ItemsEncode(f: Field, items: seq<Value>)
    requires forall k | 0 <= k < |items| :: ValueFits(f, items[k])
    ensures EncItems(f, items).Some? <==> forall k | 0 <= k < |items| :: ValueEncodable(f, items[k])
    ensures EncUnpacked(f, items).Some? <==> forall k | 0 <= k < |items| :: ValueEncodable(f, items[k])
    decreases f, 1, |items|
  {
    hide EncValue, ValueEncodable, ValueFits, EncTag;
    if items == [] {
    } else {
      ValueEncodes(f, items[0]);
      ItemsEncode(f, items[1..]);
      assert EncTagged(f, items[0]).Some? == EncValue(f, items[0]).Some?;
      if forall k | 0 <= k < |items[1..]| :: ValueEncodable(f, items[1..][k]) {
        forall k | 1 <= k < |items| ensures ValueEncodable(f, items[k]) { assert items[k] == items[1..][k - 1]; }
      }
    }
  }

  lemma {:induction false} SlotEncodes(f: Field, s: Slot)
    requires SlotFits(f, s)
    ensures EncSlot(f, s).Some? <==> SlotEncodable(f, s)
    decreases f, 2
  {
    hide EncValue, ValueEncodable, ValueFits, EncTag, EncItems, EncUnpacked, IsZeroValue;
    match f.htype {
      case Repeated =>
        ItemsEncode(f, s.items);
        assert EncSlot(f, s) == EncArray(f, s.items);
        assert EncPacked(f, s.items).Some? == EncItems(f, s.items).Some?;
      case Optional =>
        if f.sizeOffset == 0 || s.has {
          ValueEncodes(f, s.v);
          assert EncTagged(f, s.v).Some? == EncValue(f, s.v).Some?;
        }
      case Required => ValueEncodes(f, s.v); assert EncTagged(f, s.v).Some? == EncValue(f, s.v).Some?;
      case OneOf =>
        if s.which == f.tag { ValueEncodes(f, s.v); assert EncTagged(f, s.v).Some? == EncValue(f, s.v).Some?; }
    }
  }

  /** The encoder of a struct that matches its descriptor fails for one of the named reasons only. */
  lemma {:induction false} MessageEncodes(fields: seq<Field>, i: nat, msg: seq<Slot>)
    requires i <= |fields| && Matches(fields, msg)
    ensures EncMsg(fields, i, msg).Some? <==> EncodableFrom(fields, i, msg)
    decreases fields, |fields| - i, 3
  {
    hide SlotOf, EncSlot, SlotEncodable, SlotFits;
    if i >= |fields| {
    } else {
      SlotEncodes(fields[i], msg[SlotOf(fields, i)]);
      MessageEncodes(fields, i + 1, msg);
    }
  }

  /** pb_encode succeeds on an unlimited stream exactly for the encodable structs. */
  lemma EncodeSucceeds(fields: seq<Field>, msg: seq<Slot>)
    requires Matches(fields, msg)
    ensures Encode(fields, msg).Some? <==> Encodable(fields, msg)
  {
    hide EncMsg, Matches, SlotOf;
    MessageEncodes(fields, 0, msg);
    EncodableUnfold(fields, msg);
  }
}
