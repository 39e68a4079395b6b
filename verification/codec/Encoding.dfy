/** The bytes the encoder of pb_encode.c emits, as a function of descriptor and struct.
    None stands for `return false`. */
module Encoding {
  import opened Bits
  import opened Varint
  import opened VarintLaws
  import opened Options
  import opened Schema

  /** PB_WT_... */
  const WT_VARINT: nat := 0
  const WT_64BIT: nat := 1
  const WT_STRING: nat := 2
  const WT_32BIT: nat := 5

  function WireType(t: LType): nat
  {
    match t
    case LFixed32 => WT_32BIT
    case LFixed64 => WT_64BIT
    case LBytes | LString | LSubmessage(_) | LFixedBytes | LExtension => WT_STRING
    case _ => WT_VARINT
  }

  function EncTag(wireType: nat, tag: nat): seq<byte>
  {
    EncVarint(8 * tag + wireType)
  }

  /** `n` in k bytes, least significant first. */
  function LittleEndian(n: nat, k: nat): (s: seq<byte>)
    ensures |s| == k
  {
    if k == 0 then [] else [n % 0x100] + LittleEndian(n / 0x100, k - 1)
  }

  /** The bytes before the first NUL, or the whole buffer. */
  function CString(s: seq<byte>): (r: seq<byte>)
    ensures |r| <= |s|
  {
    if s == [] || s[0] == 0 then [] else [s[0]] + CString(s[1..])
  }

  /** pb_encode_string: the length as a 64-bit varint, then the bytes. */
  function Prefixed(s: seq<byte>): seq<byte>
  {
    EncVarint(U64(|s|)) + s
  }

  function Cat(a: Option<seq<byte>>, b: Option<seq<byte>>): Option<seq<byte>>
  {
    if a.Some? && b.Some? then Some(a.value + b.value) else None
  }

  /** The field encoders of all types but submessages. */
  function EncScalar(f: Field, v: Value): Option<seq<byte>>
  {
    if !ScalarFits(f, v) then None else
    match f.ltype
    case LBool => Some(EncVarint(if v.flag then 1 else 0))
    case LVarint => if ValidWidth(f.dataSize) then Some(EncVarint(AsWord64(v.n))) else None
    case LUVarint => if ValidWidth(f.dataSize) then Some(EncVarint(v.n)) else None
    case LSVarint => if ValidWidth(f.dataSize) then Some(EncVarint(ZigZag(v.n))) else None
    case LFixed32 => Some(LittleEndian(v.n, 4))
    case LFixed64 => Some(LittleEndian(v.n, 8))
    case LBytes => if |v.bytes| + BYTES_HEADER > f.dataSize then None else Some(Prefixed(v.bytes))
    case LString => Some(Prefixed(CString(v.bytes)))
    case LFixedBytes => Some(Prefixed(v.bytes))
    case _ => None
  }

  function EncValue(f: Field, v: Value): Option<seq<byte>>
    decreases f, 0
  {
    if f.ltype.LSubmessage? then
      if !v.VMsg? then None else
      var body := EncMsg(f.ltype.sub, 0, v.slots);
      if body.None? then None else Some(Prefixed(body.value))
    else EncScalar(f, v)
  }

  /** Values one after the other, as in a packed array. */
  function EncItems(f: Field, items: seq<Value>): Option<seq<byte>>
    decreases f, 1, |items|
  {
    if items == [] then Some([]) else Cat(EncValue(f, items[0]), EncItems(f, items[1..]))
  }

  function EncTagged(f: Field, v: Value): Option<seq<byte>>
    decreases f, 1, 0
  {
    Cat(Some(EncTag(WireType(f.ltype), f.tag)), EncValue(f, v))
  }

  function EncUnpacked(f: Field, items: seq<Value>): Option<seq<byte>>
    decreases f, 2, |items|
  {
    if items == [] then Some([]) else Cat(EncTagged(f, items[0]), EncUnpacked(f, items[1..]))
  }

  function EncPacked(f: Field, items: seq<Value>): Option<seq<byte>>
    decreases f, 2, 0
  {
    var payload := EncItems(f, items);
    if payload.None? then None else Some(EncTag(WT_STRING, f.tag) + Prefixed(payload.value))
  }

  /** encode_array */
  function EncArray(f: Field, items: seq<Value>): Option<seq<byte>>
    decreases f, 3
  {
    if items == [] then Some([])
    else if |items| > f.arraySize then None
    else if Packable(f.ltype) then EncPacked(f, items)
    else EncUnpacked(f, items)
  }

  /** pb_check_proto3_default_value on a value of the field's own type. */
  predicate IsZeroValue(f: Field, v: Value)
    decreases f, 0
  {
    match v
    case VBool(flag) => !flag
    case VInt(n) => n == 0
    case VBytes(b) =>
      if f.ltype.LString? then b != [] && b[0] == 0
      else if f.ltype.LFixedBytes? then f.dataSize == 0
      else b == []
    case VMsg(slots) => f.ltype.LSubmessage? && AllZero(f.ltype.sub, slots)
  }

  predicate IsZeroSlot(f: Field, s: Slot)
    decreases f, 1
  {
    match f.htype
    case Required => false
    case Repeated => s.Rep? && f.sizeOffset != 0 && s.items == []
    case OneOf => s.Union? && s.which == 0
    case Optional => if f.sizeOffset != 0 then s.Opt? && !s.has else s.Plain? && IsZeroValue(f, s.v)
  }

  predicate AllZero(fields: seq<Field>, msg: seq<Slot>)
    decreases fields
  {
    forall i | 0 <= i < |fields| :: SlotOf(fields, i) < |msg| && IsZeroSlot(fields[i], msg[SlotOf(fields, i)])
  }

  /** encode_basic_field */
  function EncSlot(f: Field, s: Slot): Option<seq<byte>>
    decreases f, 4
  {
    match f.htype
    case Required => if s.Plain? then EncTagged(f, s.v) else None
    case Optional =>
      if f.sizeOffset != 0 then
        if !s.Opt? then None else if s.has then EncTagged(f, s.v) else Some([])
      else
        if !s.Plain? then None else if IsZeroSlot(f, s) then Some([]) else EncTagged(f, s.v)
    case Repeated => if s.Rep? then EncArray(f, s.items) else None
    case OneOf => if !s.Union? then None else if s.which == f.tag then EncTagged(f, s.v) else Some([])
  }

  /** pb_encode, from position i on. */
  function EncMsg(fields: seq<Field>, i: nat, msg: seq<Slot>): Option<seq<byte>>
    requires i <= |fields|
    decreases fields, |fields| - i
  {
    if i == |fields| then Some([])
    else if SlotOf(fields, i) >= |msg| then None
    else Cat(EncSlot(fields[i], msg[SlotOf(fields, i)]), EncMsg(fields, i + 1, msg))
  }

  function Encode(fields: seq<Field>, msg: seq<Slot>): Option<seq<byte>>
  {
    EncMsg(fields, 0, msg)
  }
}
