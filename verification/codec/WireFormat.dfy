/** The Protocol Buffers wire format, by the numbers that bytes stand for: what a message of a
    descriptor looks like, told without the encoder. */
module WireFormat {
  import opened Bits
  import opened Schema

  // --------------------------------------------------------------------------
  // Numbers
  // --------------------------------------------------------------------------

  /** The number of a varint: seven bits a byte, least significant first. */
  function Number(p: seq<byte>): nat
  {
    if p == [] then 0 else p[0] % 128 + 128 * Number(p[1..])
  }

  /** Every byte but the last has its continuation bit. */
  predicate IsVarint(p: seq<byte>)
  {
    p != [] && p[|p| - 1] < 128 && forall k | 0 <= k < |p| - 1 :: p[k] >= 128
  }

  /** The shortest varint of a number. */
  predicate IsNumber(p: seq<byte>, n: nat)
  {
    IsVarint(p) && (|p| > 1 ==> p[|p| - 1] != 0) && Number(p) == n
  }

  /** The number of a fixed-width field: eight bits a byte, least significant first. */
  function Weighted(p: seq<byte>): nat
  {
    if p == [] then 0 else p[0] + 256 * Weighted(p[1..])
  }

  // --------------------------------------------------------------------------
  // Payloads
  // --------------------------------------------------------------------------

  /** 0 for varints, 1 and 5 for eight and four bytes, 2 for a length and that many bytes. */
  function WireTypeFor(t: LType): nat
  {
    match t
    case LBool | LVarint | LUVarint | LSVarint => 0
    case LFixed64 => 1
    case LFixed32 => 5
    case LBytes | LString | LFixedBytes | LSubmessage(_) | LExtension => 2
  }

  /** A length as a 64-bit number, then the body. */
  ghost predicate Delimited(p: seq<byte>, body: seq<byte>)
  {
    exists k | 0 <= k <= |p| :: IsNumber(p[..k], |body| % 0x1_0000_0000_0000_0000) && p[k..] == body
  }

  /** The bytes in front of the first NUL. */
  predicate UpToNul(b: seq<byte>, text: seq<byte>)
  {
    text <= b && 0 !in text && (|text| < |b| ==> b[|text|] == 0)
  }

  /** The payload is the first k bytes of the buffer, up to the NUL. */
  ghost predicate Text(b: seq<byte>, k: nat, p: seq<byte>)
  {
    k <= |b| && UpToNul(b, b[..k]) && Delimited(p, b[..k])
  }

  ghost predicate ScalarPayload(f: Field, v: Value, p: seq<byte>)
  {
    match v
    case VBool(flag) => f.ltype.LBool? && p == [if flag then 1 else 0]
    case VInt(n) =>
      (match f.ltype
       case LVarint => IsNumber(p, n % 0x1_0000_0000_0000_0000)
       case LUVarint => n >= 0 && IsNumber(p, n)
       case LSVarint => IsNumber(p, if n < 0 then -2 * n - 1 else 2 * n)
       case LFixed32 => |p| == 4 && Weighted(p) == n
       case LFixed64 => |p| == 8 && Weighted(p) == n
       case _ => false)
    case VBytes(b) =>
      (match f.ltype
       case LString => exists k: nat :: Text(b, k, p)
       case LBytes => Delimited(p, b)
       case LFixedBytes => Delimited(p, b)
       case _ => false)
    case VMsg(_) => false
  }

  ghost predicate Payload(f: Field, v: Value, p: seq<byte>)
    decreases f, 0
  {
    if f.ltype.LSubmessage? then
      v.VMsg? && exists k | 0 <= k <= |p| ::
        IsNumber(p[..k], |p[k..]| % 0x1_0000_0000_0000_0000) && Message(f.ltype.sub, 0, v.slots, p[k..])
    else ScalarPayload(f, v, p)
  }

  // --------------------------------------------------------------------------
  // Records
  // --------------------------------------------------------------------------

  /** Eight times the field number plus the wire type, then the payload. */
  ghost predicate Record(f: Field, v: Value, s: seq<byte>)
    decreases f, 1
  {
    exists k | 0 <= k <= |s| :: IsNumber(s[..k], 8 * f.tag + WireTypeFor(f.ltype)) && Payload(f, v, s[k..])
  }

  ghost predicate Records(f: Field, items: seq<Value>, s: seq<byte>)
    decreases f, 2, |items|
  {
    if items == [] then s == []
    else exists k | 0 <= k <= |s| :: Record(f, items[0], s[..k]) && Records(f, items[1..], s[k..])
  }

  ghost predicate Payloads(f: Field, items: seq<Value>, s: seq<byte>)
    decreases f, 2, |items|
  {
    if items == [] then s == []
    else exists k | 0 <= k <= |s| :: Payload(f, items[0], s[..k]) && Payloads(f, items[1..], s[k..])
  }

  /** All items in one record of wire type 2. */
  ghost predicate Packed(f: Field, items: seq<Value>, s: seq<byte>)
    decreases f, 3
  {
    exists k, j | 0 <= k <= j <= |s| ::
      && IsNumber(s[..k], 8 * f.tag + 2)
      && IsNumber(s[k..j], |s[j..]| % 0x1_0000_0000_0000_0000)
      && Payloads(f, items, s[j..])
  }

  /** A value that proto3 leaves out: false, zero, empty; a submessage all of whose fields are left
      out. A byte array of fixed length is not, unless it has none. */
  predicate Blank(f: Field, v: Value)
    decreases f, 0
  {
    match v
    case VBool(flag) => flag == false
    case VInt(n) => n == 0
    case VBytes(b) =>
      if f.ltype.LString? then |b| > 0 && b[0] == 0 else if f.ltype.LFixedBytes? then f.dataSize == 0 else |b| == 0
    case VMsg(slots) =>
      f.ltype.LSubmessage? && forall i | 0 <= i < |f.ltype.sub| ::
        SlotOf(f.ltype.sub, i) < |slots| && BlankSlot(f.ltype.sub[i], slots[SlotOf(f.ltype.sub, i)])
  }

  predicate BlankSlot(f: Field, s: Slot)
    decreases f, 1
  {
    match s
    case Plain(v) => f.htype.Optional? && f.sizeOffset == 0 && Blank(f, v)
    case Opt(has, _) => f.htype.Optional? && f.sizeOffset != 0 && has == false
    case Rep(items) => f.htype.Repeated? && f.sizeOffset != 0 && |items| == 0
    case Union(which, _) => f.htype.OneOf? && which == 0
  }

  predicate OneByOne(t: LType)
  {
    t.LBytes? || t.LString? || t.LSubmessage? || t.LFixedBytes? || t.LExtension?
  }

  /** The bytes of one position: nothing for an absent field. */
  ghost predicate Position(f: Field, s: Slot, b: seq<byte>)
    decreases f, 4
  {
    match s
    case Plain(v) =>
      if f.htype.Required? || (f.htype.Optional? && f.sizeOffset == 0 && !Blank(f, v)) then Record(f, v, b)
      else f.htype.Optional? && f.sizeOffset == 0 && b == []
    case Opt(has, v) => f.htype.Optional? && f.sizeOffset != 0 && if has then Record(f, v, b) else b == []
    case Rep(items) =>
      f.htype.Repeated? && |items| <= f.arraySize &&
      if items == [] then b == [] else if OneByOne(f.ltype) then Records(f, items, b) else Packed(f, items, b)
    case Union(which, v) => f.htype.OneOf? && if which == f.tag then Record(f, v, b) else b == []
  }

  /** The bytes of the positions from i on, in the order of the descriptor. */
  ghost predicate Message(fields: seq<Field>, i: nat, msg: seq<Slot>, s: seq<byte>)
    requires i <= |fields|
    decreases fields, |fields| - i
  {
    if i == |fields| then s == []
    else
      SlotOf(fields, i) < |msg| && exists k | 0 <= k <= |s| ::
        Position(fields[i], msg[SlotOf(fields, i)], s[..k]) && Message(fields, i + 1, msg, s[k..])
  }
}
