/** What the decoder of pb_decode.c does to a struct, as a function of descriptor, struct and
    input bytes. Fail and None stand for `return false`. */
module Decoding {
  import opened Bits
  import opened Varint
  import opened VarintLaws
  import opened Options
  import opened Schema
  import opened Encoding

  const MAX_REQUIRED_FIELDS: nat := 64

  // --------------------------------------------------------------------------
  // Records
  // --------------------------------------------------------------------------

  /** pb_decode_tag: Stop is the zero byte that ends a null-terminated message. */
  datatype TagResult = Bad | Stop(rest: seq<byte>) | Tag(tag: nat, wireType: nat, rest: seq<byte>)

  function DecTag(s: seq<byte>): (r: TagResult)
    ensures !r.Bad? ==> |r.rest| < |s|
  {
    match DecVarint32(s)
    case Fail => Bad
    case Got(v, rest) => if v == 0 then Stop(rest) else Tag(v / 8, v % 8, rest)
  }

  /** pb_read of n bytes. */
  function Take(s: seq<byte>, n: nat): (r: Parse<seq<byte>>)
    ensures r.Got? ==> |r.rest| <= |s| && |r.value| == n
  {
    if |s| < n then Fail else Got(s[..n], s[n..])
  }

  /** A length and that many bytes: the contents of a substream. */
  function DecPrefixed(s: seq<byte>): (r: Parse<seq<byte>>)
    ensures r.Got? ==> |r.rest| < |s| && |r.value| < |s|
  {
    match DecVarint32(s)
    case Fail => Fail
    case Got(size, rest) => Take(rest, size)
  }

  /** pb_skip_field */
  function SkipField(wireType: nat, s: seq<byte>): (r: Parse<()>)
    ensures r.Got? ==> |r.rest| <= |s|
  {
    if wireType == WT_VARINT then SkipVarint(s)
    else if wireType == WT_64BIT then Skip(Take(s, 8))
    else if wireType == WT_STRING then Skip(DecPrefixed(s))
    else if wireType == WT_32BIT then Skip(Take(s, 4))
    else Fail
  }

  function Skip<T>(p: Parse<T>): Parse<()>
  {
    match p case Fail => Fail case Got(_, rest) => Got((), rest)
  }

  // --------------------------------------------------------------------------
  // Single values
  // --------------------------------------------------------------------------

  /** Conversion to a signed integer of `size` bytes. */
  function Truncate(size: nat, n: int): int
    requires ValidWidth(size)
  {
    match size
    case 1 => (n + 0x80) % 0x100 - 0x80
    case 2 => (n + 0x8000) % 0x1_0000 - 0x8000
    case 4 => (n + 0x8000_0000) % 0x1_0000_0000 - 0x8000_0000
    case 8 => (n + 0x8000_0000_0000_0000) % 0x1_0000_0000_0000_0000 - 0x8000_0000_0000_0000
  }

  /** pb_dec_varint: fields below 64 bits go through int32 first. */
  function ClampVarint(size: nat, v: nat): Option<Value>
  {
    if !ValidWidth(size) then None else
    var wide := if size == 8 then AsInt64(U64(v)) else Truncate(4, v);
    if Truncate(size, wide) == wide then Some(VInt(wide)) else None
  }

  /** pb_dec_uvarint */
  function ClampUVarint(size: nat, v: nat): Option<Value>
  {
    if ValidWidth(size) && FitsUnsigned(size, v) then Some(VInt(v)) else None
  }

  /** pb_dec_svarint */
  function ClampSVarint(size: nat, v: nat): Option<Value>
  {
    if !ValidWidth(size) then None else
    var wide := UnZigZag(U64(v));
    if Truncate(size, wide) == wide then Some(VInt(wide)) else None
  }

  function FromLittleEndian(s: seq<byte>): nat
  {
    if s == [] then 0 else s[0] + 0x100 * FromLittleEndian(s[1..])
  }

  function Clamped(c: Option<Value>, rest: seq<byte>): Parse<Value>
  {
    if c.None? then Fail else Got(c.value, rest)
  }

  function DecInteger(f: Field, s: seq<byte>): (r: Parse<Value>)
    ensures r.Got? ==> |r.rest| < |s|
  {
    match DecVarint64(s)
    case Fail => Fail
    case Got(v, rest) =>
      Clamped(if f.ltype.LVarint? then ClampVarint(f.dataSize, v)
              else if f.ltype.LUVarint? then ClampUVarint(f.dataSize, v)
              else ClampSVarint(f.dataSize, v), rest)
  }

  function DecBool(s: seq<byte>): (r: Parse<Value>)
    ensures r.Got? ==> |r.rest| < |s|
  {
    match DecVarint32(s)
    case Fail => Fail
    case Got(v, rest) => Got(VBool(v != 0), rest)
  }

  function DecFixed(k: nat, s: seq<byte>): (r: Parse<Value>)
    ensures r.Got? && k > 0 ==> |r.rest| < |s|
  {
    match Take(s, k)
    case Fail => Fail
    case Got(b, rest) => Got(VInt(FromLittleEndian(b)), rest)
  }

  function DecBytes(f: Field, s: seq<byte>): (r: Parse<Value>)
    ensures r.Got? ==> |r.rest| < |s|
  {
    match DecVarint32(s)
    case Fail => Fail
    case Got(size, rest) =>
      if size > PB_SIZE_MAX || size + BYTES_HEADER > f.dataSize then Fail
      else match Take(rest, size)
           case Fail => Fail
           case Got(b, rest') => Got(VBytes(b), rest')
  }

  function DecString(f: Field, s: seq<byte>): (r: Parse<Value>)
    ensures r.Got? ==> |r.rest| < |s|
  {
    match DecVarint32(s)
    case Fail => Fail
    case Got(size, rest) =>
      if size + 1 > f.dataSize then Fail
      else match Take(rest, size)
           case Fail => Fail
           case Got(b, rest') => Got(VBytes(b + [0]), rest')
  }

  function DecFixedBytes(f: Field, s: seq<byte>): (r: Parse<Value>)
    ensures r.Got? ==> |r.rest| < |s|
  {
    match DecVarint32(s)
    case Fail => Fail
    case Got(size, rest) =>
      if size > PB_SIZE_MAX then Fail
      else if size == 0 then Got(VBytes(seq(f.dataSize, _ => 0)), rest)
      else if size != f.dataSize then Fail
      else match Take(rest, size)
           case Fail => Fail
           case Got(b, rest') => Got(VBytes(b), rest')
  }

  /** The field decoders of all types but submessages. */
  function DecScalar(f: Field, s: seq<byte>): (r: Parse<Value>)
    ensures r.Got? ==> |r.rest| < |s|
  {
    match f.ltype
    case LBool => DecBool(s)
    case LVarint | LUVarint | LSVarint => DecInteger(f, s)
    case LFixed32 => DecFixed(4, s)
    case LFixed64 => DecFixed(8, s)
    case LBytes => DecBytes(f, s)
    case LString => DecString(f, s)
    case LFixedBytes => DecFixedBytes(f, s)
    case _ => Fail
  }

  // --------------------------------------------------------------------------
  // The decoding loop
  // --------------------------------------------------------------------------

  /** The local state of pb_decode_noinit: the struct, the required fields seen (by their index
      among the required fields), and the fixed-count array being received. */
  datatype State = State(msg: seq<Slot>, seen: set<nat>, fixedField: Option<nat>, fixedSize: nat)

  datatype LoopResult = Failed | Done(st: State, rest: seq<byte>, stopped: bool)

  /** Position of the field with this tag, searching from position i. */
  function FindFrom(fields: seq<Field>, tag: nat, i: nat): (r: Option<nat>)
    requires i <= |fields|
    ensures r.Some? ==> i <= r.value < |fields| && fields[r.value].tag == tag && !fields[r.value].ltype.LExtension?
    ensures r.None? ==> forall j :: i <= j < |fields| ==> fields[j].tag != tag || fields[j].ltype.LExtension?
    decreases |fields| - i
  {
    if i == |fields| then None
    else if fields[i].tag == tag && !fields[i].ltype.LExtension? then Some(i)
    else FindFrom(fields, tag, i + 1)
  }

  function Find(fields: seq<Field>, tag: nat): (r: Option<nat>)
    ensures r.Some? ==> r.value < |fields| && fields[r.value].tag == tag && !fields[r.value].ltype.LExtension?
    ensures r.None? ==> forall j :: 0 <= j < |fields| ==> fields[j].tag != tag || fields[j].ltype.LExtension?
  {
    FindFrom(fields, tag, 0)
  }

  /** Number of required fields before position i. */
  function RequiredBefore(fields: seq<Field>, i: nat): nat
    requires i <= |fields|
  {
    if i == 0 then 0 else RequiredBefore(fields, i - 1) + if fields[i - 1].htype.Required? then 1 else 0
  }

  /** Store an item in an array slot. */
  function PutItem(items: seq<Value>, k: nat, v: Value): (r: seq<Value>)
    requires k <= |items|
    ensures |r| == if k < |items| then |items| else k + 1
  {
    if k < |items| then items[k := v] else items + [v]
  }

  /** The loop over a packed array: items are stored from index k on until the substream is
      empty or the array is full. The result's rest is what is left of the substream. */
  function PackedLoop(f: Field, items: seq<Value>, k: nat, s: seq<byte>): (r: Parse<(seq<Value>, nat)>)
    requires k <= |items|
    ensures r.Got? ==> r.value.1 <= |r.value.0|
    decreases |s|
  {
    if s == [] || k >= f.arraySize then Got((items, k), s)
    else match DecScalar(f, s)
         case Fail => Fail
         case Got(v, rest) => PackedLoop(f, PutItem(items, k, v), k + 1, rest)
  }

  /** A slot after a record, with the item count of an array. */
  datatype Stored = Stored(slot: Slot, count: nat)

  /** decode_static_field. `count` is the number of items the array holds before the record. */
  function DecStatic(f: Field, wireType: nat, slot: Slot, count: nat, s: seq<byte>): (r: Parse<Stored>)
    ensures r.Got? ==> |r.rest| < |s|
    decreases |s|, 2
  {
    match f.htype
    case Required =>
      if !slot.Plain? then Fail else StoreValue(DecValue(f, slot.v, s), v => Plain(v), count)
    case Optional =>
      if f.sizeOffset != 0 then
        if !slot.Opt? then Fail else StoreValue(DecValue(f, slot.v, s), v => Opt(true, v), count)
      else
        if !slot.Plain? then Fail else StoreValue(DecValue(f, slot.v, s), v => Plain(v), count)
    case Repeated =>
      if !slot.Rep? || count > |slot.items| then Fail
      else if wireType == WT_STRING && Packable(f.ltype) then DecPackedRecord(f, slot.items, count, s)
      else if count >= f.arraySize then Fail
      else StoreValue(DecValue(f, NewItem(f), s), v => Rep(PutItem(slot.items, count, v)), count + 1)
    case OneOf =>
      if !slot.Union? then Fail
      else StoreValue(DecValue(f, NewItem(f), s), v => Union(f.tag, v), count)
  }

  function StoreValue(p: Parse<Value>, store: Value -> Slot, count: nat): Parse<Stored>
  {
    match p case Fail => Fail case Got(v, rest) => Got(Stored(store(v), count), rest)
  }

  function DecPackedRecord(f: Field, items: seq<Value>, count: nat, s: seq<byte>): (r: Parse<Stored>)
    requires count <= |items|
    ensures r.Got? ==> |r.rest| < |s|
  {
    match DecPrefixed(s)
    case Fail => Fail
    case Got(payload, rest) =>
      match PackedLoop(f, items, count, payload)
      case Fail => Fail
      case Got((items', count'), left) =>
        if left != [] then Fail else Got(Stored(Rep(items'), count'), rest)
  }

  /** The memory a new array item or oneof member is decoded into: a submessage is initialised
      first, other types are overwritten. */
  function NewItem(f: Field): Value
  {
    if f.ltype.LSubmessage? then VMsg(Defaults(f.ltype.sub)) else NO_VALUE
  }

  /** The decoder of a single value. A submessage is merged into the struct already there. */
  function DecValue(f: Field, prior: Value, s: seq<byte>): (r: Parse<Value>)
    ensures r.Got? ==> |r.rest| < |s|
    decreases |s|, 1
  {
    if f.ltype.LSubmessage? then
      match DecPrefixed(s)
      case Fail => Fail
      case Got(body, rest) =>
        if !prior.VMsg? then Fail
        else match DecodeInto(f.ltype.sub, prior.slots, body)
             case Fail => Fail
             case Got(msg, _) => Got(VMsg(msg), rest)
    else DecScalar(f, s)
  }

  /** The bookkeeping before a fixed-count array receives an item: the array received before it,
      if it is another one, must be complete. */
  function EnterFixed(fields: seq<Field>, st: State, i: nat): Option<State>
    requires i < |fields|
  {
    if !FixedCount(fields[i]) || st.fixedField == Some(i) then Some(st)
    else if !FixedComplete(fields, st) then None
    else Some(st.(fixedField := Some(i), fixedSize := 0))
  }

  predicate FixedComplete(fields: seq<Field>, st: State)
  {
    st.fixedField.Some? ==> st.fixedField.value < |fields| && st.fixedSize == fields[st.fixedField.value].arraySize
  }

  function MarkSeen(fields: seq<Field>, st: State, i: nat): State
    requires i < |fields|
  {
    if fields[i].htype.Required? && RequiredBefore(fields, i) < MAX_REQUIRED_FIELDS
    then st.(seen := st.seen + {RequiredBefore(fields, i)})
    else st
  }

  function CountOf(f: Field, slot: Slot, st: State): nat
  {
    if FixedCount(f) then st.fixedSize else if slot.Rep? then |slot.items| else 0
  }

  /** A record whose tag is described at position i. */
  function DecRecordAt(fields: seq<Field>, st: State, i: nat, wireType: nat, s: seq<byte>): (r: Parse<State>)
    requires i < |fields|
    ensures r.Got? ==> |r.rest| < |s|
    decreases |s|, 3
  {
    var f := fields[i];
    var k := SlotOf(fields, i);
    if k >= |st.msg| then Fail else
    match EnterFixed(fields, st, i)
    case None => Fail
    case Some(entered) =>
      var st' := MarkSeen(fields, entered, i);
      match DecStatic(f, wireType, st'.msg[k], CountOf(f, st'.msg[k], st'), s)
      case Fail => Fail
      case Got(stored, rest) =>
        Got(st'.(msg := st'.msg[k := stored.slot],
                 fixedSize := if FixedCount(f) then stored.count else st'.fixedSize), rest)
  }

  /** A record of any tag. One that no field describes is skipped; an extension placeholder stands
      for an empty list of extensions, which handles none. In an empty descriptor the terminator
      (tag 0, type BOOL) answers to tag 0. */
  function DecRecord(fields: seq<Field>, st: State, tag: nat, wireType: nat, s: seq<byte>): (r: Parse<State>)
    ensures r.Got? ==> |r.rest| <= |s|
    decreases |s|, 4
  {
    if fields == [] && tag == 0 then
      match DecVarint32(s) case Fail => Fail case Got(_, rest) => Got(st, rest)
    else
      match Find(fields, tag)
      case Some(i) => DecRecordAt(fields, st, i, wireType, s)
      case None => match SkipField(wireType, s) case Fail => Fail case Got(_, rest) => Got(st, rest)
  }

  function DecLoop(fields: seq<Field>, st: State, s: seq<byte>): (r: LoopResult)
    ensures r.Done? ==> |r.rest| <= |s|
    decreases |s|, 5
  {
    if s == [] then Done(st, [], false)
    else match DecTag(s)
         case Bad => Failed
         case Stop(rest) => Done(st, rest, true)
         case Tag(tag, wireType, rest) =>
           match DecRecord(fields, st, tag, wireType, rest)
           case Fail => Failed
           case Got(st', rest') => DecLoop(fields, st', rest')
  }

  /** The checks after the loop. */
  predicate Accepts(fields: seq<Field>, st: State)
  {
    && FixedComplete(fields, st)
    && forall k | 0 <= k < RequiredBefore(fields, |fields|) && k < MAX_REQUIRED_FIELDS :: k in st.seen
  }

  function Start(msg: seq<Slot>): State
  {
    State(msg, {}, None, 0)
  }

  /** pb_decode_noinit: the struct afterwards, and the bytes not consumed. */
  function DecodeInto(fields: seq<Field>, msg: seq<Slot>, s: seq<byte>): (r: Parse<seq<Slot>>)
    ensures r.Got? ==> |r.rest| <= |s|
    decreases |s|, 6
  {
    match DecLoop(fields, Start(msg), s)
    case Failed => Fail
    case Done(st, rest, _) => if Accepts(fields, st) then Got(st.msg, rest) else Fail
  }

  /** pb_decode */
  function Decode(fields: seq<Field>, s: seq<byte>): Parse<seq<Slot>>
  {
    DecodeInto(fields, Defaults(fields), s)
  }
}
