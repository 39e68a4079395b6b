/** Field descriptors (pb_field_t) and the structs they describe.

    A struct is a sequence of slots. The slot of a descriptor position stands for its data offset:
    the members of one oneof share a slot, every other position has a slot of its own. */
module Schema {
  import opened Options
  import opened Bits
  import opened VarintLaws

  /** PB_LTYPE_...: how a single value is stored and encoded. */
  datatype LType =
    | LBool | LVarint | LUVarint | LSVarint | LFixed32 | LFixed64
    | LBytes | LString | LSubmessage(sub: seq<Field>) | LExtension | LFixedBytes

  /** PB_HTYPE_...: how often the field occurs. */
  datatype HType = Required | Optional | Repeated | OneOf

  /** pb_field_t with static allocation. A zero `sizeOffset` means that the struct holds no
      has_ flag (optional fields) or no count (repeated fields). `init` is the default value
      behind `ptr`. */
  datatype Field = Field(
    tag: nat, ltype: LType, htype: HType,
    dataOffset: nat, sizeOffset: int, dataSize: nat, arraySize: nat,
    init: Option<Value>)

  /** Largest pb_size_t, and in `dataOffset` the mark of a further member of the same oneof. */
  const PB_SIZE_MAX: nat := 0xFFFF_FFFF

  /** offsetof(pb_bytes_array_t, bytes): the size field in front of the bytes. */
  const BYTES_HEADER: nat := 4

  /** VBytes is the content of a bytes field (`size` bytes), of a fixed-length byte array, or the
      known front of a string buffer, which ends at its first NUL or fills the buffer. */
  datatype Value = VBool(flag: bool) | VInt(n: int) | VBytes(bytes: seq<byte>) | VMsg(slots: seq<Slot>)

  /** Rep holds the items counted by the count field; for a fixed-count array, the items written. */
  datatype Slot = Plain(v: Value) | Opt(has: bool, v: Value) | Rep(items: seq<Value>) | Union(which: nat, v: Value)

  predicate Packable(t: LType)
  {
    t.LBool? || t.LVarint? || t.LUVarint? || t.LSVarint? || t.LFixed32? || t.LFixed64?
  }

  predicate FixedCount(f: Field)
  {
    f.htype.Repeated? && f.sizeOffset == 0
  }

  /** A position that continues the oneof of the previous position. */
  predicate SharesSlot(fields: seq<Field>, i: nat)
    requires i < |fields|
  {
    i > 0 && fields[i - 1].htype.OneOf? && fields[i].htype.OneOf? && fields[i].dataOffset == PB_SIZE_MAX
  }

  /** Slots taken by the first n positions. */
  function SlotsUsed(fields: seq<Field>, n: nat): (k: nat)
    requires n <= |fields|
    ensures n > 0 ==> k > 0
  {
    if n == 0 then 0 else SlotsUsed(fields, n - 1) + if SharesSlot(fields, n - 1) then 0 else 1
  }

  function SlotOf(fields: seq<Field>, i: nat): nat
    requires i < |fields|
  {
    SlotsUsed(fields, i + 1) - 1
  }

  predicate DistinctTags(fields: seq<Field>)
  {
    forall i, j :: 0 <= i < j < |fields| ==> fields[i].tag != fields[j].tag
  }

  /** What the descriptor compiler guarantees: tags are legal and distinct, sizes fit their
      fields, and a singular field without has_ flag has no explicit default. Descriptors with an
      extension placeholder are left aside. */
  predicate WellFormed(fields: seq<Field>)
    decreases fields
  {
    && DistinctTags(fields)
    && forall i | 0 <= i < |fields| :: WellFormedField(fields[i])
  }

  predicate WellFormedField(f: Field)
    decreases f
  {
    && 1 <= f.tag < 0x2000_0000
    && f.dataSize <= PB_SIZE_MAX && f.arraySize <= PB_SIZE_MAX
    && !f.ltype.LExtension?
    && (f.ltype.LString? ==> f.dataSize >= 1)
    && (f.ltype.LSubmessage? ==> WellFormed(f.ltype.sub))
    && (f.htype.Optional? && f.sizeOffset == 0 ==> f.init.None?)
  }

  // --------------------------------------------------------------------------
  // Structs that match a descriptor
  // --------------------------------------------------------------------------

  predicate ValidWidth(size: nat)
  {
    size in {1, 2, 4, 8}
  }

  predicate FitsSigned(size: nat, n: int)
  {
    match size
    case 1 => -0x80 <= n < 0x80
    case 2 => -0x8000 <= n < 0x8000
    case 4 => -0x8000_0000 <= n < 0x8000_0000
    case _ => IsInt64(n)
  }

  predicate FitsUnsigned(size: nat, n: int)
  {
    match size
    case 1 => 0 <= n < 0x100
    case 2 => 0 <= n < 0x1_0000
    case 4 => 0 <= n < 0x1_0000_0000
    case _ => 0 <= n < 0x1_0000_0000_0000_0000
  }

  /** A value that can lie in the memory of a non-message field. */
  predicate ScalarFits(f: Field, v: Value)
  {
    match f.ltype
    case LBool => v.VBool?
    case LVarint => v.VInt? && FitsSigned(f.dataSize, v.n)
    case LSVarint => v.VInt? && FitsSigned(f.dataSize, v.n)
    case LUVarint => v.VInt? && FitsUnsigned(f.dataSize, v.n)
    case LFixed32 => v.VInt? && FitsUnsigned(4, v.n)
    case LFixed64 => v.VInt? && FitsUnsigned(8, v.n)
    case LBytes => v.VBytes?
    case LString => v.VBytes? && |v.bytes| <= f.dataSize && (|v.bytes| == f.dataSize || 0 in v.bytes)
    case LFixedBytes => v.VBytes? && |v.bytes| == f.dataSize
    case _ => false
  }

  predicate ValueFits(f: Field, v: Value)
    decreases f, 0
  {
    if f.ltype.LSubmessage? then v.VMsg? && Matches(f.ltype.sub, v.slots) else ScalarFits(f, v)
  }

  /** A slot whose meaningful contents have the type of the descriptor position. */
  predicate SlotFits(f: Field, s: Slot)
    decreases f, 1
  {
    match f.htype
    case Required => s.Plain? && ValueFits(f, s.v)
    case Optional =>
      if f.sizeOffset == 0 then s.Plain? && ValueFits(f, s.v) else s.Opt? && (s.has ==> ValueFits(f, s.v))
    case Repeated =>
      && s.Rep?
      && (f.sizeOffset == 0 ==> |s.items| == f.arraySize)
      && forall k | 0 <= k < |s.items| :: ValueFits(f, s.items[k])
    case OneOf => s.Union? && (s.which == f.tag ==> ValueFits(f, s.v))
  }

  predicate Matches(fields: seq<Field>, msg: seq<Slot>)
    decreases fields
  {
    forall i | 0 <= i < |fields| :: SlotOf(fields, i) < |msg| && SlotFits(fields[i], msg[SlotOf(fields, i)])
  }

  // --------------------------------------------------------------------------
  // pb_message_set_to_defaults
  // --------------------------------------------------------------------------

  /** Contents of a oneof that holds no member: never read. */
  const NO_VALUE := VBytes([])

  function ZeroValue(f: Field): Value
  {
    match f.ltype
    case LBool => VBool(false)
    case LBytes => VBytes([])
    case LString => VBytes([0])
    case LFixedBytes => VBytes(seq(f.dataSize, _ => 0))
    case _ => VInt(0)
  }

  function DefaultValue(f: Field): Value
    decreases f, 0
  {
    if f.ltype.LSubmessage? then VMsg(Defaults(f.ltype.sub))
    else if f.init.Some? then f.init.value
    else ZeroValue(f)
  }

  function DefaultSlot(f: Field): Slot
    decreases f, 1
  {
    match f.htype
    case Required => Plain(DefaultValue(f))
    case Optional => if f.sizeOffset == 0 then Plain(DefaultValue(f)) else Opt(false, DefaultValue(f))
    case Repeated => Rep([])
    case OneOf => Union(0, NO_VALUE)
  }

  function DefaultsTo(fields: seq<Field>, n: nat): (msg: seq<Slot>)
    requires n <= |fields|
    ensures |msg| == SlotsUsed(fields, n)
    decreases fields, n
  {
    if n == 0 then []
    else DefaultsTo(fields, n - 1) + if SharesSlot(fields, n - 1) then [] else [DefaultSlot(fields[n - 1])]
  }

  function Defaults(fields: seq<Field>): seq<Slot>
    decreases fields, |fields| + 1
  {
    DefaultsTo(fields, |fields|)
  }

  lemma {:induction false} DefaultsToAt(fields: seq<Field>, n: nat, i: nat)
    requires i < n <= |fields|
    ensures SlotOf(fields, i) < SlotsUsed(fields, n)
    ensures DefaultsTo(fields, n)[SlotOf(fields, i)] == DefaultSlot(fields[i])
    decreases n
  {
    if i < n - 1 {
      DefaultsToAt(fields, n - 1, i);
    } else if SharesSlot(fields, i) {
      DefaultsToAt(fields, n - 1, i - 1);
    }
  }

  /** Every position of a freshly initialised struct holds that position's default. */
  lemma DefaultsAt(fields: seq<Field>, i: nat)
    requires i < |fields|
    ensures SlotOf(fields, i) < |Defaults(fields)|
    ensures Defaults(fields)[SlotOf(fields, i)] == DefaultSlot(fields[i])
  {
    DefaultsToAt(fields, |fields|, i);
  }

  lemma {:induction false} UsedMonotone(fields: seq<Field>, i: nat, j: nat)
    requires i <= j <= |fields|
    ensures SlotsUsed(fields, i) <= SlotsUsed(fields, j)
    decreases j
  {
    if i >= j {
    } else {
      UsedMonotone(fields, i, j - 1);
    }
  }

  /** Two positions share a slot only as members of one oneof. */
  lemma {:induction false} SharedSlotIsOneOf(fields: seq<Field>, i: nat, j: nat)
    requires i < j < |fields|
    ensures SlotOf(fields, i) <= SlotOf(fields, j)
    ensures SlotOf(fields, i) == SlotOf(fields, j) ==> fields[i].htype.OneOf? && fields[j].htype.OneOf?
    decreases j
  {
    if i >= j - 1 {
    } else {
      SharedSlotIsOneOf(fields, i, j - 1);
    }
  }
}
