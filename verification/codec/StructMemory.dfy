/** What pb_message_set_to_defaults writes into memory, byte by byte.

    A fixed-count array has no count, so that clearing "its count" clears the first four bytes of
    its data; an array shorter than that is overrun. */
module StructMemory {
  import opened Bits
  import opened Schema
  import opened FieldIter

  /** sizeof(pb_size_t) */
  const COUNT_SIZE: nat := 4

  // --------------------------------------------------------------------------
  // How far initialisation reaches
  // --------------------------------------------------------------------------

  predicate ClearsCount(f: Field)
  {
    f.htype.Repeated? || f.htype.OneOf?
  }

  /** Bytes cleared at pSize: a count or which_ tag, or a has_ flag. */
  function MarkerReach(f: Field): nat
  {
    if ClearsCount(f) then COUNT_SIZE else if f.htype.Optional? && f.sizeOffset != 0 then 1 else 0
  }

  /** Bytes initialised at pData. */
  function DataReach(f: Field): nat
    decreases f, 0
  {
    if ClearsCount(f) then 0 else if f.ltype.LSubmessage? then InitEnd(f.ltype.sub) else f.dataSize
  }

  function MarkerAt(fields: seq<Field>, i: nat): nat
    requires i < |fields|
  {
    if SizeOffset(fields, i) < 0 then 0 else SizeOffset(fields, i)
  }

  function Max(a: nat, b: nat): nat
  {
    if a < b then b else a
  }

  /** End of the bytes that the positions from i on initialise. */
  function InitEndFrom(fields: seq<Field>, i: nat): nat
    requires i <= |fields|
    decreases fields, |fields| - i
  {
    if i == |fields| then 0
    else
      var f := fields[i];
      Max(Max(MarkerAt(fields, i) + MarkerReach(f), DataOffset(fields, i) + DataReach(f)), InitEndFrom(fields, i + 1))
  }

  function InitEnd(fields: seq<Field>): nat
    decreases fields, |fields| + 1
  {
    InitEndFrom(fields, 0)
  }

  // --------------------------------------------------------------------------
  // Structs in memory
  // --------------------------------------------------------------------------

  /** A struct of `size` bytes as the iterator walks it: markers in front of their data, slots one
      behind the other, submessages structs of their own. */
  predicate Ordered(fields: seq<Field>, size: nat)
    decreases fields
  {
    && (forall i | 0 <= i < |fields| :: OrderedAt(fields, i, size))
    && (forall i, j | 0 <= i < j < |fields| && SlotOf(fields, i) != SlotOf(fields, j) ::
          DataOffset(fields, i) + StoredSize(fields[i]) <= SizeOffset(fields, j))
    && (forall i | 0 <= i < |fields| :: OrderedField(fields[i]))
  }

  predicate OrderedAt(fields: seq<Field>, i: nat, size: nat)
    requires i < |fields|
  {
    && 0 <= SizeOffset(fields, i) && SizeOffset(fields, i) + MarkerSize(fields[i]) <= DataOffset(fields, i)
    && DataOffset(fields, i) + StoredSize(fields[i]) <= size
    && (FixedCount(fields[i]) ==> SizeOffset(fields, i) == DataOffset(fields, i))
  }

  predicate OrderedField(f: Field)
    decreases f
  {
    && (f.htype.OneOf? ==> f.sizeOffset != 0)
    && (f.ltype.LSubmessage? ==> Ordered(f.ltype.sub, f.dataSize))
  }

  /** Any struct layout with the descriptor of the offset macros is ordered, if its submessages are. */
  lemma LayoutOrdered(fields: seq<Field>, places: seq<Place>, size: nat)
    requires |fields| == |places| && StructLayout(fields, places) && Describes(fields, places)
    requires forall i | 0 <= i < |fields| :: places[i].data + StoredSize(fields[i]) <= size && OrderedField(fields[i])
    requires forall i | 0 <= i < |fields| && FixedCount(fields[i]) :: places[i].marker == places[i].data
    ensures Ordered(fields, size)
  {
    hide DataOffset, SizeOffset, StoredSize, SlotOf, MarkerSize, OrderedField;
    forall i | 0 <= i < |fields| ensures OrderedAt(fields, i, size) { WalkFindsMembers(fields, places, i); }
    forall i, j | 0 <= i < j < |fields| && SlotOf(fields, i) != SlotOf(fields, j)
      ensures DataOffset(fields, i) + StoredSize(fields[i]) <= SizeOffset(fields, j)
    {
      SlotsInOrder(fields, places, i, j);
      WalkFindsMembers(fields, places, i);
      WalkFindsMembers(fields, places, j);
    }
  }

  /** memcpy and memset */
  function Write(mem: seq<byte>, at: nat, bytes: seq<byte>): (r: seq<byte>)
    requires at + |bytes| <= |mem|
    ensures |r| == |mem|
    ensures forall b | 0 <= b < |mem| :: r[b] == if at <= b < at + |bytes| then bytes[b - at] else mem[b]
  {
    mem[..at] + bytes + mem[at + |bytes|..]
  }

  function Zeros(n: nat): (r: seq<byte>)
    ensures |r| == n
  {
    seq(n, _ => 0)
  }

  /** The bytes behind `ptr`, the memory image of a field's default, or zeros. */
  function DefaultBytes(f: Field, image: (Field, nat) -> byte): (r: seq<byte>)
    ensures |r| == f.dataSize
  {
    seq(f.dataSize, k requires 0 <= k < f.dataSize => if f.init.Some? then image(f, k) else 0)
  }

  /** pb_field_set_to_default with pSize at z and pData at d. */
  function InitField(mem: seq<byte>, f: Field, z: nat, d: nat, image: (Field, nat) -> byte): (r: seq<byte>)
    requires z + MarkerReach(f) <= |mem| && d + DataReach(f) <= |mem|
    ensures |r| == |mem|
    decreases f, 0
  {
    var cleared := Write(mem, z, Zeros(MarkerReach(f)));
    if ClearsCount(f) then cleared
    else if f.ltype.LSubmessage? then InitMessage(cleared, f.ltype.sub, d, image)
    else Write(cleared, d, DefaultBytes(f, image))
  }

  function InitFrom(mem: seq<byte>, fields: seq<Field>, i: nat, base: nat, image: (Field, nat) -> byte): (r: seq<byte>)
    requires i <= |fields| && base + InitEndFrom(fields, i) <= |mem|
    ensures |r| == |mem|
    decreases fields, |fields| - i
  {
    if i == |fields| then mem
    else
      InitFrom(InitField(mem, fields[i], base + MarkerAt(fields, i), base + DataOffset(fields, i), image),
               fields, i + 1, base, image)
  }

  /** pb_message_set_to_defaults on the struct at `base`. */
  function InitMessage(mem: seq<byte>, fields: seq<Field>, base: nat, image: (Field, nat) -> byte): (r: seq<byte>)
    requires base + InitEnd(fields) <= |mem|
    ensures |r| == |mem|
    decreases fields, |fields| + 1
  {
    InitFrom(mem, fields, 0, base, image)
  }

  // --------------------------------------------------------------------------
  // What is written behind a struct
  // --------------------------------------------------------------------------

  /** Nothing is written in front of position i, and behind the struct exactly the bytes up to the
      reach are cleared. */
  lemma {:induction false} InitFromWrites(mem: seq<byte>, fields: seq<Field>, i: nat, base: nat, size: nat,
                                          image: (Field, nat) -> byte, b: nat)
    requires i <= |fields| && Ordered(fields, size) && base + InitEndFrom(fields, i) <= |mem| && b < |mem|
    ensures (b < base || i == |fields| || b < base + MarkerAt(fields, i)) ==>
              InitFrom(mem, fields, i, base, image)[b] == mem[b]
    ensures b >= base + size ==>
              InitFrom(mem, fields, i, base, image)[b] == if b < base + InitEndFrom(fields, i) then 0 else mem[b]
    decreases fields, |fields| - i, 0
  {
    hide Ordered, DataOffset, SizeOffset, SlotOf, InitField, OrderedField, InitFrom, InitEndFrom, MarkerAt, StoredSize,
         MarkerReach, DataReach, MarkerSize;
    InitStep(mem, fields, i, base, image);
    if i == |fields| {
    } else {
      var f, z, d := fields[i], base + MarkerAt(fields, i), base + DataOffset(fields, i);
      PositionOrdered(fields, i, size);
      MarkersAscend(fields, i, size);
      InitFieldWrites(mem, f, z, d, base + size, image, b);
      InitFromWrites(InitField(mem, f, z, d, image), fields, i + 1, base, size, image, b);
    }
  }

  lemma InitStep(mem: seq<byte>, fields: seq<Field>, i: nat, base: nat, image: (Field, nat) -> byte)
    requires i <= |fields| && base + InitEndFrom(fields, i) <= |mem|
    ensures i == |fields| ==> InitFrom(mem, fields, i, base, image) == mem && InitEndFrom(fields, i) == 0
    ensures i < |fields| ==>
              var f, z, d := fields[i], MarkerAt(fields, i), DataOffset(fields, i);
              && InitEndFrom(fields, i) == Max(Max(z + MarkerReach(f), d + DataReach(f)), InitEndFrom(fields, i + 1))
              && InitFrom(mem, fields, i, base, image) ==
                 InitFrom(InitField(mem, f, base + z, base + d, image), fields, i + 1, base, image)
  {
    hide InitField, MarkerAt, DataOffset, MarkerReach, DataReach;
  }

  lemma PositionOrdered(fields: seq<Field>, i: nat, size: nat)
    requires i < |fields| && Ordered(fields, size)
    ensures OrderedAt(fields, i, size) && OrderedField(fields[i]) && MarkerAt(fields, i) == SizeOffset(fields, i)
  {
    hide DataOffset, SizeOffset, SlotOf, StoredSize, MarkerSize, OrderedField;
    assert OrderedAt(fields, i, size);
  }

  lemma MarkersAscend(fields: seq<Field>, i: nat, size: nat)
    requires i < |fields| && Ordered(fields, size)
    ensures i + 1 < |fields| ==> MarkerAt(fields, i) <= MarkerAt(fields, i + 1)
  {
    hide DataOffset, SizeOffset, SlotOf, StoredSize, MarkerSize, MarkerAt, Ordered, OrderedField;
    PositionOrdered(fields, i, size);
    if i + 1 < |fields| {
      PositionOrdered(fields, i + 1, size);
      if SlotOf(fields, i) == SlotOf(fields, i + 1) {
        SharedSlotSharedOffset(fields, i, i + 1);
      } else {
        SlotBehind(fields, i, i + 1, size);
      }
    }
  }

  /** One field: nothing in front of its marker; behind the end of the struct only zeros. */
  lemma {:induction false} InitFieldWrites(mem: seq<byte>, f: Field, z: nat, d: nat, end: nat,
                                           image: (Field, nat) -> byte, b: nat)
    requires z + MarkerReach(f) <= |mem| && d + DataReach(f) <= |mem| && b < |mem|
    requires OrderedField(f) && z + MarkerSize(f) <= d && d + StoredSize(f) <= end
    requires FixedCount(f) ==> z == d
    ensures b < z ==> InitField(mem, f, z, d, image)[b] == mem[b]
    ensures b >= end ==>
              InitField(mem, f, z, d, image)[b] ==
              if b < z + MarkerReach(f) || b < d + DataReach(f) then 0 else mem[b]
    decreases f, 1
  {
    if !ClearsCount(f) && f.ltype.LSubmessage? {
      var cleared := Write(mem, z, Zeros(MarkerReach(f)));
      InitFromWrites(cleared, f.ltype.sub, 0, d, f.dataSize, image, b);
    }
    hide Ordered, InitFrom;
  }

  /** Initialising a struct leaves the memory in front of it alone; behind it, it clears exactly the
      bytes up to its reach. */
  lemma InitWrites(mem: seq<byte>, fields: seq<Field>, base: nat, size: nat, image: (Field, nat) -> byte, b: nat)
    requires Ordered(fields, size) && base + InitEnd(fields) <= |mem| && b < |mem|
    ensures b < base ==> InitMessage(mem, fields, base, image)[b] == mem[b]
    ensures b >= base + size ==>
              InitMessage(mem, fields, base, image)[b] == if b < base + InitEnd(fields) then 0 else mem[b]
  {
    InitFromWrites(mem, fields, 0, base, size, image, b);
  }

  /** Initialising leaves all memory outside the struct alone, whatever it holds, if and only if the
      reach stays within the struct. */
  lemma InitStaysInside(fields: seq<Field>, size: nat, image: (Field, nat) -> byte)
    requires Ordered(fields, size)
    ensures InitEnd(fields) <= size <==>
            (forall mem: seq<byte>, base: nat, b: nat | base + InitEnd(fields) <= |mem| && b < |mem| &&
                                                        (b < base || b >= base + size) ::
               InitMessage(mem, fields, base, image)[b] == mem[b])
  {
    hide Ordered, InitMessage, InitEnd;
    if InitEnd(fields) <= size {
      forall mem: seq<byte>, base: nat, b: nat | base + InitEnd(fields) <= |mem| && b < |mem| &&
                                                 (b < base || b >= base + size)
        ensures InitMessage(mem, fields, base, image)[b] == mem[b]
      {
        InitWrites(mem, fields, base, size, image, b);
      }
    } else {
      var mem := seq(InitEnd(fields), _ => 1);
      InitWrites(mem, fields, 0, size, image, size);
      assert InitMessage(mem, fields, 0, image)[size] == 0 != mem[size];
    }
  }

  // --------------------------------------------------------------------------
  // What is written inside
  // --------------------------------------------------------------------------

  /** The position's marker and data hold their defaults: flag, count and tag zero, data as declared.
      The contents of arrays and oneofs are not initialised. */
  predicate HoldsDefault(mem: seq<byte>, f: Field, z: nat, d: nat, image: (Field, nat) -> byte)
    decreases f, 1
  {
    && (f.sizeOffset != 0 && f.htype.Optional? ==> ZeroBytes(mem, z, 1))
    && (f.sizeOffset != 0 && (f.htype.Repeated? || f.htype.OneOf?) ==> ZeroBytes(mem, z, 4))
    && (f.htype.Repeated? || f.htype.OneOf? || HoldsData(mem, f, d, image))
  }

  predicate ZeroBytes(mem: seq<byte>, at: nat, n: nat)
  {
    at + n <= |mem| && forall b | at <= b < at + n :: mem[b] == 0
  }

  predicate HoldsData(mem: seq<byte>, f: Field, d: nat, image: (Field, nat) -> byte)
    decreases f, 0
  {
    if f.ltype.LSubmessage? then HoldsDefaults(mem, f.ltype.sub, d, image)
    else d + f.dataSize <= |mem| && forall b | d <= b < d + f.dataSize ::
      mem[b] == if f.init.Some? then image(f, b - d) else 0
  }

  predicate HoldsAt(mem: seq<byte>, fields: seq<Field>, i: nat, base: nat, image: (Field, nat) -> byte)
    requires i < |fields|
    decreases fields, 0
  {
    HoldsDefault(mem, fields[i], base + MarkerAt(fields, i), base + DataOffset(fields, i), image)
  }

  predicate HoldsDefaults(mem: seq<byte>, fields: seq<Field>, base: nat, image: (Field, nat) -> byte)
    decreases fields, 1
  {
    forall i | 0 <= i < |fields| :: HoldsAt(mem, fields, i, base, image)
  }

  /** Two memories agree on [lo, hi). */
  predicate Agree(m: seq<byte>, n: seq<byte>, lo: nat, hi: nat)
  {
    |m| == |n| && forall b | lo <= b < hi && b < |m| :: m[b] == n[b]
  }

  lemma {:induction false} HoldsFramed(m: seq<byte>, n: seq<byte>, f: Field, z: nat, d: nat,
                                       image: (Field, nat) -> byte)
    requires HoldsDefault(m, f, z, d, image) && OrderedField(f) && Agree(m, n, z, d + StoredSize(f))
    requires z + MarkerSize(f) <= d
    ensures HoldsDefault(n, f, z, d, image)
    decreases f, 1
  {
    hide HoldsData, OrderedField;
    if !ClearsCount(f) { DataFramed(m, n, f, d, image); }
  }

  lemma {:induction false} DataFramed(m: seq<byte>, n: seq<byte>, f: Field, d: nat, image: (Field, nat) -> byte)
    requires HoldsData(m, f, d, image) && OrderedField(f) && Agree(m, n, d, d + f.dataSize)
    ensures HoldsData(n, f, d, image)
    decreases f, 0
  {
    hide Ordered, HoldsAt, DefaultBytes;
    if f.ltype.LSubmessage? {
      var sub := f.ltype.sub;
      assert HoldsDefaults(m, sub, d, image);
      forall i | 0 <= i < |sub| ensures HoldsAt(n, sub, i, d, image) {
        PositionOrdered(sub, i, f.dataSize);
        HoldsAtFramed(m, n, sub, i, d, f.dataSize, image);
      }
      assert HoldsDefaults(n, sub, d, image);
    }
  }

  lemma {:induction false} HoldsAtFramed(m: seq<byte>, n: seq<byte>, fields: seq<Field>, i: nat, base: nat, size: nat,
                                         image: (Field, nat) -> byte)
    requires i < |fields| && HoldsAt(m, fields, i, base, image) && Ordered(fields, size)
    requires Agree(m, n, base + MarkerAt(fields, i), base + DataOffset(fields, i) + StoredSize(fields[i]))
    ensures HoldsAt(n, fields, i, base, image)
    decreases fields
  {
    hide Ordered, HoldsDefault, DataOffset, SizeOffset, OrderedField, StoredSize, MarkerSize, MarkerAt;
    PositionOrdered(fields, i, size);
    HoldsFramed(m, n, fields[i], base + MarkerAt(fields, i), base + DataOffset(fields, i), image);
  }

  /** Right after its own initialisation a position holds its default. */
  lemma {:induction false} InitFieldHolds(mem: seq<byte>, f: Field, z: nat, d: nat, image: (Field, nat) -> byte)
    requires z + MarkerReach(f) <= |mem| && d + DataReach(f) <= |mem|
    requires OrderedField(f) && z + MarkerSize(f) <= d
    ensures HoldsDefault(InitField(mem, f, z, d, image), f, z, d, image)
    decreases f, 1
  {
    hide Ordered, HoldsDefaults, InitFrom;
    if !ClearsCount(f) && f.ltype.LSubmessage? {
      var cleared := Write(mem, z, Zeros(MarkerReach(f)));
      InitHolds(cleared, f.ltype.sub, d, f.dataSize, image);
      forall b | z <= b < z + MarkerReach(f) && f.sizeOffset != 0
        ensures InitMessage(cleared, f.ltype.sub, d, image)[b] == 0
      {
        InitWrites(cleared, f.ltype.sub, d, f.dataSize, image, b);
      }
    }
  }

  /** A position keeps its default while the ones behind it are initialised, overruns included:
      they write from their own markers on, which lie behind it, or clear a shared tag again. */
  lemma {:induction false} LaterKeeps(mem: seq<byte>, fields: seq<Field>, i: nat, base: nat, size: nat,
                                      image: (Field, nat) -> byte, j: nat)
    requires j < i <= |fields| && Ordered(fields, size) && base + InitEndFrom(fields, i) <= |mem|
    requires HoldsAt(mem, fields, j, base, image)
    ensures HoldsAt(InitFrom(mem, fields, i, base, image), fields, j, base, image)
    decreases |fields| - i
  {
    hide Ordered, HoldsAt, DataOffset, SizeOffset, SlotOf, InitField, InitFrom, InitEndFrom, OrderedField, StoredSize,
         MarkerSize, MarkerAt;
    InitStep(mem, fields, i, base, image);
    if i == |fields| {
    } else {
      var next := InitField(mem, fields[i], base + MarkerAt(fields, i), base + DataOffset(fields, i), image);
      OneKeeps(mem, fields, i, base, size, image, j);
      LaterKeeps(next, fields, i + 1, base, size, image, j);
    }
  }

  lemma OneKeeps(mem: seq<byte>, fields: seq<Field>, i: nat, base: nat, size: nat, image: (Field, nat) -> byte, j: nat)
    requires j < i < |fields| && Ordered(fields, size) && HoldsAt(mem, fields, j, base, image)
    requires base + MarkerAt(fields, i) + MarkerReach(fields[i]) <= |mem|
    requires base + DataOffset(fields, i) + DataReach(fields[i]) <= |mem|
    ensures HoldsAt(InitField(mem, fields[i], base + MarkerAt(fields, i), base + DataOffset(fields, i), image),
                    fields, j, base, image)
  {
    hide HoldsAt, InitField, SlotOf, DataOffset, SizeOffset, Ordered, MarkerAt, StoredSize, MarkerSize, OrderedField,
         DataReach, MarkerReach;
    if SlotOf(fields, j) != SlotOf(fields, i) {
      OtherSlotKeeps(mem, fields, i, base, size, image, j);
    } else {
      PositionOrdered(fields, i, size);
      PositionOrdered(fields, j, size);
      SharedSlotIsOneOf(fields, j, i);
      SharedSlotSharedOffset(fields, j, i);
      TagKeeps(mem, fields, i, base, image, j);
    }
  }

  lemma TagKeeps(mem: seq<byte>, fields: seq<Field>, i: nat, base: nat, image: (Field, nat) -> byte, j: nat)
    requires j < i < |fields| && MarkerAt(fields, i) == MarkerAt(fields, j) && HoldsAt(mem, fields, j, base, image)
    requires fields[i].htype.OneOf? && fields[j].htype.OneOf?
    requires base + MarkerAt(fields, i) + MarkerReach(fields[i]) <= |mem|
    requires base + DataOffset(fields, i) + DataReach(fields[i]) <= |mem|
    ensures HoldsAt(InitField(mem, fields[i], base + MarkerAt(fields, i), base + DataOffset(fields, i), image),
                    fields, j, base, image)
  {
    hide DataOffset, SizeOffset, MarkerAt;
  }

  lemma OtherSlotKeeps(mem: seq<byte>, fields: seq<Field>, i: nat, base: nat, size: nat, image: (Field, nat) -> byte,
                       j: nat)
    requires j < i < |fields| && Ordered(fields, size) && HoldsAt(mem, fields, j, base, image)
    requires SlotOf(fields, j) != SlotOf(fields, i)
    requires base + MarkerAt(fields, i) + MarkerReach(fields[i]) <= |mem|
    requires base + DataOffset(fields, i) + DataReach(fields[i]) <= |mem|
    ensures HoldsAt(InitField(mem, fields[i], base + MarkerAt(fields, i), base + DataOffset(fields, i), image),
                    fields, j, base, image)
  {
    hide HoldsAt, InitField, SlotOf, DataOffset, SizeOffset, Ordered, MarkerAt, StoredSize, MarkerSize, OrderedField,
         DataReach, MarkerReach;
    PositionOrdered(fields, i, size);
    SlotBehind(fields, j, i, size);
    var f, z, d := fields[i], base + MarkerAt(fields, i), base + DataOffset(fields, i);
    var next := InitField(mem, f, z, d, image);
    forall b | base + MarkerAt(fields, j) <= b < base + DataOffset(fields, j) + StoredSize(fields[j]) && b < |mem|
      ensures next[b] == mem[b]
    {
      InitFieldWrites(mem, f, z, d, base + size, image, b);
    }
    HoldsAtFramed(mem, next, fields, j, base, size, image);
  }

  lemma SlotBehind(fields: seq<Field>, j: nat, i: nat, size: nat)
    requires j < i < |fields| && Ordered(fields, size) && SlotOf(fields, j) != SlotOf(fields, i)
    ensures DataOffset(fields, j) + StoredSize(fields[j]) <= SizeOffset(fields, i)
  {
    hide DataOffset, SizeOffset, SlotOf, StoredSize, MarkerSize, OrderedField;
  }

  lemma {:induction false} InitFromHolds(mem: seq<byte>, fields: seq<Field>, i: nat, base: nat, size: nat,
                                         image: (Field, nat) -> byte, j: nat)
    requires i <= j < |fields| && Ordered(fields, size) && base + InitEndFrom(fields, i) <= |mem|
    ensures HoldsAt(InitFrom(mem, fields, i, base, image), fields, j, base, image)
    decreases fields, |fields| - i
  {
    hide Ordered, HoldsAt, DataOffset, SizeOffset, SlotOf, InitField, InitFrom, InitEndFrom, OrderedField, StoredSize,
         MarkerSize, MarkerAt;
    InitStep(mem, fields, i, base, image);
    var next := InitField(mem, fields[i], base + MarkerAt(fields, i), base + DataOffset(fields, i), image);
    if i == j {
      OwnHolds(mem, fields, i, base, size, image);
      LaterKeeps(next, fields, i + 1, base, size, image, j);
    } else {
      InitFromHolds(next, fields, i + 1, base, size, image, j);
    }
  }

  lemma {:induction false} OwnHolds(mem: seq<byte>, fields: seq<Field>, i: nat, base: nat, size: nat,
                                    image: (Field, nat) -> byte)
    requires i < |fields| && Ordered(fields, size)
    requires base + MarkerAt(fields, i) + MarkerReach(fields[i]) <= |mem|
    requires base + DataOffset(fields, i) + DataReach(fields[i]) <= |mem|
    ensures HoldsAt(InitField(mem, fields[i], base + MarkerAt(fields, i), base + DataOffset(fields, i), image),
                    fields, i, base, image)
    decreases fields, 0
  {
    hide Ordered, DataOffset, SizeOffset, InitField, OrderedField, MarkerSize, HoldsDefault, MarkerAt;
    PositionOrdered(fields, i, size);
    InitFieldHolds(mem, fields[i], base + MarkerAt(fields, i), base + DataOffset(fields, i), image);
  }

  /** After pb_message_set_to_defaults every position holds its default, also behind a fixed-count
      array whose clearing overran it: positions are initialised in the order of their memory. */
  lemma {:induction false} InitHolds(mem: seq<byte>, fields: seq<Field>, base: nat, size: nat,
                                     image: (Field, nat) -> byte)
    requires Ordered(fields, size) && base + InitEnd(fields) <= |mem|
    ensures HoldsDefaults(InitMessage(mem, fields, base, image), fields, base, image)
    decreases fields, |fields| + 1
  {
    hide Ordered, HoldsAt, InitFrom, InitEndFrom;
    forall j | 0 <= j < |fields| ensures HoldsAt(InitMessage(mem, fields, base, image), fields, j, base, image) {
      InitFromHolds(mem, fields, 0, base, size, image, j);
    }
  }

  // --------------------------------------------------------------------------
  // Which structs stay inside
  // --------------------------------------------------------------------------

  /** The bytes of position i that initialisation writes. */
  predicate InitByte(fields: seq<Field>, i: nat, b: nat)
    requires i < |fields|
  {
    || MarkerAt(fields, i) <= b < MarkerAt(fields, i) + MarkerReach(fields[i])
    || DataOffset(fields, i) <= b < DataOffset(fields, i) + DataReach(fields[i])
  }

  /** No fixed-count array shorter than a count, and no submessage initialised past its end. */
  predicate ClearsInside(f: Field)
  {
    && !(FixedCount(f) && StoredSize(f) < COUNT_SIZE)
    && (!ClearsCount(f) && f.ltype.LSubmessage? ==> InitEnd(f.ltype.sub) <= f.dataSize)
  }

  /** A position's initialisation writes only bytes of the position's own if and only if it is no
      fixed-count array of less than four bytes, and no submessage that is itself overrun. */
  lemma InitOwnBytes(fields: seq<Field>, i: nat, size: nat)
    requires i < |fields| && Ordered(fields, size)
    ensures ClearsInside(fields[i]) <==> forall b: nat | InitByte(fields, i, b) :: FieldByte(fields, i, b)
  {
    PositionOrdered(fields, i, size);
    hide Ordered, DataOffset, SizeOffset, InitEnd, MarkerAt;
    var f, d := fields[i], DataOffset(fields, i);
    if FixedCount(f) && StoredSize(f) < COUNT_SIZE {
      assert InitByte(fields, i, d + StoredSize(f)) && !FieldByte(fields, i, d + StoredSize(f));
    } else if !ClearsInside(f) {
      assert InitByte(fields, i, d + f.dataSize) && !FieldByte(fields, i, d + f.dataSize);
    }
  }

  /** Positions of different slots, initialised or accessed, have no byte in common when their
      initialisation stays within them. */
  lemma TouchedDisjoint(fields: seq<Field>, places: seq<Place>, size: nat, i: nat, j: nat, b: nat)
    requires i < j < |fields| == |places| && StructLayout(fields, places) && Describes(fields, places)
    requires Ordered(fields, size) && SlotOf(fields, i) != SlotOf(fields, j)
    requires ClearsInside(fields[i]) && ClearsInside(fields[j])
    ensures !(InitByte(fields, i, b) || FieldByte(fields, i, b)) || !(InitByte(fields, j, b) || FieldByte(fields, j, b))
  {
    hide InitByte, FieldByte, StructLayout, Describes, Ordered, ClearsInside, SlotOf;
    InitOwnBytes(fields, i, size);
    InitOwnBytes(fields, j, size);
    SlotsDisjoint(fields, places, i, j, b);
  }

  /** The positions from i on stay inside a struct of `size` bytes. */
  predicate PositionInside(fields: seq<Field>, i: nat, size: nat)
    requires i < |fields|
  {
    && (FixedCount(fields[i]) ==> DataOffset(fields, i) + COUNT_SIZE <= size)
    && (!ClearsCount(fields[i]) && fields[i].ltype.LSubmessage? ==>
          DataOffset(fields, i) + InitEnd(fields[i].ltype.sub) <= size)
  }

  lemma {:induction false} EndFromInside(fields: seq<Field>, i: nat, size: nat)
    requires i <= |fields| && Ordered(fields, size)
    ensures InitEndFrom(fields, i) <= size <==> forall j | i <= j < |fields| :: PositionInside(fields, j, size)
    decreases |fields| - i
  {
    hide Ordered, PositionInside, MarkerAt, DataOffset, MarkerReach, DataReach, InitEndFrom;
    EndStep(fields, i);
    if i == |fields| {
    } else {
      EndFromInside(fields, i + 1, size);
      OneInside(fields, i, size);
    }
  }

  lemma EndStep(fields: seq<Field>, i: nat)
    requires i <= |fields|
    ensures InitEndFrom(fields, i) ==
            if i == |fields| then 0
            else Max(Max(MarkerAt(fields, i) + MarkerReach(fields[i]), DataOffset(fields, i) + DataReach(fields[i])),
                     InitEndFrom(fields, i + 1))
  {
    hide MarkerAt, DataOffset, MarkerReach, DataReach;
  }

  lemma OneInside(fields: seq<Field>, i: nat, size: nat)
    requires i < |fields| && Ordered(fields, size)
    ensures PositionInside(fields, i, size) <==>
            && MarkerAt(fields, i) + MarkerReach(fields[i]) <= size
            && DataOffset(fields, i) + DataReach(fields[i]) <= size
  {
    PositionOrdered(fields, i, size);
    hide Ordered, DataOffset, SizeOffset, InitEnd, MarkerAt;
  }

  /** Initialisation stays within the struct if and only if every fixed-count array has four bytes
      left to the end of the struct, and every submessage is initialised within it. */
  lemma InsideByPositions(fields: seq<Field>, size: nat)
    requires Ordered(fields, size)
    ensures InitEnd(fields) <= size <==> forall i | 0 <= i < |fields| :: PositionInside(fields, i, size)
  {
    hide Ordered, PositionInside, InitEndFrom;
    EndFromInside(fields, 0, size);
  }

  /** No fixed-count array of less than four bytes, at any depth. */
  predicate NoShortArrays(fields: seq<Field>)
    decreases fields
  {
    forall i | 0 <= i < |fields| :: NoShortArray(fields[i])
  }

  predicate NoShortArray(f: Field)
    decreases f
  {
    !(FixedCount(f) && StoredSize(f) < COUNT_SIZE) && (f.ltype.LSubmessage? ==> NoShortArrays(f.ltype.sub))
  }

  lemma {:induction false} NoShortArraysInside(fields: seq<Field>, size: nat)
    requires Ordered(fields, size) && NoShortArrays(fields)
    ensures InitEnd(fields) <= size
    decreases fields
  {
    hide InitEnd, DataOffset, SizeOffset, MarkerSize;
    forall i | 0 <= i < |fields| ensures PositionInside(fields, i, size) {
      assert NoShortArray(fields[i]);
      PositionOrdered(fields, i, size);
      FieldInside(fields[i]);
    }
    InsideByPositions(fields, size);
  }

  lemma {:induction false} FieldInside(f: Field)
    requires OrderedField(f) && NoShortArray(f)
    ensures f.ltype.LSubmessage? ==> InitEnd(f.ltype.sub) <= f.dataSize
    decreases f
  {
    hide InitEnd, Ordered, NoShortArrays;
    if f.ltype.LSubmessage? { NoShortArraysInside(f.ltype.sub, f.dataSize); }
  }

  // --------------------------------------------------------------------------
  // Items initialised while decoding
  // --------------------------------------------------------------------------

  /** Every submessage that decoding initialises, an array item or oneof member at any depth, is
      initialised within its own bytes. */
  predicate ItemsInside(fields: seq<Field>)
    decreases fields
  {
    forall i | 0 <= i < |fields| :: ItemsInsideField(fields[i])
  }

  predicate ItemsInsideField(f: Field)
    decreases f
  {
    f.ltype.LSubmessage? ==>
      ItemsInside(f.ltype.sub) && (ClearsCount(f) ==> InitEnd(f.ltype.sub) <= f.dataSize)
  }

  lemma {:induction false} NoShortArraysItems(fields: seq<Field>, size: nat)
    requires Ordered(fields, size) && NoShortArrays(fields)
    ensures ItemsInside(fields)
    decreases fields
  {
    hide InitEnd, DataOffset, SizeOffset, MarkerSize;
    forall i | 0 <= i < |fields| ensures ItemsInsideField(fields[i]) {
      assert NoShortArray(fields[i]);
      PositionOrdered(fields, i, size);
      ItemInside(fields[i]);
    }
  }

  lemma {:induction false} ItemInside(f: Field)
    requires OrderedField(f) && NoShortArray(f)
    ensures ItemsInsideField(f)
    decreases f
  {
    FieldInside(f);
    hide InitEnd, Ordered, NoShortArrays, ItemsInside;
    if f.ltype.LSubmessage? { NoShortArraysItems(f.ltype.sub, f.dataSize); }
  }

  /** Where item k of an array lies; a oneof member is item 0. */
  function ItemAt(fields: seq<Field>, i: nat, k: nat): nat
    requires i < |fields|
  {
    DataOffset(fields, i) + k * fields[i].dataSize
  }

  lemma ItemWithin(f: Field, k: nat)
    requires if f.htype.Repeated? then k < f.arraySize else k == 0
    ensures k * f.dataSize + f.dataSize <= StoredSize(f)
  {
    if f.htype.Repeated? {
      TimesNext(f.dataSize, k);
      TimesMonotone(f.dataSize, k + 1, f.arraySize);
    }
  }

  lemma TimesNext(c: nat, k: nat)
    ensures k * c + c == c * (k + 1)
  {
  }

  lemma {:induction false} TimesMonotone(c: nat, a: nat, b: nat)
    requires a <= b
    ensures c * a <= c * b
    decreases b
  {
    if a == b {
    } else {
      TimesMonotone(c, a, b - 1);
      TimesNext(c, b - 1);
    }
  }

  lemma ItemRange(fields: seq<Field>, i: nat, k: nat)
    requires i < |fields| && if fields[i].htype.Repeated? then k < fields[i].arraySize else k == 0
    ensures DataOffset(fields, i) <= ItemAt(fields, i, k)
    ensures ItemAt(fields, i, k) + fields[i].dataSize <= DataOffset(fields, i) + StoredSize(fields[i])
  {
    hide DataOffset, StoredSize;
    ItemWithin(fields[i], k);
  }

  lemma FieldByteRange(fields: seq<Field>, j: nat, size: nat, b: nat)
    requires j < |fields| && Ordered(fields, size) && FieldByte(fields, j, b)
    ensures SizeOffset(fields, j) <= b < DataOffset(fields, j) + StoredSize(fields[j]) <= size
  {
    hide Ordered, DataOffset, SizeOffset, StoredSize, MarkerSize;
    PositionOrdered(fields, j, size);
  }

  /** Initialising an item that stays within its bytes keeps every byte of the other slots. */
  lemma ItemKeepsOthers(mem: seq<byte>, fields: seq<Field>, i: nat, k: nat, j: nat, base: nat, size: nat,
                        image: (Field, nat) -> byte, b: nat)
    requires i < |fields| && j < |fields| && Ordered(fields, size) && SlotOf(fields, i) != SlotOf(fields, j)
    requires fields[i].ltype.LSubmessage? && ClearsCount(fields[i]) && ItemsInsideField(fields[i])
    requires if fields[i].htype.Repeated? then k < fields[i].arraySize else k == 0
    requires base + size <= |mem| && FieldByte(fields, j, b)
    ensures base + ItemAt(fields, i, k) + InitEnd(fields[i].ltype.sub) <= |mem| && base + b < |mem|
    ensures InitMessage(mem, fields[i].ltype.sub, base + ItemAt(fields, i, k), image)[base + b] == mem[base + b]
  {
    hide Ordered, DataOffset, SizeOffset, SlotOf, StoredSize, InitEnd, InitMessage, MarkerSize, ItemsInside, FieldByte,
         ItemAt;
    PositionOrdered(fields, i, size);
    FieldByteRange(fields, j, size, b);
    ItemRange(fields, i, k);
    if i < j { SlotBehind(fields, i, j, size); } else { SlotBehind(fields, j, i, size); }
    InitWrites(mem, fields[i].ltype.sub, base + ItemAt(fields, i, k), fields[i].dataSize, image, base + b);
  }

  /** A byte behind an item survives the item's initialisation in every memory if and only if it lies
      behind the reach of the initialisation. */
  lemma ItemKeepsExactly(fields: seq<Field>, i: nat, k: nat, b: nat, size: nat, image: (Field, nat) -> byte)
    requires i < |fields| && Ordered(fields, size) && fields[i].ltype.LSubmessage?
    requires ItemAt(fields, i, k) + fields[i].dataSize <= b
    ensures b >= ItemAt(fields, i, k) + InitEnd(fields[i].ltype.sub) <==>
            forall mem: seq<byte> | b < |mem| && ItemAt(fields, i, k) + InitEnd(fields[i].ltype.sub) <= |mem| ::
              InitMessage(mem, fields[i].ltype.sub, ItemAt(fields, i, k), image)[b] == mem[b]
  {
    PositionOrdered(fields, i, size);
    hide Ordered, ItemAt, InitEnd, InitMessage;
    var sub, at := fields[i].ltype.sub, ItemAt(fields, i, k);
    forall mem: seq<byte> | b < |mem| && at + InitEnd(sub) <= |mem|
      ensures InitMessage(mem, sub, at, image)[b] == if b < at + InitEnd(sub) then 0 else mem[b]
    {
      InitWrites(mem, sub, at, fields[i].dataSize, image, b);
    }
    if b < at + InitEnd(sub) {
      var mem := seq(at + InitEnd(sub), _ => 1);
      assert InitMessage(mem, sub, at, image)[b] == 0 != mem[b];
    }
  }
}
