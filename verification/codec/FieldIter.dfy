/** The wrap-around descriptor iterator of pb_common.c. */
module FieldIter {
  import opened Schema
  import opened Decoding

  /** Bytes a position takes in the struct: static arrays hold `arraySize` items. */
  function StoredSize(f: Field): nat
  {
    if f.htype.Repeated? then f.dataSize * f.arraySize else f.dataSize
  }

  /** Data offset of a position, walked from the start: oneof members share theirs. */
  function DataOffset(fields: seq<Field>, i: nat): nat
    requires i < |fields|
  {
    if i == 0 then fields[0].dataOffset
    else if SharesSlot(fields, i) then DataOffset(fields, i - 1)
    else DataOffset(fields, i - 1) + StoredSize(fields[i - 1]) + fields[i].dataOffset
  }

  /** Offset of the position's count, has_ flag or which_ tag. */
  function SizeOffset(fields: seq<Field>, i: nat): int
    requires i < |fields|
  {
    if SharesSlot(fields, i) then SizeOffset(fields, i - 1) else DataOffset(fields, i) + fields[i].sizeOffset
  }

  predicate Matching(fields: seq<Field>, i: nat, tag: nat)
    requires i < |fields|
  {
    fields[i].tag == tag && !fields[i].ltype.LExtension?
  }

  class Iter {
    const start: seq<Field>
    var pos: nat
    var requiredFieldIndex: nat
    var pData: nat
    var pSize: int

    /** Everything the iterator holds is determined by its position. In an empty descriptor it
        rests on the terminator. */
    ghost predicate Valid()
      reads this
    {
      if start == [] then pos == requiredFieldIndex == pData == pSize == 0
      else
        && pos < |start|
        && requiredFieldIndex == RequiredBefore(start, pos)
        && pData == DataOffset(start, pos)
        && pSize == SizeOffset(start, pos)
    }

    /** pb_field_iter_begin */
    constructor (fields: seq<Field>)
      ensures Valid() && start == fields && pos == 0
    {
      start := fields;
      pos, requiredFieldIndex := 0, 0;
      pData := if fields == [] then 0 else fields[0].dataOffset;
      pSize := if fields == [] then 0 else fields[0].dataOffset + fields[0].sizeOffset;
    }

    method Rewind() returns (nonEmpty: bool)
      modifies this
      ensures Valid() && pos == 0
      ensures nonEmpty <==> start != []
    {
      pos, requiredFieldIndex := 0, 0;
      pData := if start == [] then 0 else start[0].dataOffset;
      pSize := if start == [] then 0 else start[0].dataOffset + start[0].sizeOffset;
      nonEmpty := start != [];
    }

    /** pb_field_iter_next */
    method Next() returns (more: bool)
      requires Valid()
      modifies this
      ensures Valid()
      ensures more <==> old(pos) + 1 < |start|
      ensures pos == if more then old(pos) + 1 else 0
    {
      if start == [] { return false; }
      var prev := start[pos];
      pos := pos + 1;
      if pos == |start| {
        var _ := Rewind();
        return false;
      }
      var prevSize := prev.dataSize;
      if prev.htype.OneOf? && start[pos].htype.OneOf? && start[pos].dataOffset == PB_SIZE_MAX {
        return true;
      } else if prev.htype.Repeated? {
        prevSize := prevSize * prev.arraySize;
      }
      if prev.htype.Required? {
        requiredFieldIndex := requiredFieldIndex + 1;
      }
      pData := pData + prevSize + start[pos].dataOffset;
      pSize := pData + start[pos].sizeOffset;
      return true;
    }

    /** pb_field_iter_find: from any position, finds a field with the tag if there is one, within
        one wrap; otherwise it is back where it started. The terminator of an empty descriptor
        answers to tag 0. */
    method Find(tag: nat) returns (found: bool)
      requires Valid()
      modifies this
      ensures Valid()
      ensures found <==> (if start == [] then tag == 0 else exists i | 0 <= i < |start| :: Matching(start, i, tag))
      ensures found && start != [] ==> Matching(start, pos, tag)
      ensures !found ==> pos == old(pos)
    {
      if start == [] {
        if tag == 0 { return true; }
        var _ := Next();
        return false;
      }
      var first, wrapped := pos, false;
      while true
        invariant Valid()
        invariant if wrapped then pos < first else pos >= first
        invariant forall i | 0 <= i < |start| && (if wrapped then i < pos || i >= first else first <= i < pos) ::
                    !Matching(start, i, tag)
        decreases if wrapped then first - pos else first + |start| - pos
      {
        if start[pos].tag == tag && !start[pos].ltype.LExtension? {
          assert Matching(start, pos, tag);
          return true;
        }
        var more := Next();
        if !more { wrapped := true; }
        if pos == first { return false; }
      }
    }
  }

  // --------------------------------------------------------------------------
  // Slots and byte offsets
  // --------------------------------------------------------------------------

  /** Positions that share a slot have the same data offset. */
  lemma {:induction false} SharedSlotSharedOffset(fields: seq<Field>, i: nat, j: nat)
    requires i <= j < |fields| && SlotOf(fields, i) == SlotOf(fields, j)
    ensures DataOffset(fields, i) == DataOffset(fields, j) && SizeOffset(fields, i) == SizeOffset(fields, j)
    decreases j
  {
    if i >= j {
    } else {
      UsedMonotone(fields, i + 1, j);
      SharedSlotSharedOffset(fields, i, j - 1);
    }
  }

  // --------------------------------------------------------------------------
  // The struct behind a descriptor
  // --------------------------------------------------------------------------

  /** Where the compiler put a member's data, and its has_ flag, count or which_ tag; a member without
      one has both at the same place. And whether the schema declares it in the oneof of the member
      before it. */
  datatype Place = Place(data: nat, marker: nat, sameUnion: bool)

  /** sizeof(bool), sizeof(pb_size_t) */
  function MarkerSize(f: Field): nat
  {
    if f.sizeOffset == 0 then 0 else if f.htype.Optional? then 1 else 4
  }

  /** sizeof the member: a static array has `arraySize` items. */
  function Sizeof(f: Field): nat
  {
    match f.htype case Repeated => f.arraySize * f.dataSize case _ => f.dataSize
  }

  /** A struct as generated, smaller than 2^32 - 1 bytes: each marker in front of its data, the
      members of a union in one place, every other member behind all members before it. */
  predicate StructLayout(fields: seq<Field>, places: seq<Place>)
    requires |places| == |fields|
  {
    && (forall i | 0 <= i < |fields| ::
          places[i].marker + MarkerSize(fields[i]) <= places[i].data && places[i].data < 0xFFFF_FFFF)
    && (forall i | 0 <= i < |fields| && places[i].sameUnion ::
          && i > 0 && fields[i - 1].htype.OneOf? && fields[i].htype.OneOf?
          && places[i].data == places[i - 1].data && places[i].marker == places[i - 1].marker)
    && (forall i, j | 0 <= j < i < |fields| && !places[i].sameUnion ::
          places[j].data + Sizeof(fields[j]) <= places[i].marker)
  }

  /** The descriptor that the PB_DATAOFFSET and pb_delta macros build for a struct. */
  predicate Describes(fields: seq<Field>, places: seq<Place>)
    requires |places| == |fields|
  {
    forall i | 0 <= i < |fields| :: DescribedAt(fields, places, i)
  }

  predicate DescribedAt(fields: seq<Field>, places: seq<Place>, i: nat)
    requires i < |fields| == |places|
  {
    && fields[i].dataOffset ==
       (if places[i].sameUnion then 0xFFFF_FFFF
        else if i == 0 then places[0].data
        else places[i].data - places[i - 1].data - Sizeof(fields[i - 1]))
    && fields[i].sizeOffset == places[i].marker - places[i].data
  }

  lemma MemberSize(f: Field)
    ensures Sizeof(f) == StoredSize(f)
  {
  }

  /** The iterator takes exactly the members of one oneof for one slot. */
  lemma SharesExactly(fields: seq<Field>, places: seq<Place>, i: nat)
    requires i < |fields| == |places| && StructLayout(fields, places) && Describes(fields, places)
    ensures SharesSlot(fields, i) <==> places[i].sameUnion
  {
    hide Sizeof, MarkerSize;
    assert DescribedAt(fields, places, i);
    if i > 0 && !places[i].sameUnion { assert places[i - 1].data <= places[i].marker; }
  }

  lemma NextOffset(fields: seq<Field>, i: nat)
    requires i < |fields|
    ensures i == 0 ==> DataOffset(fields, i) == fields[0].dataOffset && !SharesSlot(fields, i)
    ensures SharesSlot(fields, i) ==>
              DataOffset(fields, i) == DataOffset(fields, i - 1) && SizeOffset(fields, i) == SizeOffset(fields, i - 1)
    ensures !SharesSlot(fields, i) ==> SizeOffset(fields, i) == DataOffset(fields, i) + fields[i].sizeOffset
    ensures i > 0 && !SharesSlot(fields, i) ==>
              DataOffset(fields, i) == DataOffset(fields, i - 1) + StoredSize(fields[i - 1]) + fields[i].dataOffset
  {
    hide StoredSize;
  }

  /** The iterator's walk over the relative offsets finds every member, and its marker, where the
      compiler put it. */
  lemma {:induction false} WalkFindsMembers(fields: seq<Field>, places: seq<Place>, i: nat)
    requires i < |fields| == |places| && StructLayout(fields, places) && Describes(fields, places)
    ensures DataOffset(fields, i) == places[i].data && SizeOffset(fields, i) == places[i].marker
  {
    SharesExactly(fields, places, i);
    hide DataOffset, SizeOffset, StoredSize, Sizeof, SharesSlot, SlotOf, MarkerSize;
    NextOffset(fields, i);
    assert DescribedAt(fields, places, i);
    if i == 0 {
    } else {
      MemberSize(fields[i - 1]);
      WalkFindsMembers(fields, places, i - 1);
    }
  }

  lemma {:induction false} SlotsInOrder(fields: seq<Field>, places: seq<Place>, i: nat, j: nat)
    requires i < j < |fields| == |places| && StructLayout(fields, places) && Describes(fields, places)
    requires SlotOf(fields, i) != SlotOf(fields, j)
    ensures places[i].data + StoredSize(fields[i]) <= places[j].marker
    decreases j
  {
    SharesExactly(fields, places, j);
    SameSlot(fields, j);
    MemberSize(fields[i]);
    hide SlotOf, SharesSlot, StoredSize, Sizeof, MarkerSize, DescribedAt;
    if places[j].sameUnion {
      assert i < j - 1;
      SlotsInOrder(fields, places, i, j - 1);
    }
  }

  lemma SameSlot(fields: seq<Field>, j: nat)
    requires 0 < j < |fields|
    ensures SlotOf(fields, j) == SlotOf(fields, j - 1) <==> SharesSlot(fields, j)
  {
  }

  /** The bytes that the iterator's pointers give access to at position i: the data, and the has_
      flag, count or which_ tag. */
  predicate FieldByte(fields: seq<Field>, i: nat, b: int)
    requires i < |fields|
  {
    || DataOffset(fields, i) <= b < DataOffset(fields, i) + StoredSize(fields[i])
    || SizeOffset(fields, i) <= b < SizeOffset(fields, i) + MarkerSize(fields[i])
  }

  /** Positions of different slots have no byte in common, markers included: the struct is a
      sequence of independent slots. */
  lemma SlotsDisjoint(fields: seq<Field>, places: seq<Place>, i: nat, j: nat, b: int)
    requires i < j < |fields| == |places| && StructLayout(fields, places) && Describes(fields, places)
    requires SlotOf(fields, i) != SlotOf(fields, j)
    ensures !(FieldByte(fields, i, b) && FieldByte(fields, j, b))
  {
    SlotsInOrder(fields, places, i, j);
    WalkFindsMembers(fields, places, i);
    WalkFindsMembers(fields, places, j);
    hide DataOffset, SizeOffset, SlotOf, SharesSlot, StoredSize, MarkerSize;
  }
}
