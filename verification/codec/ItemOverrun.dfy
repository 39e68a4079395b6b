/** pb_message_set_to_defaults in place, and a schema whose array items it overruns. */
module ItemOverrun {
  import opened Bits
  import opened Options
  import opened Schema
  import opened Decoding
  import opened FieldIter
  import opened StructMemory
  import opened DecodeLaws

  /** memcpy of n bytes to `at`. */
  method Copy(mem: array<byte>, at: nat, bytes: seq<byte>)
    requires at + |bytes| <= mem.Length
    modifies mem
    ensures mem[..] == Write(old(mem[..]), at, bytes)
  {
    for k := 0 to |bytes|
      invariant forall b | 0 <= b < mem.Length ::
                  mem[b] == if at <= b < at + k then bytes[b - at] else old(mem[b])
    {
      mem[at + k] := bytes[k];
    }
  }

  /** pb_field_set_to_default, with pSize at z and pData at d. */
  method SetFieldInPlace(mem: array<byte>, f: Field, z: nat, d: nat, image: (Field, nat) -> byte)
    requires z + MarkerReach(f) <= mem.Length && d + DataReach(f) <= mem.Length && OrderedField(f)
    modifies mem
    ensures mem[..] == InitField(old(mem[..]), f, z, d, image)
    decreases f, 1
  {
    hide Ordered, InitMessage, InitEnd;
    var initData := true;
    if f.htype.Optional? && f.sizeOffset != 0 {
      Copy(mem, z, [0]);
    } else if f.htype.Repeated? || f.htype.OneOf? {
      Copy(mem, z, [0, 0, 0, 0]);
      initData := false;
    }
    assert mem[..] == Write(old(mem[..]), z, Zeros(MarkerReach(f)));
    if initData {
      if f.ltype.LSubmessage? {
        SetMessageInPlace(mem, f.ltype.sub, d, f.dataSize, image);
      } else {
        Copy(mem, d, DefaultBytes(f, image));
      }
    }
  }

  /** pb_message_set_to_defaults on the struct of `size` bytes at `base`. */
  method SetMessageInPlace(mem: array<byte>, fields: seq<Field>, base: nat, ghost size: nat,
                           image: (Field, nat) -> byte)
    requires Ordered(fields, size) && base + InitEnd(fields) <= mem.Length
    modifies mem
    ensures mem[..] == InitMessage(old(mem[..]), fields, base, image)
    decreases fields, 0
  {
    hide Ordered, DataOffset, SizeOffset, InitField, InitFrom, InitEndFrom, OrderedField, MarkerAt, RequiredBefore,
         MarkerReach, DataReach;
    ghost var before := mem[..];
    InitStep(before, fields, 0, base, image);
    var iter := new Iter(fields);
    if fields == [] { return; }
    while true
      invariant iter.Valid() && iter.start == fields && fresh(iter)
      invariant base + InitEndFrom(fields, iter.pos) <= mem.Length
      invariant InitMessage(before, fields, base, image) == InitFrom(mem[..], fields, iter.pos, base, image)
      decreases |fields| - iter.pos
    {
      ghost var now, i := mem[..], iter.pos;
      InitStep(now, fields, i, base, image);
      PositionOrdered(fields, i, size);
      SetFieldInPlace(mem, fields[iter.pos], base + iter.pSize, base + iter.pData, image);
      var more := iter.Next();
      if !more {
        InitStep(mem[..], fields, i + 1, base, image);
        return;
      }
    }
  }

  // --------------------------------------------------------------------------
  // A legal schema that is overrun
  // --------------------------------------------------------------------------

  /** Two bools without a count. */
  const FLAGS: Field := Field(1, LBool, Repeated, 0, 0, 1, 2, None)

  /** A counted array of one submessage of two flags, at bytes 4 and 5 behind its count. */
  const SUBS: Field := Field(1, LSubmessage([FLAGS]), Repeated, 4, -4, 2, 1, None)

  /** A required bool at byte 6. */
  const SWITCH: Field := Field(2, LBool, Required, 0, 0, 1, 0, None)

  const PLACES: seq<Place> := [Place(4, 0, false), Place(6, 6, false)]

  function Overrun(): seq<Field>
  {
    [SUBS, SWITCH]
  }

  lemma FlagsReach()
    ensures WellFormed([FLAGS]) && Ordered([FLAGS], 2) && InitEnd([FLAGS]) == 4
  {
    assert DataOffset([FLAGS], 0) == 0 && SizeOffset([FLAGS], 0) == 0;
    assert InitEndFrom([FLAGS], 1) == 0;
    assert InitEndFrom([FLAGS], 0) == 4;
  }

  lemma OverrunOffsets()
    ensures DataOffset(Overrun(), 0) == 4 && SizeOffset(Overrun(), 0) == 0 && SlotOf(Overrun(), 0) == 0
    ensures DataOffset(Overrun(), 1) == 6 && SizeOffset(Overrun(), 1) == 6 && SlotOf(Overrun(), 1) == 1
  {
    var fields := Overrun();
    assert !SharesSlot(fields, 0) && !SharesSlot(fields, 1);
    NextOffset(fields, 0);
    NextOffset(fields, 1);
    assert SlotsUsed(fields, 0) == 0 && SlotsUsed(fields, 1) == 1 && SlotsUsed(fields, 2) == 2;
  }

  lemma OverrunWellFormed()
    ensures WellFormed(Overrun())
  {
    FlagsReach();
    assert WellFormedField(SUBS) && WellFormedField(SWITCH);
    hide WellFormedField;
  }

  lemma OverrunLaidOut()
    ensures StructLayout(Overrun(), PLACES) && Describes(Overrun(), PLACES)
    ensures Ordered(Overrun(), 8)
  {
    hide DataOffset, SizeOffset, SlotOf, InitEnd, Ordered;
    OverrunOffsets();
    var fields, places := Overrun(), PLACES;
    assert DescribedAt(fields, places, 0) && DescribedAt(fields, places, 1);
    assert StructLayout(fields, places) && Describes(fields, places);
    FlagsReach();
    assert OrderedField(fields[0]) && OrderedField(fields[1]);
    hide StructLayout, Describes, OrderedField;
    LayoutOrdered(fields, places, 8);
  }

  /** The schema is well formed, its struct laid out as generated, its two fields independent; but
      an item is initialised past its end. */
  lemma OverrunIsLegal()
    ensures WellFormed(Overrun()) && Ordered(Overrun(), 8) && Independent(Overrun(), 0, 1)
    ensures StructLayout(Overrun(), PLACES) && Describes(Overrun(), PLACES)
    ensures FieldByte(Overrun(), 1, 6) && !ItemsInside(Overrun())
  {
    hide DataOffset, SizeOffset, SlotOf, InitEnd, WellFormed, Ordered, StructLayout, Describes;
    OverrunWellFormed();
    OverrunLaidOut();
    OverrunOffsets();
    FlagsReach();
    assert !ItemsInsideField(Overrun()[0]);
  }

  /** A record of the bool in memory: pb_dec_bool stores the value at pData, which is byte 6. */
  function ReceiveSwitch(mem: seq<byte>): (r: seq<byte>)
    requires |mem| >= 8
    ensures |r| == |mem|
  {
    Write(mem, 6, [1])
  }

  /** A record of the array in memory: the count is raised, the item initialised, and its two flags
      are stored. */
  function ReceiveItem(mem: seq<byte>, image: (Field, nat) -> byte): (r: seq<byte>)
    requires |mem| >= 8
    ensures |r| == |mem|
  {
    FlagsReach();
    Write(InitMessage(Write(mem, 0, [1, 0, 0, 0]), [FLAGS], 4, image), 4, [1, 1])
  }

  /** The two records do not commute in memory: the bool is lost when its record comes first. */
  lemma OrderMatters(mem: seq<byte>, image: (Field, nat) -> byte)
    requires |mem| >= 8
    ensures ReceiveItem(ReceiveSwitch(mem), image)[6] == 0
    ensures ReceiveSwitch(ReceiveItem(mem, image))[6] == 1
  {
    OverrunOffsets();
    FlagsReach();
    hide InitMessage, Ordered, DataOffset, SizeOffset, InitEnd;
    InitWrites(Write(ReceiveSwitch(mem), 0, [1, 0, 0, 0]), [FLAGS], 4, 2, image, 6);
  }
}
