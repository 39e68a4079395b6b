/** Declared defaults reach the decoded struct, and stay where no record is read, at any depth. */
module DefaultLaws {
  import opened Bits
  import opened Varint
  import opened Options
  import opened Schema
  import opened Decoding
  import opened RequiredLaws

  // --------------------------------------------------------------------------
  // Freshly initialised structs
  // --------------------------------------------------------------------------

  /** The value declared for a field that is no message, or else the zero of its type. */
  predicate Declared(f: Field, v: Value)
  {
    match f.init
    case Some(d) => v == d
    case None =>
      match f.ltype
      case LBool => v == VBool(false)
      case LBytes => v == VBytes([])
      case LString => v == VBytes([0])
      case LFixedBytes => v.VBytes? && |v.bytes| == f.dataSize && forall k | 0 <= k < f.dataSize :: v.bytes[k] == 0
      case _ => v == VInt(0)
  }

  /** Flags are cleared, arrays empty, oneofs without a member, values as declared; so in submessages. */
  predicate Initial(f: Field, s: Slot)
    decreases f, 1
  {
    match s
    case Plain(v) => (f.htype.Required? || (f.htype.Optional? && f.sizeOffset == 0)) && InitialValue(f, v)
    case Opt(has, v) => f.htype.Optional? && f.sizeOffset != 0 && !has && InitialValue(f, v)
    case Rep(items) => f.htype.Repeated? && |items| == 0
    case Union(which, _) => f.htype.OneOf? && which == 0
  }

  predicate InitialValue(f: Field, v: Value)
    decreases f, 0
  {
    if f.ltype.LSubmessage? then v.VMsg? && AllInitial(f.ltype.sub, v.slots) else Declared(f, v)
  }

  predicate AllInitial(fields: seq<Field>, msg: seq<Slot>)
    decreases fields
  {
    forall i | 0 <= i < |fields| :: SlotOf(fields, i) < |msg| && Initial(fields[i], msg[SlotOf(fields, i)])
  }

  lemma {:induction false} DefaultIsInitial(f: Field)
    ensures Initial(f, DefaultSlot(f)) && InitialValue(f, DefaultValue(f))
    decreases f, 1
  {
    hide AllInitial, Defaults;
    if f.ltype.LSubmessage? { DefaultsAreInitial(f.ltype.sub); }
  }

  /** After initialisation every field, at every depth, holds the default that the schema declares. */
  lemma {:induction false} DefaultsAreInitial(fields: seq<Field>)
    ensures AllInitial(fields, Defaults(fields))
    decreases fields, 2
  {
    hide SlotOf, Defaults, DefaultSlot, Initial, InitialValue, DefaultValue;
    forall i | 0 <= i < |fields|
      ensures SlotOf(fields, i) < |Defaults(fields)| && Initial(fields[i], Defaults(fields)[SlotOf(fields, i)])
    {
      DefaultsAt(fields, i);
      DefaultIsInitial(fields[i]);
    }
  }

  // --------------------------------------------------------------------------
  // Places that no record reaches
  // --------------------------------------------------------------------------

  predicate SingularMessage(f: Field)
  {
    f.ltype.LSubmessage? && (f.htype.Required? || f.htype.Optional?)
  }

  /** A position, or one in a singular submessage, and so on. */
  predicate Path(fields: seq<Field>, path: seq<nat>)
    decreases |path|
  {
    && path != [] && path[0] < |fields|
    && (|path| > 1 ==> SingularMessage(fields[path[0]]) && Path(fields[path[0]].ltype.sub, path[1..]))
  }

  /** The slot at the end of a path. */
  function SlotAt(fields: seq<Field>, msg: seq<Slot>, path: seq<nat>): Option<Slot>
    requires Path(fields, path)
    decreases |path|
  {
    var k := SlotOf(fields, path[0]);
    if k >= |msg| then None
    else if |path| == 1 then Some(msg[k])
    else if !(msg[k].Plain? || msg[k].Opt?) || !msg[k].v.VMsg? then None
    else SlotAt(fields[path[0]].ltype.sub, msg[k].v.slots, path[1..])
  }

  /** The struct that a record of a singular submessage is merged into. */
  function Prior(fields: seq<Field>, msg: seq<Slot>, i: nat): seq<Slot>
    requires i < |fields|
  {
    var k := SlotOf(fields, i);
    if k < |msg| && (msg[k].Plain? || msg[k].Opt?) && msg[k].v.VMsg? then msg[k].v.slots else []
  }

  /** A record of position i leaves the end of the path alone: it belongs to another slot, or to a
      submessage on the way whose body leaves the rest of the path alone. */
  predicate Spares(fields: seq<Field>, msg: seq<Slot>, path: seq<nat>, i: nat, s: seq<byte>)
    requires Path(fields, path) && i < |fields|
    decreases |s|, 0
  {
    if SlotOf(fields, i) != SlotOf(fields, path[0]) then true
    else
      && i == path[0] && |path| > 1
      && (DecPrefixed(s).Got? ==>
            Unread(fields[i].ltype.sub, Start(Prior(fields, msg, i)), path[1..], DecPrefixed(s).value))
  }

  /** No record of the input is stored at the end of the path. */
  predicate Unread(fields: seq<Field>, st: State, path: seq<nat>, s: seq<byte>)
    requires Path(fields, path)
    decreases |s|, 1
  {
    if s == [] || !DecTag(s).Tag? then true
    else
      var t := DecTag(s);
      var found := Find(fields, t.tag);
      && (found.Some? ==> Spares(fields, st.msg, path, found.value, t.rest))
      && match DecRecord(fields, st, t.tag, t.wireType, t.rest)
         case Fail => true
         case Got(next, rest) => Unread(fields, next, path, rest)
  }

  /** A record of a singular submessage is merged into the struct that is there. */
  lemma StaticMerges(f: Field, wireType: nat, slot: Slot, count: nat, s: seq<byte>)
    requires SingularMessage(f) && DecStatic(f, wireType, slot, count, s).Got?
    ensures (slot.Plain? || slot.Opt?) && slot.v.VMsg? && DecPrefixed(s).Got?
    ensures var r, next := DecodeInto(f.ltype.sub, slot.v.slots, DecPrefixed(s).value),
                DecStatic(f, wireType, slot, count, s).value.slot;
            r.Got? && (next.Plain? || next.Opt?) && next.v == VMsg(r.value)
  {
    hide DecodeInto, DecPrefixed;
    assert DecValue(f, slot.v, s).Got?;
  }

  lemma DecRecordStores(fields: seq<Field>, st: State, i: nat, wireType: nat, s: seq<byte>)
    requires i < |fields| && DecRecordAt(fields, st, i, wireType, s).Got?
    ensures var k, next := SlotOf(fields, i), DecRecordAt(fields, st, i, wireType, s).value;
            && k < |st.msg| == |next.msg| && next.msg == st.msg[k := next.msg[k]]
            && (SingularMessage(fields[i]) ==>
                  && (st.msg[k].Plain? || st.msg[k].Opt?) && st.msg[k].v.VMsg? && DecPrefixed(s).Got?
                  && var r := DecodeInto(fields[i].ltype.sub, st.msg[k].v.slots, DecPrefixed(s).value);
                     && r.Got? && (next.msg[k].Plain? || next.msg[k].Opt?) && next.msg[k].v == VMsg(r.value))
  {
    hide SlotOf, FixedComplete, RequiredBefore, DecodeInto, DecPrefixed, DecStatic;
    var k := SlotOf(fields, i);
    var entered := EnterFixed(fields, st, i).value;
    var slot, count := st.msg[k], CountOf(fields[i], st.msg[k], MarkSeen(fields, entered, i));
    var stored := DecStatic(fields[i], wireType, slot, count, s).value.slot;
    assert DecRecordAt(fields, st, i, wireType, s).value.msg == st.msg[k := stored];
    if SingularMessage(fields[i]) { StaticMerges(fields[i], wireType, slot, count, s); }
  }

  lemma {:induction false} RecordSpares(fields: seq<Field>, st: State, path: seq<nat>, i: nat, wireType: nat,
                                        s: seq<byte>)
    requires Path(fields, path) && i < |fields| && DecRecordAt(fields, st, i, wireType, s).Got?
    requires Spares(fields, st.msg, path, i, s)
    ensures SlotAt(fields, DecRecordAt(fields, st, i, wireType, s).value.msg, path) == SlotAt(fields, st.msg, path)
    decreases |s|, 0
  {
    DecRecordStores(fields, st, i, wireType, s);
    hide SlotOf, DecRecordAt, DecodeInto, DecPrefixed, Unread;
    if SlotOf(fields, i) == SlotOf(fields, path[0]) {
      var k, sub, body := SlotOf(fields, i), fields[i].ltype.sub, DecPrefixed(s).value;
      assert Prior(fields, st.msg, i) == st.msg[k].v.slots;
      IntoSpares(sub, st.msg[k].v.slots, path[1..], body);
    }
  }

  lemma {:induction false} LoopSpares(fields: seq<Field>, st: State, path: seq<nat>, s: seq<byte>)
    requires Path(fields, path) && Unread(fields, st, path, s) && DecLoop(fields, st, s).Done?
    ensures SlotAt(fields, DecLoop(fields, st, s).st.msg, path) == SlotAt(fields, st.msg, path)
    decreases |s|, 1
  {
    hide SlotAt, DecTag, DecRecordAt, SkipField, DecVarint32, Find, Spares, Path;
    if s == [] || !DecTag(s).Tag? {
    } else {
      var t := DecTag(s);
      var found := Find(fields, t.tag);
      var r := DecRecord(fields, st, t.tag, t.wireType, t.rest);
      if found.Some? && DecRecordAt(fields, st, found.value, t.wireType, t.rest).Got? {
        RecordSpares(fields, st, path, found.value, t.wireType, t.rest);
      }
      assert SlotAt(fields, r.value.msg, path) == SlotAt(fields, st.msg, path);
      hide DecRecord;
      LoopSpares(fields, r.value, path, r.rest);
    }
  }

  lemma {:induction false} IntoSpares(fields: seq<Field>, msg: seq<Slot>, path: seq<nat>, s: seq<byte>)
    requires Path(fields, path) && Unread(fields, Start(msg), path, s) && DecodeInto(fields, msg, s).Got?
    ensures SlotAt(fields, DecodeInto(fields, msg, s).value, path) == SlotAt(fields, msg, path)
    decreases |s|, 2
  {
    hide SlotAt, DecLoop, Path, Unread;
    LoopSpares(fields, Start(msg), path, s);
  }

  /** The field at the end of a path. */
  function FieldAt(fields: seq<Field>, path: seq<nat>): Field
    requires Path(fields, path)
    decreases |path|
  {
    if |path| == 1 then fields[path[0]] else FieldAt(fields[path[0]].ltype.sub, path[1..])
  }

  lemma MessageInitial(f: Field, s: Slot)
    requires SingularMessage(f) && Initial(f, s)
    ensures (s.Plain? || s.Opt?) && s.v.VMsg? && AllInitial(f.ltype.sub, s.v.slots)
  {
    hide AllInitial;
    assert InitialValue(f, s.v);
  }

  lemma {:induction false} InitialAt(fields: seq<Field>, msg: seq<Slot>, path: seq<nat>)
    requires Path(fields, path) && AllInitial(fields, msg)
    ensures SlotAt(fields, msg, path).Some? && Initial(FieldAt(fields, path), SlotAt(fields, msg, path).value)
    decreases |path|
  {
    var i := path[0];
    var slot := msg[SlotOf(fields, i)];
    assert Initial(fields[i], slot);
    if |path| == 1 {
    } else {
      assert SingularMessage(fields[i]);
      MessageInitial(fields[i], slot);
      hide Initial, AllInitial, SlotOf;
      InitialAt(fields[i].ltype.sub, slot.v.slots, path[1..]);
    }
  }

  /** A field that no record of the input is stored in, at any depth of submessages, has the default
      that the schema declares after pb_decode. */
  lemma UnreadHoldsDefault(fields: seq<Field>, path: seq<nat>, s: seq<byte>)
    requires Path(fields, path) && Unread(fields, Start(Defaults(fields)), path, s) && Decode(fields, s).Got?
    ensures var slot := SlotAt(fields, Decode(fields, s).value, path);
            slot.Some? && Initial(FieldAt(fields, path), slot.value)
  {
    hide SlotAt, DecodeInto, Path, Unread, AllInitial, Defaults, FieldAt, Initial;
    DefaultsAreInitial(fields);
    InitialAt(fields, Defaults(fields), path);
    IntoSpares(fields, Defaults(fields), path, s);
  }

  lemma {:induction false} NoTagUnread(fields: seq<Field>, st: State, i: nat, s: seq<byte>)
    requires i < |fields|
    requires forall j | 0 <= j < |fields| && SlotOf(fields, j) == SlotOf(fields, i) ::
               fields[j].tag !in TagsRead(fields, st, s)
    ensures Path(fields, [i]) && (DecLoop(fields, st, s).Done? ==> Unread(fields, st, [i], s))
    decreases |s|
  {
    hide DecTag, SlotOf, DecRecordAt, SkipField, DecVarint32, Find;
    if s == [] || !DecTag(s).Tag? {
    } else {
      var t := DecTag(s);
      var r := DecRecord(fields, st, t.tag, t.wireType, t.rest);
      if r.Got? { NoTagUnread(fields, r.value, i, r.rest); }
    }
  }

  /** In particular a field of the outermost message whose tag, or that of another member of its
      oneof, is not among the tags read. */
  lemma AbsentHoldsDefault(fields: seq<Field>, i: nat, s: seq<byte>)
    requires i < |fields| && Decode(fields, s).Got?
    requires forall j | 0 <= j < |fields| && SlotOf(fields, j) == SlotOf(fields, i) ::
               fields[j].tag !in TagsRead(fields, Start(Defaults(fields)), s)
    ensures var msg := Decode(fields, s).value;
            SlotOf(fields, i) < |msg| && Initial(fields[i], msg[SlotOf(fields, i)])
  {
    hide DecLoop, Unread, Defaults, TagsRead, Initial;
    NoTagUnread(fields, Start(Defaults(fields)), i, s);
    UnreadHoldsDefault(fields, [i], s);
  }
}
