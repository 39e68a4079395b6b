/** Decoding the encoder's output gives the message back, for every well-formed descriptor tree. */
module RoundTrip {
  import opened Bits
  import opened Varint
  import opened VarintLaws
  import opened Options
  import opened Schema
  import opened Encoding
  import opened Decoding
  import opened ScalarRoundTrip

  // --------------------------------------------------------------------------
  // Statement
  // --------------------------------------------------------------------------

  /** Two values with the same meaning: strings agree up to the NUL, submessages field by field. */
  predicate SameValue(f: Field, a: Value, b: Value)
    decreases f, 0
  {
    if f.ltype.LSubmessage? then a.VMsg? && b.VMsg? && SameMessage(f.ltype.sub, a.slots, b.slots)
    else if f.ltype.LString? then a.VBytes? && b.VBytes? && CString(a.bytes) == CString(b.bytes)
    else a == b
  }

  /** The slots agree at this position, up to values of absent fields. */
  predicate SameSlot(f: Field, a: Slot, b: Slot)
    decreases f, 1
  {
    match f.htype
    case Required => a.Plain? && b.Plain? && SameValue(f, a.v, b.v)
    case Optional =>
      if f.sizeOffset == 0 then a.Plain? && b.Plain? && SameValue(f, a.v, b.v)
      else a.Opt? && b.Opt? && a.has == b.has && (a.has ==> SameValue(f, a.v, b.v))
    case Repeated =>
      && a.Rep? && b.Rep? && |a.items| == |b.items|
      && forall k | 0 <= k < |a.items| :: SameValue(f, a.items[k], b.items[k])
    case OneOf =>
      && a.Union? && b.Union?
      && (a.which == f.tag <==> b.which == f.tag)
      && (a.which == f.tag ==> SameValue(f, a.v, b.v))
  }

  predicate SameMessage(fields: seq<Field>, a: seq<Slot>, b: seq<Slot>)
    decreases fields
  {
    forall i | 0 <= i < |fields| ::
      && SlotOf(fields, i) < |a| && SlotOf(fields, i) < |b|
      && SameSlot(fields[i], a[SlotOf(fields, i)], b[SlotOf(fields, i)])
  }

  /** Every string that the encoder writes out has a NUL inside its buffer. */
  predicate ValueTerminated(f: Field, v: Value)
    requires ValueFits(f, v)
    decreases f, 0
  {
    if f.ltype.LSubmessage? then Terminated(f.ltype.sub, v.slots) else ScalarTerminated(f, v)
  }

  predicate SlotTerminated(f: Field, s: Slot)
    requires SlotFits(f, s)
    decreases f, 1
  {
    match f.htype
    case Required => ValueTerminated(f, s.v)
    case Optional =>
      if f.sizeOffset == 0 then !IsZeroSlot(f, s) ==> ValueTerminated(f, s.v) else s.has ==> ValueTerminated(f, s.v)
    case Repeated => forall k | 0 <= k < |s.items| :: ValueTerminated(f, s.items[k])
    case OneOf => s.which == f.tag ==> ValueTerminated(f, s.v)
  }

  predicate TerminatedFrom(fields: seq<Field>, i: nat, msg: seq<Slot>)
    requires i <= |fields| && Matches(fields, msg)
    decreases fields, 0
  {
    forall j | i <= j < |fields| :: SlotTerminated(fields[j], msg[SlotOf(fields, j)])
  }

  predicate Terminated(fields: seq<Field>, msg: seq<Slot>)
    requires Matches(fields, msg)
    decreases fields, 1
  {
    TerminatedFrom(fields, 0, msg)
  }

  // --------------------------------------------------------------------------
  // One record
  // --------------------------------------------------------------------------

  lemma {:induction false} FindFromAt(fields: seq<Field>, i: nat, j: nat)
    requires DistinctTags(fields) && j <= i < |fields| && !fields[i].ltype.LExtension?
    ensures FindFrom(fields, fields[i].tag, j) == Some(i)
    decreases i - j
  {
    if j >= i {
    } else {
      FindFromAt(fields, i, j + 1);
    }
  }

  lemma TagRoundTrip(wireType: nat, tag: nat, t: seq<byte>)
    requires wireType < 8 && 1 <= tag < 0x2000_0000
    ensures DecTag(EncTag(wireType, tag) + t) == Tag(tag, wireType, t)
    ensures EncTag(wireType, tag) + t != []
  {
    hide EncVarint, DecVarint32;
    Varint32RoundTrip(8 * tag + wireType, t);
  }

  /** A record with a described tag is handled at that position. */
  lemma LoopRecord(fields: seq<Field>, st: State, i: nat, wireType: nat, body: seq<byte>)
    requires DistinctTags(fields) && i < |fields| && wireType < 8
    requires 1 <= fields[i].tag < 0x2000_0000 && !fields[i].ltype.LExtension?
    ensures DecLoop(fields, st, EncTag(wireType, fields[i].tag) + body) ==
            match DecRecordAt(fields, st, i, wireType, body)
            case Fail => Failed
            case Got(st', rest) => DecLoop(fields, st', rest)
  {
    hide DecTag, EncTag, DecRecordAt, FindFrom;
    FindFromAt(fields, i, 0);
    TagRoundTrip(wireType, fields[i].tag, body);
  }

  // --------------------------------------------------------------------------
  // Progress through the positions of a message
  // --------------------------------------------------------------------------

  /** A slot no record has touched; in a oneof, one that does not hold this member. */
  predicate Untouched(f: Field, s: Slot)
  {
    if f.htype.OneOf? then s.Union? && s.which != f.tag else s == DefaultSlot(f)
  }

  predicate SlotsReach(fields: seq<Field>, msg: seq<Slot>)
  {
    forall j | 0 <= j < |fields| :: SlotOf(fields, j) < |msg|
  }

  /** The decoder's state when positions before i have been received and the others have not. */
  predicate Progress(fields: seq<Field>, i: nat, msg: seq<Slot>, st: State)
    requires i <= |fields|
  {
    && SlotsReach(fields, st.msg) && SlotsReach(fields, msg)
    && (forall j | 0 <= j < i :: SameSlot(fields[j], st.msg[SlotOf(fields, j)], msg[SlotOf(fields, j)]))
    && (forall j | i <= j < |fields| :: Untouched(fields[j], st.msg[SlotOf(fields, j)]))
    && SeenBefore(fields, i, st)
    && FixedComplete(fields, st)
    && (st.fixedField.Some? ==> st.fixedField.value < i)
  }

  predicate SeenBefore(fields: seq<Field>, i: nat, st: State)
    requires i <= |fields|
  {
    forall k | 0 <= k < RequiredBefore(fields, i) && k < MAX_REQUIRED_FIELDS :: k in st.seen
  }

  lemma StartProgress(fields: seq<Field>, msg: seq<Slot>)
    requires WellFormed(fields) && SlotsReach(fields, msg)
    ensures Progress(fields, 0, msg, Start(Defaults(fields)))
  {
    hide SlotOf, Defaults, SameSlot, DefaultValue;
    forall j | 0 <= j < |fields|
      ensures SlotOf(fields, j) < |Defaults(fields)| && Untouched(fields[j], Defaults(fields)[SlotOf(fields, j)])
    {
      DefaultsAt(fields, j);
    }
  }

  /** What one position's records change: its own slot, the required bit, the fixed-count bookkeeping. */
  predicate Received(fields: seq<Field>, i: nat, msg: seq<Slot>, st: State, st': State)
    requires i < |fields| && SlotsReach(fields, msg) && SlotsReach(fields, st.msg)
  {
    var k := SlotOf(fields, i);
    && |st'.msg| == |st.msg|
    && st'.msg == st.msg[k := st'.msg[k]]
    && SameSlot(fields[i], st'.msg[k], msg[k])
    && (fields[i].htype.OneOf? ==> st'.msg[k].Union? && (st'.msg[k] == st.msg[k] || st'.msg[k].which == fields[i].tag))
    && st'.seen >= st.seen
    && (fields[i].htype.Required? && RequiredBefore(fields, i) < MAX_REQUIRED_FIELDS
      ==> RequiredBefore(fields, i) in st'.seen)
    && FixedComplete(fields, st')
    && (st'.fixedField == st.fixedField || st'.fixedField == Some(i))
  }

  lemma ReceivedProgress(fields: seq<Field>, i: nat, msg: seq<Slot>, st: State, st': State)
    requires DistinctTags(fields) && i < |fields|
    requires Progress(fields, i, msg, st) && Received(fields, i, msg, st, st')
    ensures Progress(fields, i + 1, msg, st')
  {
    hide SlotOf, SameValue, DefaultSlot, ValueFits;
    forall j | 0 <= j < i
      ensures SameSlot(fields[j], st'.msg[SlotOf(fields, j)], msg[SlotOf(fields, j)])
    {
      SharedSlotIsOneOf(fields, j, i);
    }
    forall j | i + 1 <= j < |fields|
      ensures Untouched(fields[j], st'.msg[SlotOf(fields, j)])
    {
      SharedSlotIsOneOf(fields, i, j);
    }
  }

  // --------------------------------------------------------------------------
  // Positions that emit nothing
  // --------------------------------------------------------------------------

  /** A proto3 field that is left out because it is zero reads back as its default. */
  lemma {:induction false} ZeroIsDefault(f: Field, v: Value)
    requires WellFormedField(f) && f.init.None? && ValueFits(f, v) && IsZeroValue(f, v)
    ensures SameValue(f, DefaultValue(f), v)
    decreases f, 0
  {
    hide SlotOf, WellFormed, Matches, AllZero, SameMessage, Defaults, CString;
    match f.ltype {
      case LSubmessage(sub) => AllZeroIsDefaults(sub, v.slots);
      case LString => EmptyCStrings(v.bytes);
      case _ =>
    }
  }

  lemma EmptyCStrings(b: seq<byte>)
    requires b != [] && b[0] == 0
    ensures CString(b) == [] == CString([0])
  {
  }

  lemma {:induction false} AllZeroIsDefaults(fields: seq<Field>, msg: seq<Slot>)
    requires WellFormed(fields) && Matches(fields, msg) && AllZero(fields, msg)
    ensures SameMessage(fields, Defaults(fields), msg)
    decreases fields
  {
    hide SlotOf, SameValue, Defaults, DefaultValue, IsZeroValue, ValueFits;
    forall i | 0 <= i < |fields|
      ensures SlotOf(fields, i) < |Defaults(fields)|
      ensures SameSlot(fields[i], Defaults(fields)[SlotOf(fields, i)], msg[SlotOf(fields, i)])
    {
      DefaultsAt(fields, i);
      var s := msg[SlotOf(fields, i)];
      assert IsZeroSlot(fields[i], s) && SlotFits(fields[i], s) && WellFormedField(fields[i]);
      if fields[i].htype.Optional? && fields[i].sizeOffset == 0 {
        ZeroIsDefault(fields[i], s.v);
      }
    }
  }

  /** A position for which the encoder emits no record. */
  predicate Silent(f: Field, s: Slot)
  {
    match f.htype
    case Required => false
    case Optional => if f.sizeOffset == 0 then IsZeroSlot(f, s) else s.Opt? && !s.has
    case Repeated => s.Rep? && s.items == []
    case OneOf => s.Union? && s.which != f.tag
  }

  lemma SilentPosition(fields: seq<Field>, i: nat, msg: seq<Slot>, st: State)
    requires WellFormed(fields) && i < |fields| && Matches(fields, msg)
    requires Progress(fields, i, msg, st) && Silent(fields[i], msg[SlotOf(fields, i)])
    ensures EncSlot(fields[i], msg[SlotOf(fields, i)]) == Some([])
    ensures SlotTerminated(fields[i], msg[SlotOf(fields, i)])
    ensures Received(fields, i, msg, st, st)
  {
    hide SlotOf, SameValue, DefaultValue, IsZeroValue, ValueFits, EncTagged, EncPacked, EncUnpacked;
    var f, s := fields[i], msg[SlotOf(fields, i)];
    assert SlotFits(f, s) && WellFormedField(f);
    if f.htype.Optional? && f.sizeOffset == 0 {
      ZeroIsDefault(f, s.v);
    }
  }

  // --------------------------------------------------------------------------
  // Packed arrays
  // --------------------------------------------------------------------------

  /** The loop over a packed array reads back exactly the items that were packed. */
  lemma {:induction false} PackedLoopInverts(f: Field, items: seq<Value>, done: seq<Value>)
    requires WellFormedField(f) && Packable(f.ltype) && forall k | 0 <= k < |items| :: ScalarFits(f, items[k])
    requires EncItems(f, items).Some? && |EncItems(f, items).value| < TWO32
    requires |done| + |items| <= f.arraySize
    ensures PackedLoop(f, done, |done|, EncItems(f, items).value) == Got((done + items, |done| + |items|), [])
    decreases |items|
  {
    hide EncScalar, DecScalar, ScalarFits, WellFormedField;
    if items == [] {
      assert done + items == done;
    } else {
      var head, tail := EncScalar(f, items[0]).value, EncItems(f, items[1..]).value;
      assert EncItems(f, items).value == head + tail;
      PackableScalar(f, items[0], tail);
      assert done + [items[0]] + items[1..] == done + items;
      PackedLoopInverts(f, items[1..], done + [items[0]]);
    }
  }

  lemma PackableScalar(f: Field, v: Value, t: seq<byte>)
    requires WellFormedField(f) && Packable(f.ltype) && ScalarFits(f, v)
    requires EncScalar(f, v).Some? && |EncScalar(f, v).value| < TWO32
    ensures DecScalar(f, EncScalar(f, v).value + t) == Got(v, t)
    ensures EncScalar(f, v).value + t != []
  {
    hide DecScalar, EncScalar, WellFormedField;
    ScalarRoundTrips(f, v, t);
  }

  lemma PackedRecord(f: Field, items: seq<Value>, t: seq<byte>)
    requires WellFormedField(f) && Packable(f.ltype) && forall k | 0 <= k < |items| :: ScalarFits(f, items[k])
    requires EncItems(f, items).Some? && |EncItems(f, items).value| < TWO32
    requires |items| <= f.arraySize
    ensures DecPackedRecord(f, [], 0, Prefixed(EncItems(f, items).value) + t) == Got(Stored(Rep(items), |items|), t)
  {
    hide EncItems, DecPrefixed, Prefixed, PackedLoop, ScalarFits, WellFormedField;
    PrefixedSplit(EncItems(f, items).value, t);
    PackedLoopInverts(f, items, []);
    assert [] + items == items;
  }

  // --------------------------------------------------------------------------
  // Values, positions, messages
  // --------------------------------------------------------------------------

  lemma {:induction false} CStringOfCString(s: seq<byte>)
    ensures CString(CString(s) + [0]) == CString(s)
  {
    if s == [] || s[0] == 0 {
    } else {
      CStringOfCString(s[1..]);
      assert (CString(s) + [0])[1..] == CString(s[1..]) + [0];
    }
  }

  lemma ScalarValueRoundTrips(f: Field, v: Value, prior: Value, t: seq<byte>)
    requires WellFormedField(f) && !f.ltype.LSubmessage? && ScalarFits(f, v)
    requires EncScalar(f, v).Some? && |EncScalar(f, v).value| < TWO32
    ensures if ScalarTerminated(f, v)
            then DecValue(f, prior, EncScalar(f, v).value + t).Got?
              && DecValue(f, prior, EncScalar(f, v).value + t).rest == t
              && SameValue(f, DecValue(f, prior, EncScalar(f, v).value + t).value, v)
            else DecValue(f, prior, EncScalar(f, v).value + t).Fail?
  {
    hide DecScalar, EncScalar, WellFormedField, CString;
    ScalarRoundTrips(f, v, t);
    if f.ltype.LString? { CStringOfCString(v.bytes); }
  }

  lemma {:induction false} ValueRoundTrips(f: Field, v: Value, prior: Value, t: seq<byte>)
    requires WellFormedField(f) && ValueFits(f, v)
    requires EncValue(f, v).Some? && |EncValue(f, v).value| < TWO32
    requires f.ltype.LSubmessage? ==> prior == VMsg(Defaults(f.ltype.sub))
    ensures if ValueTerminated(f, v)
            then DecValue(f, prior, EncValue(f, v).value + t).Got?
              && DecValue(f, prior, EncValue(f, v).value + t).rest == t
              && SameValue(f, DecValue(f, prior, EncValue(f, v).value + t).value, v)
            else DecValue(f, prior, EncValue(f, v).value + t).Fail?
    decreases f, 0
  {
    hide DecPrefixed, EncMsg, Defaults, DecodeInto, WellFormed, Matches, Terminated, SameMessage, DecScalar,
         EncScalar, ScalarFits, ScalarTerminated;
    if f.ltype.LSubmessage? {
      var body := EncMsg(f.ltype.sub, 0, v.slots).value;
      PrefixedSplit(body, t);
      MessageRoundTrips(f.ltype.sub, v.slots);
    } else {
      ScalarValueRoundTrips(f, v, prior, t);
    }
  }

  /** Decoding the encoder's output succeeds and gives the message back when every encoded string
      is terminated; it fails otherwise. */
  lemma {:induction false} MessageRoundTrips(fields: seq<Field>, msg: seq<Slot>)
    requires WellFormed(fields) && Matches(fields, msg)
    requires Encode(fields, msg).Some? && |Encode(fields, msg).value| < TWO32
    ensures if Terminated(fields, msg)
            then Decode(fields, Encode(fields, msg).value).Got?
              && Decode(fields, Encode(fields, msg).value).rest == []
              && SameMessage(fields, Decode(fields, Encode(fields, msg).value).value, msg)
            else Decode(fields, Encode(fields, msg).value).Fail?
    decreases fields, |fields| + 1
  {
    hide SlotOf, EncMsg, Defaults, WellFormedField, SlotFits, SameSlot, SlotTerminated, RequiredBefore;
    var e := Encode(fields, msg).value;
    StartProgress(fields, msg);
    var st' := LoopRoundTrips(fields, 0, msg, Start(Defaults(fields)), []);
    assert e + [] == e;
  }

  lemma {:induction false} LoopRoundTrips(fields: seq<Field>, i: nat, msg: seq<Slot>, st: State, t: seq<byte>)
    returns (st': State)
    requires WellFormed(fields) && Matches(fields, msg) && i <= |fields| && Progress(fields, i, msg, st)
    requires EncMsg(fields, i, msg).Some? && |EncMsg(fields, i, msg).value| < TWO32
    ensures if TerminatedFrom(fields, i, msg)
            then DecLoop(fields, st, EncMsg(fields, i, msg).value + t) == DecLoop(fields, st', t)
              && Progress(fields, |fields|, msg, st')
            else DecLoop(fields, st, EncMsg(fields, i, msg).value + t) == Failed
    decreases fields, |fields| - i, 4
  {
    hide SlotOf, Progress, Received, DecLoop, EncSlot, SlotTerminated, SlotFits, WellFormedField;
    if i == |fields| {
      assert EncMsg(fields, i, msg).value + t == t;
      return st;
    }
    var head, tail := EncSlot(fields[i], msg[SlotOf(fields, i)]).value, EncMsg(fields, i + 1, msg).value;
    assert EncMsg(fields, i, msg).value + t == head + (tail + t);
    var next := SlotRoundTrips(fields, i, msg, st, tail + t);
    if SlotTerminated(fields[i], msg[SlotOf(fields, i)]) {
      ReceivedProgress(fields, i, msg, st, next);
      st' := LoopRoundTrips(fields, i + 1, msg, next, t);
    } else {
      return st;
    }
  }

  /** The records of one position. */
  lemma {:induction false} SlotRoundTrips(fields: seq<Field>, i: nat, msg: seq<Slot>, st: State, t: seq<byte>)
    returns (st': State)
    requires WellFormed(fields) && Matches(fields, msg) && i < |fields| && Progress(fields, i, msg, st)
    requires EncSlot(fields[i], msg[SlotOf(fields, i)]).Some?
      && |EncSlot(fields[i], msg[SlotOf(fields, i)]).value| < TWO32
    ensures if SlotTerminated(fields[i], msg[SlotOf(fields, i)])
            then DecLoop(fields, st, EncSlot(fields[i], msg[SlotOf(fields, i)]).value + t) == DecLoop(fields, st', t)
              && Received(fields, i, msg, st, st')
            else DecLoop(fields, st, EncSlot(fields[i], msg[SlotOf(fields, i)]).value + t) == Failed
    decreases fields, |fields| - i, 3
  {
    hide SlotOf, Progress, Received, DecLoop, SlotTerminated, SlotFits, WellFormedField, IsZeroSlot, EncTagged,
         EncPacked, EncUnpacked;
    var f, s := fields[i], msg[SlotOf(fields, i)];
    if Silent(f, s) {
      SilentPosition(fields, i, msg, st);
      assert [] + t == t;
      return st;
    } else if f.htype.Repeated? {
      if Packable(f.ltype) {
        st' := PackedPosition(fields, i, msg, st, t);
      } else {
        st' := ArrayPosition(fields, i, msg, st, t);
      }
    } else {
      st' := SinglePosition(fields, i, msg, st, t);
    }
  }

  /** A slot that holds one value. */
  function Single(f: Field, v: Value): Slot
  {
    if f.htype.OneOf? then Union(f.tag, v)
    else if f.htype.Optional? && f.sizeOffset != 0 then Opt(true, v)
    else Plain(v)
  }

  predicate HoldsSingle(f: Field, s: Slot)
  {
    match f.htype
    case Required => s.Plain?
    case Optional => if f.sizeOffset != 0 then s.Opt? else s.Plain?
    case Repeated => false
    case OneOf => s.Union?
  }

  function PriorValue(f: Field, s: Slot): Value
    requires HoldsSingle(f, s)
  {
    if f.htype.OneOf? then NewItem(f) else s.v
  }

  /** A record of a field that is not an array: decode the value, store it, mark the field. */
  lemma SingleRecord(fields: seq<Field>, st: State, i: nat, wireType: nat, body: seq<byte>)
    requires i < |fields| && SlotOf(fields, i) < |st.msg| && HoldsSingle(fields[i], st.msg[SlotOf(fields, i)])
    ensures var k := SlotOf(fields, i);
            DecRecordAt(fields, st, i, wireType, body) ==
            match DecValue(fields[i], PriorValue(fields[i], st.msg[k]), body)
            case Fail => Fail
            case Got(v, rest) => Got(MarkSeen(fields, st, i).(msg := st.msg[k := Single(fields[i], v)]), rest)
  {
    hide SlotOf, DecValue, RequiredBefore, FixedComplete, NewItem;
  }

  lemma SingleReceived(fields: seq<Field>, i: nat, msg: seq<Slot>, st: State, v: Value)
    requires i < |fields| && Progress(fields, i, msg, st)
    requires HoldsSingle(fields[i], st.msg[SlotOf(fields, i)])
    requires SlotFits(fields[i], msg[SlotOf(fields, i)]) && !Silent(fields[i], msg[SlotOf(fields, i)])
    requires SameValue(fields[i], v, msg[SlotOf(fields, i)].v)
    ensures Received(fields, i, msg, st,
              MarkSeen(fields, st, i).(msg := st.msg[SlotOf(fields, i) := Single(fields[i], v)]))
  {
    hide SlotOf, SameValue, RequiredBefore, ValueFits, DefaultSlot, IsZeroSlot;
  }

  lemma SingleEncoding(f: Field, s: Slot, t: seq<byte>)
    requires SlotFits(f, s) && !Silent(f, s) && !f.htype.Repeated?
    requires EncSlot(f, s).Some?
    ensures EncValue(f, s.v).Some? && ValueFits(f, s.v)
    ensures EncSlot(f, s).value + t == EncTag(WireType(f.ltype), f.tag) + (EncValue(f, s.v).value + t)
    ensures |EncValue(f, s.v).value| <= |EncSlot(f, s).value|
    ensures SlotTerminated(f, s) == ValueTerminated(f, s.v)
  {
    hide EncValue, ValueFits, EncTag, IsZeroSlot, EncArray, ValueTerminated;
  }

  lemma UntouchedHoldsSingle(f: Field, s: Slot)
    requires Untouched(f, s) && !f.htype.Repeated?
    ensures HoldsSingle(f, s)
    ensures f.ltype.LSubmessage? ==> PriorValue(f, s) == VMsg(Defaults(f.ltype.sub))
  {
    hide Defaults;
    if f.ltype.LSubmessage? { assert DefaultValue(f) == VMsg(Defaults(f.ltype.sub)); }
  }

  lemma {:induction false} SinglePosition(fields: seq<Field>, i: nat, msg: seq<Slot>, st: State, t: seq<byte>)
    returns (st': State)
    requires WellFormed(fields) && Matches(fields, msg) && i < |fields| && Progress(fields, i, msg, st)
    requires !fields[i].htype.Repeated? && !Silent(fields[i], msg[SlotOf(fields, i)])
    requires EncSlot(fields[i], msg[SlotOf(fields, i)]).Some?
      && |EncSlot(fields[i], msg[SlotOf(fields, i)]).value| < TWO32
    ensures if SlotTerminated(fields[i], msg[SlotOf(fields, i)])
            then DecLoop(fields, st, EncSlot(fields[i], msg[SlotOf(fields, i)]).value + t) == DecLoop(fields, st', t)
              && Received(fields, i, msg, st, st')
            else DecLoop(fields, st, EncSlot(fields[i], msg[SlotOf(fields, i)]).value + t) == Failed
    decreases fields, |fields| - i, 2
  {
    var f, s, k := fields[i], msg[SlotOf(fields, i)], SlotOf(fields, i);
    var slot := st.msg[k];
    assert SlotFits(f, s) && WellFormedField(f) && Untouched(f, slot);
    hide SlotOf, Progress, Received, DecLoop, DecRecordAt, SlotTerminated, SlotFits, WellFormedField, DecValue,
         EncValue, EncTag, EncSlot, Silent, MarkSeen, ValueFits, Untouched, SameValue, ValueTerminated;
    SingleEncoding(f, s, t);
    UntouchedHoldsSingle(f, slot);
    var body := EncValue(f, s.v).value + t;
    FieldTagLegal(f);
    LoopRecord(fields, st, i, WireType(f.ltype), body);
    SingleRecord(fields, st, i, WireType(f.ltype), body);
    ValueRoundTrips(f, s.v, PriorValue(f, slot), t);
    if SlotTerminated(f, s) {
      var v := DecValue(f, PriorValue(f, slot), body).value;
      SingleReceived(fields, i, msg, st, v);
      st' := MarkSeen(fields, st, i).(msg := st.msg[k := Single(f, v)]);
    } else {
      st' := st;
    }
  }

  lemma FieldTagLegal(f: Field)
    requires WellFormedField(f)
    ensures 1 <= f.tag < 0x2000_0000 && !f.ltype.LExtension? && WireType(f.ltype) < 8
  {
    hide WellFormed;
  }

  // Arrays

  lemma PackedPosition(fields: seq<Field>, i: nat, msg: seq<Slot>, st: State, t: seq<byte>) returns (st': State)
    requires WellFormed(fields) && Matches(fields, msg) && i < |fields| && Progress(fields, i, msg, st)
    requires fields[i].htype.Repeated? && Packable(fields[i].ltype) && !Silent(fields[i], msg[SlotOf(fields, i)])
    requires EncSlot(fields[i], msg[SlotOf(fields, i)]).Some?
      && |EncSlot(fields[i], msg[SlotOf(fields, i)]).value| < TWO32
    ensures SlotTerminated(fields[i], msg[SlotOf(fields, i)])
    ensures DecLoop(fields, st, EncSlot(fields[i], msg[SlotOf(fields, i)]).value + t) == DecLoop(fields, st', t)
    ensures Received(fields, i, msg, st, st')
  {
    var f, s, k := fields[i], msg[SlotOf(fields, i)], SlotOf(fields, i);
    assert SlotFits(f, s) && WellFormedField(f) && st.msg[k] == Rep([]);
    assert FixedComplete(fields, st) && (st.fixedField.Some? ==> st.fixedField.value < i);
    PackedEncoding(f, s, t);
    hide SlotOf, Progress, Received, DecLoop, DecRecordAt, SlotTerminated, SlotFits, WellFormedField,
         EncTag, EncSlot, Silent, EncItems, Prefixed, DecPackedRecord, SameValue, ScalarFits, FixedComplete;
    var payload := EncItems(f, s.items).value;
    FieldTagLegal(f);
    LoopRecord(fields, st, i, WT_STRING, Prefixed(payload) + t);
    PackedRecord(f, s.items, t);
    PackedRecordAt(fields, st, i, s.items, Prefixed(payload) + t, t);
    st' := AfterPacked(fields, st, i, s.items);
    PackedReceived(fields, i, msg, st);
  }

  function AfterPacked(fields: seq<Field>, st: State, i: nat, items: seq<Value>): State
    requires i < |fields| && SlotOf(fields, i) < |st.msg|
  {
    var st1 := st.(msg := st.msg[SlotOf(fields, i) := Rep(items)]);
    if FixedCount(fields[i]) then st1.(fixedField := Some(i), fixedSize := |items|) else st1
  }

  lemma PackedEncoding(f: Field, s: Slot, t: seq<byte>)
    requires SlotFits(f, s) && f.htype.Repeated? && Packable(f.ltype) && !Silent(f, s) && EncSlot(f, s).Some?
    ensures EncItems(f, s.items).Some? && |s.items| <= f.arraySize
    ensures EncSlot(f, s).value + t == EncTag(WT_STRING, f.tag) + (Prefixed(EncItems(f, s.items).value) + t)
    ensures |EncItems(f, s.items).value| <= |EncSlot(f, s).value|
    ensures SlotTerminated(f, s) && forall q | 0 <= q < |s.items| :: ScalarFits(f, s.items[q])
  {
    hide EncItems, EncTag, EncVarint, ScalarFits;
    assert EncSlot(f, s) == EncArray(f, s.items) == EncPacked(f, s.items);
    forall q | 0 <= q < |s.items| ensures ValueTerminated(f, s.items[q]) && ScalarFits(f, s.items[q]) {
      assert ValueFits(f, s.items[q]);
    }
  }

  lemma PackedRecordAt(fields: seq<Field>, st: State, i: nat, items: seq<Value>, body: seq<byte>, t: seq<byte>)
    requires i < |fields| && SlotOf(fields, i) < |st.msg| && st.msg[SlotOf(fields, i)] == Rep([])
    requires fields[i].htype.Repeated? && Packable(fields[i].ltype)
    requires FixedComplete(fields, st) && st.fixedField != Some(i)
    requires DecPackedRecord(fields[i], [], 0, body) == Got(Stored(Rep(items), |items|), t)
    ensures DecRecordAt(fields, st, i, WT_STRING, body) == Got(AfterPacked(fields, st, i, items), t)
  {
    hide SlotOf, DecPackedRecord, FixedComplete;
  }

  lemma PackedReceived(fields: seq<Field>, i: nat, msg: seq<Slot>, st: State)
    requires i < |fields| && Progress(fields, i, msg, st)
      && fields[i].htype.Repeated? && !fields[i].ltype.LSubmessage? && !fields[i].ltype.LString?
    requires SlotFits(fields[i], msg[SlotOf(fields, i)])
    ensures Received(fields, i, msg, st, AfterPacked(fields, st, i, msg[SlotOf(fields, i)].items))
  {
    hide SlotOf, RequiredBefore, ValueFits, DefaultSlot, CString, SameMessage;
    var items := msg[SlotOf(fields, i)].items;
    forall q | 0 <= q < |items| ensures SameValue(fields[i], items[q], items[q]) {
    }
  }

  /** k records of an unpacked array have been received. */
  predicate ArrayState(fields: seq<Field>, i: nat, items: seq<Value>, k: nat, st: State)
    requires i < |fields| && k <= |items| && SlotOf(fields, i) < |st.msg|
  {
    var slot := st.msg[SlotOf(fields, i)];
    && slot.Rep? && |slot.items| == k
    && (forall q | 0 <= q < k :: SameValue(fields[i], slot.items[q], items[q]))
    && (FixedCount(fields[i]) ==>
          if st.fixedField == Some(i) then st.fixedSize == k else k == 0 && FixedComplete(fields, st))
  }

  /** The parts of the state that the records of an array leave alone. */
  predicate ArrayFrame(fields: seq<Field>, i: nat, st: State, st': State)
    requires i < |fields| && SlotOf(fields, i) < |st.msg|
  {
    && |st'.msg| == |st.msg|
    && st'.msg == st.msg[SlotOf(fields, i) := st'.msg[SlotOf(fields, i)]]
    && st'.seen == st.seen
    && (st'.fixedField == st.fixedField || (FixedCount(fields[i]) && st'.fixedField == Some(i)))
    && (FixedCount(fields[i]) || st'.fixedSize == st.fixedSize)
  }

  /** The state after one more item. */
  function AfterItem(fields: seq<Field>, st: State, i: nat, v: Value): State
    requires i < |fields| && SlotOf(fields, i) < |st.msg| && st.msg[SlotOf(fields, i)].Rep?
  {
    var got := st.msg[SlotOf(fields, i)].items;
    var st1 := st.(msg := st.msg[SlotOf(fields, i) := Rep(got + [v])]);
    if FixedCount(fields[i]) then st1.(fixedField := Some(i), fixedSize := |got| + 1) else st1
  }

  lemma ItemRecord(fields: seq<Field>, st: State, i: nat, items: seq<Value>, k: nat, wireType: nat, body: seq<byte>)
    requires i < |fields| && SlotOf(fields, i) < |st.msg| && fields[i].htype.Repeated? && !Packable(fields[i].ltype)
    requires k < |items| <= fields[i].arraySize && ArrayState(fields, i, items, k, st)
    ensures DecRecordAt(fields, st, i, wireType, body) ==
            match DecValue(fields[i], NewItem(fields[i]), body)
            case Fail => Fail
            case Got(v, rest) => Got(AfterItem(fields, st, i, v), rest)
  {
    hide SlotOf, DecValue, FixedComplete, NewItem, SameValue;
  }

  lemma ItemReceived(fields: seq<Field>, i: nat, items: seq<Value>, k: nat, st: State, v: Value)
    requires i < |fields| && SlotOf(fields, i) < |st.msg|
    requires k < |items| && ArrayState(fields, i, items, k, st) && SameValue(fields[i], v, items[k])
    ensures ArrayState(fields, i, items, k + 1, AfterItem(fields, st, i, v))
    ensures ArrayFrame(fields, i, st, AfterItem(fields, st, i, v))
  {
    hide SlotOf, SameValue, FixedComplete;
  }

  lemma ArrayFrameStep(fields: seq<Field>, i: nat, a: State, b: State, c: State)
    requires i < |fields| && SlotOf(fields, i) < |a.msg| && |a.msg| == |b.msg|
    requires ArrayFrame(fields, i, a, b) && ArrayFrame(fields, i, b, c)
    ensures ArrayFrame(fields, i, a, c)
  {
    hide SlotOf;
  }

  lemma UnpackedSplit(f: Field, items: seq<Value>, k: nat, t: seq<byte>)
    requires k < |items| && EncUnpacked(f, items[k..]).Some?
    ensures EncValue(f, items[k]).Some? && EncUnpacked(f, items[k + 1..]).Some?
    ensures EncUnpacked(f, items[k..]).value + t ==
            EncTag(WireType(f.ltype), f.tag)
              + (EncValue(f, items[k]).value + (EncUnpacked(f, items[k + 1..]).value + t))
    ensures |EncValue(f, items[k]).value| + |EncUnpacked(f, items[k + 1..]).value| <= |EncUnpacked(f, items[k..]).value|
  {
    hide EncValue, EncTag;
    assert items[k..][1..] == items[k + 1..];
    assert EncTagged(f, items[k]).Some? && EncUnpacked(f, items[k + 1..]).Some?;
    assert EncUnpacked(f, items[k..]).value == EncTagged(f, items[k]).value + EncUnpacked(f, items[k + 1..]).value;
  }

  /** The remaining items of an unpacked array. */
  lemma {:induction false} ArrayRoundTrips(fields: seq<Field>, i: nat, items: seq<Value>, k: nat, st: State,
                                           t: seq<byte>)
    returns (st': State)
    requires WellFormed(fields) && i < |fields| && SlotOf(fields, i) < |st.msg|
    requires fields[i].htype.Repeated? && !Packable(fields[i].ltype) && |items| <= fields[i].arraySize
    requires forall q | 0 <= q < |items| :: ValueFits(fields[i], items[q])
    requires k <= |items| && ArrayState(fields, i, items, k, st)
    requires EncUnpacked(fields[i], items[k..]).Some? && |EncUnpacked(fields[i], items[k..]).value| < TWO32
    ensures if forall q | k <= q < |items| :: ValueTerminated(fields[i], items[q])
            then DecLoop(fields, st, EncUnpacked(fields[i], items[k..]).value + t) == DecLoop(fields, st', t)
              && ArrayFrame(fields, i, st, st') && ArrayState(fields, i, items, |items|, st')
            else DecLoop(fields, st, EncUnpacked(fields[i], items[k..]).value + t) == Failed
    decreases fields, |fields| - i, 1, |items| - k
  {
    var f := fields[i];
    assert WellFormedField(f);
    if k == |items| {
      assert EncUnpacked(f, items[k..]).value + t == t;
      return st;
    }
    UnpackedSplit(f, items, k, t);
    hide SlotOf, ArrayState, ArrayFrame, DecLoop, DecRecordAt, WellFormedField, EncUnpacked, DecValue,
         EncValue, EncTag, SameValue, ValueFits, ValueTerminated, AfterItem;
    var tail := EncUnpacked(f, items[k + 1..]).value + t;
    var body := EncValue(f, items[k]).value + tail;
    FieldTagLegal(f);
    LoopRecord(fields, st, i, WireType(f.ltype), body);
    ItemRecord(fields, st, i, items, k, WireType(f.ltype), body);
    ValueRoundTrips(f, items[k], NewItem(f), tail);
    if ValueTerminated(f, items[k]) {
      var v := DecValue(f, NewItem(f), body).value;
      var next := AfterItem(fields, st, i, v);
      ItemReceived(fields, i, items, k, st, v);
      ArrayFrameSize(fields, i, st, next);
      st' := ArrayRoundTrips(fields, i, items, k + 1, next, t);
      if forall q | k + 1 <= q < |items| :: ValueTerminated(f, items[q]) {
        ArrayFrameStep(fields, i, st, next, st');
      }
    } else {
      st' := st;
    }
  }

  lemma ArrayFrameSize(fields: seq<Field>, i: nat, a: State, b: State)
    requires i < |fields| && SlotOf(fields, i) < |a.msg| && ArrayFrame(fields, i, a, b)
    ensures |a.msg| == |b.msg|
  {
    hide SlotOf;
  }

  lemma ArrayEncoding(f: Field, s: Slot)
    requires SlotFits(f, s) && f.htype.Repeated? && !Packable(f.ltype) && !Silent(f, s) && EncSlot(f, s).Some?
    ensures EncUnpacked(f, s.items) == EncSlot(f, s) && |s.items| <= f.arraySize && s.items[0..] == s.items
    ensures SlotTerminated(f, s) <==> forall q | 0 <= q < |s.items| :: ValueTerminated(f, s.items[q])
    ensures forall q | 0 <= q < |s.items| :: ValueFits(f, s.items[q])
  {
    hide EncUnpacked, ValueFits, ValueTerminated;
    assert EncSlot(f, s) == EncArray(f, s.items);
  }

  lemma ArrayReceived(fields: seq<Field>, i: nat, msg: seq<Slot>, st: State, st': State)
    requires i < |fields| && Progress(fields, i, msg, st) && fields[i].htype.Repeated?
    requires SlotFits(fields[i], msg[SlotOf(fields, i)])
    requires ArrayFrame(fields, i, st, st')
    requires var items := msg[SlotOf(fields, i)].items; ArrayState(fields, i, items, |items|, st') && items != []
    ensures Received(fields, i, msg, st, st')
  {
    hide SlotOf, RequiredBefore, ValueFits, DefaultSlot, SameValue;
  }

  lemma {:induction false} ArrayPosition(fields: seq<Field>, i: nat, msg: seq<Slot>, st: State, t: seq<byte>)
    returns (st': State)
    requires WellFormed(fields) && Matches(fields, msg) && i < |fields| && Progress(fields, i, msg, st)
    requires fields[i].htype.Repeated? && !Packable(fields[i].ltype) && !Silent(fields[i], msg[SlotOf(fields, i)])
    requires EncSlot(fields[i], msg[SlotOf(fields, i)]).Some?
      && |EncSlot(fields[i], msg[SlotOf(fields, i)]).value| < TWO32
    ensures if SlotTerminated(fields[i], msg[SlotOf(fields, i)])
            then DecLoop(fields, st, EncSlot(fields[i], msg[SlotOf(fields, i)]).value + t) == DecLoop(fields, st', t)
              && Received(fields, i, msg, st, st')
            else DecLoop(fields, st, EncSlot(fields[i], msg[SlotOf(fields, i)]).value + t) == Failed
    decreases fields, |fields| - i, 2
  {
    var f, s := fields[i], msg[SlotOf(fields, i)];
    assert SlotFits(f, s) && st.msg[SlotOf(fields, i)] == Rep([]);
    assert ArrayState(fields, i, s.items, 0, st);
    hide SlotOf, Progress, Received, DecLoop, SlotTerminated, SlotFits, WellFormedField, EncSlot, Silent,
         EncUnpacked, ArrayState, ArrayFrame,
         ValueFits, ValueTerminated;
    ArrayEncoding(f, s);
    st' := ArrayRoundTrips(fields, i, s.items, 0, st, t);
    if SlotTerminated(f, s) {
      ArrayReceived(fields, i, msg, st, st');
    }
  }
}
