/** The encoder emits the wire format, and the decoders read its numbers. */
module WireLaws {
  import opened Bits
  import opened Varint
  import opened VarintLaws
  import opened Options
  import opened Schema
  import opened Encoding
  import opened ScalarRoundTrip
  import opened WireFormat

  // --------------------------------------------------------------------------
  // Numbers
  // --------------------------------------------------------------------------

  lemma GroupInFront(b: byte, p: seq<byte>, n: nat)
    requires b >= 128 && IsNumber(p, n) && n > 0
    ensures IsNumber([b] + p, b % 128 + 128 * n)
  {
    var q := [b] + p;
    assert q[1..] == p && q[|q| - 1] == p[|p| - 1];
    forall k | 0 <= k < |q| - 1 ensures q[k] >= 128 { if k > 0 { assert q[k] == p[k - 1]; } }
    if |p| == 1 { assert Number(p) == p[0] % 128 + 128 * Number(p[1..]) && p[1..] == []; }
  }

  lemma OneGroup(b: byte)
    requires b < 128
    ensures IsNumber([b], b)
  {
    assert [b][1..] == [];
  }

  lemma {:induction false} EncIsNumber(n: nat)
    ensures IsNumber(EncVarint(n), n)
    decreases n
  {
    hide IsNumber;
    if n < 128 {
      OneGroup(n);
    } else {
      EncIsNumber(n / 128);
      GroupInFront(n % 128 + 128, EncVarint(n / 128), n / 128);
    }
  }

  /** The encoder's varint is the one varint of minimal length with that number. */
  lemma {:induction false} NumberExactly(p: seq<byte>, n: nat)
    ensures IsNumber(p, n) <==> p == EncVarint(n)
    decreases |p|
  {
    EncIsNumber(n);
    if IsNumber(p, n) {
      if |p| == 1 {
        assert p[1..] == [] && Number(p[1..]) == 0 && p == [n];
      } else {
        TailIsNumber(p, n);
        hide IsNumber;
        NumberExactly(p[1..], n / 128);
        assert p == [p[0]] + p[1..];
      }
    }
  }

  lemma {:induction false} NumberPositive(p: seq<byte>)
    requires IsVarint(p) && p[|p| - 1] != 0
    ensures Number(p) > 0
  {
    if |p| == 1 {
    } else {
      assert p[1..][|p| - 2] == p[|p| - 1];
      NumberPositive(p[1..]);
    }
  }

  lemma TailIsNumber(p: seq<byte>, n: nat)
    requires IsNumber(p, n) && |p| > 1
    ensures IsNumber(p[1..], n / 128) && n >= 128 && p[0] == n % 128 + 128
  {
    var tail := p[1..];
    assert tail[|tail| - 1] == p[|p| - 1];
    forall k | 0 <= k < |tail| - 1 ensures tail[k] >= 128 { assert tail[k] == p[k + 1]; }
    NumberPositive(tail);
  }

  // --------------------------------------------------------------------------
  // The encoder
  // --------------------------------------------------------------------------

  lemma Split(a: seq<byte>, b: seq<byte>)
    ensures (a + b)[..|a|] == a && (a + b)[|a|..] == b
  {
  }

  lemma PrefixedIsDelimited(body: seq<byte>)
    ensures Delimited(Prefixed(body), body)
  {
    hide IsNumber, EncVarint;
    var head := EncVarint(U64(|body|));
    EncIsNumber(U64(|body|));
    Split(head, body);
    assert IsNumber(Prefixed(body)[..|head|], |body| % 0x1_0000_0000_0000_0000);
  }

  lemma {:induction false} LittleEndianWeighs(n: nat, k: nat)
    requires n < Pow256(k)
    ensures Weighted(LittleEndian(n, k)) == n
    decreases k
  {
    if k == 0 {
    } else {
      LittleEndianWeighs(n / 0x100, k - 1);
      assert LittleEndian(n, k)[1..] == LittleEndian(n / 0x100, k - 1);
    }
  }

  lemma {:induction false} CStringUpToNul(b: seq<byte>)
    ensures UpToNul(b, CString(b))
  {
    if b == [] || b[0] == 0 {
    } else {
      CStringUpToNul(b[1..]);
      assert b == [b[0]] + b[1..] && CString(b) == [b[0]] + CString(b[1..]);
    }
  }

  lemma StringPayload(b: seq<byte>, p: seq<byte>)
    requires Delimited(p, CString(b))
    ensures exists k: nat :: Text(b, k, p)
  {
    hide Delimited;
    CStringUpToNul(b);
    var k := |CString(b)|;
    assert b[..k] == CString(b);
    assert Text(b, k, p);
  }

  lemma WordIsRemainder(n: int)
    requires IsInt64(n)
    ensures AsWord64(n) == n % 0x1_0000_0000_0000_0000
  {
  }

  lemma ScalarConforms(f: Field, v: Value)
    requires EncScalar(f, v).Some?
    ensures ScalarPayload(f, v, EncScalar(f, v).value)
  {
    hide EncVarint, LittleEndian, Prefixed, Delimited, CString, ZigZag, AsWord64, IsNumber, UpToNul, Pow256, Weighted;
    match f.ltype {
      case LBool => BoolByte(v.flag);
      case LVarint => WordIsRemainder(v.n); EncIsNumber(AsWord64(v.n));
      case LUVarint => EncIsNumber(v.n);
      case LSVarint => ZigZagBijection(v.n, 0); EncIsNumber(ZigZag(v.n));
      case LFixed32 => Pow256Values(); LittleEndianWeighs(v.n, 4);
      case LFixed64 => Pow256Values(); LittleEndianWeighs(v.n, 8);
      case LBytes => PrefixedIsDelimited(v.bytes);
      case LString => PrefixedIsDelimited(CString(v.bytes)); StringPayload(v.bytes, Prefixed(CString(v.bytes)));
      case LFixedBytes => PrefixedIsDelimited(v.bytes);
    }
  }

  lemma BoolByte(flag: bool)
    ensures EncVarint(if flag then 1 else 0) == [if flag then 1 else 0]
  {
  }

  lemma {:induction false} ValueConforms(f: Field, v: Value)
    requires EncValue(f, v).Some?
    ensures Payload(f, v, EncValue(f, v).value)
    decreases f, 0
  {
    hide EncScalar, ScalarPayload, EncMsg, Message, IsNumber, EncVarint;
    if f.ltype.LSubmessage? {
      var body := EncMsg(f.ltype.sub, 0, v.slots).value;
      MessageConforms(f.ltype.sub, 0, v.slots);
      var head, p := EncVarint(U64(|body|)), EncValue(f, v).value;
      EncIsNumber(U64(|body|));
      Split(head, body);
      assert p == head + body;
      assert IsNumber(p[..|head|], |p[|head|..]| % 0x1_0000_0000_0000_0000)
          && Message(f.ltype.sub, 0, v.slots, p[|head|..]);
    } else {
      ScalarConforms(f, v);
    }
  }

  lemma WireTypesAgree(t: LType)
    ensures WireType(t) == WireTypeFor(t) && WT_STRING == 2
    ensures Packable(t) <==> !OneByOne(t)
  {
  }

  lemma {:induction false} TaggedConforms(f: Field, v: Value)
    requires EncTagged(f, v).Some?
    ensures Record(f, v, EncTagged(f, v).value)
    decreases f, 1
  {
    hide EncValue, Payload, IsNumber, EncVarint;
    ValueConforms(f, v);
    WireTypesAgree(f.ltype);
    var key, payload, s := EncTag(WireType(f.ltype), f.tag), EncValue(f, v).value, EncTagged(f, v).value;
    EncIsNumber(8 * f.tag + WireType(f.ltype));
    Split(key, payload);
    assert s == key + payload;
    assert IsNumber(s[..|key|], 8 * f.tag + WireTypeFor(f.ltype)) && Payload(f, v, s[|key|..]);
  }

  lemma {:induction false} UnpackedConforms(f: Field, items: seq<Value>)
    requires EncUnpacked(f, items).Some?
    ensures Records(f, items, EncUnpacked(f, items).value)
    decreases f, 2, |items|
  {
    hide EncTagged, Record;
    if items == [] {
    } else {
      TaggedConforms(f, items[0]);
      UnpackedConforms(f, items[1..]);
      var a, b, s := EncTagged(f, items[0]).value, EncUnpacked(f, items[1..]).value, EncUnpacked(f, items).value;
      Split(a, b);
      assert s == a + b;
      assert Record(f, items[0], s[..|a|]) && Records(f, items[1..], s[|a|..]);
    }
  }

  lemma {:induction false} ItemsConform(f: Field, items: seq<Value>)
    requires EncItems(f, items).Some?
    ensures Payloads(f, items, EncItems(f, items).value)
    decreases f, 2, |items|
  {
    hide EncValue, Payload;
    if items == [] {
    } else {
      ValueConforms(f, items[0]);
      ItemsConform(f, items[1..]);
      var a, b, s := EncValue(f, items[0]).value, EncItems(f, items[1..]).value, EncItems(f, items).value;
      Split(a, b);
      assert s == a + b;
      assert Payload(f, items[0], s[..|a|]) && Payloads(f, items[1..], s[|a|..]);
    }
  }

  lemma {:induction false} PackedConforms(f: Field, items: seq<Value>)
    requires EncPacked(f, items).Some?
    ensures Packed(f, items, EncPacked(f, items).value)
    decreases f, 3
  {
    hide EncItems, Payloads, IsNumber, EncVarint;
    ItemsConform(f, items);
    var payload := EncItems(f, items).value;
    var key, head, s := EncTag(WT_STRING, f.tag), EncVarint(U64(|payload|)), EncPacked(f, items).value;
    EncIsNumber(8 * f.tag + WT_STRING);
    EncIsNumber(U64(|payload|));
    var k, j := |key|, |key| + |head|;
    assert s == key + head + payload;
    assert s[..k] == key && s[k..j] == head && s[j..] == payload;
    assert IsNumber(s[..k], 8 * f.tag + 2) && IsNumber(s[k..j], |s[j..]| % 0x1_0000_0000_0000_0000)
        && Payloads(f, items, s[j..]);
  }

  lemma {:induction false} ZeroIsBlank(f: Field, v: Value)
    ensures IsZeroValue(f, v) <==> Blank(f, v)
    decreases f, 0
  {
    if v.VMsg? && f.ltype.LSubmessage? {
      var sub, slots := f.ltype.sub, v.slots;
      hide SlotOf, IsZeroSlot, BlankSlot;
      forall i | 0 <= i < |sub| && SlotOf(sub, i) < |slots|
        ensures IsZeroSlot(sub[i], slots[SlotOf(sub, i)]) <==> BlankSlot(sub[i], slots[SlotOf(sub, i)])
      {
        ZeroSlotIsBlank(sub[i], slots[SlotOf(sub, i)]);
      }
    }
  }

  lemma {:induction false} ZeroSlotIsBlank(f: Field, s: Slot)
    ensures IsZeroSlot(f, s) <==> BlankSlot(f, s)
    decreases f, 1
  {
    hide IsZeroValue, Blank;
    if s.Plain? { ZeroIsBlank(f, s.v); }
  }

  lemma {:induction false} PositionConforms(f: Field, s: Slot)
    requires EncSlot(f, s).Some?
    ensures Position(f, s, EncSlot(f, s).value)
    decreases f, 4
  {
    hide EncTagged, EncPacked, EncUnpacked, Record, Records, Packed, IsZeroValue, Blank;
    WireTypesAgree(f.ltype);
    match s
    case Plain(v) =>
      ZeroIsBlank(f, v);
      if EncTagged(f, v).Some? { TaggedConforms(f, v); }
    case Opt(_, v) => if EncTagged(f, v).Some? { TaggedConforms(f, v); }
    case Rep(items) =>
      if EncPacked(f, items).Some? { PackedConforms(f, items); }
      if EncUnpacked(f, items).Some? { UnpackedConforms(f, items); }
    case Union(_, v) => if EncTagged(f, v).Some? { TaggedConforms(f, v); }
  }

  lemma {:induction false} MessageConforms(fields: seq<Field>, i: nat, msg: seq<Slot>)
    requires i <= |fields| && EncMsg(fields, i, msg).Some?
    ensures Message(fields, i, msg, EncMsg(fields, i, msg).value)
    decreases fields, |fields| - i
  {
    hide EncSlot, Position, SlotOf;
    if i == |fields| {
    } else {
      var slot := msg[SlotOf(fields, i)];
      PositionConforms(fields[i], slot);
      MessageConforms(fields, i + 1, msg);
      var a, b, s := EncSlot(fields[i], slot).value, EncMsg(fields, i + 1, msg).value, EncMsg(fields, i, msg).value;
      Split(a, b);
      assert s == a + b;
      assert Position(fields[i], slot, s[..|a|]) && Message(fields, i + 1, msg, s[|a|..]);
    }
  }

  // --------------------------------------------------------------------------
  // The wire format leaves no choice
  // --------------------------------------------------------------------------

  lemma Rejoin(s: seq<byte>, k: nat)
    requires k <= |s|
    ensures s[..k] + s[k..] == s
  {
  }

  lemma DelimitedExactly(p: seq<byte>, body: seq<byte>)
    ensures Delimited(p, body) <==> p == Prefixed(body)
  {
    hide IsNumber, EncVarint;
    PrefixedIsDelimited(body);
    if Delimited(p, body) {
      var k :| 0 <= k <= |p| && IsNumber(p[..k], |body| % 0x1_0000_0000_0000_0000) && p[k..] == body;
      NumberExactly(p[..k], U64(|body|));
      Rejoin(p, k);
    }
  }

  lemma {:induction false} WeighsOnce(p: seq<byte>)
    ensures p == LittleEndian(Weighted(p), |p|)
  {
    if p == [] {
    } else {
      LowestByte(p[0], Weighted(p[1..]), |p| - 1);
      assert Weighted(p) == p[0] + 256 * Weighted(p[1..]);
      hide Weighted, LittleEndian;
      WeighsOnce(p[1..]);
      assert p == [p[0]] + p[1..];
    }
  }

  lemma LowestByte(b: byte, n: nat, k: nat)
    ensures LittleEndian(b + 256 * n, k + 1) == [b] + LittleEndian(n, k)
  {
    assert (b + 256 * n) % 0x100 == b && (b + 256 * n) / 0x100 == n;
  }

  lemma {:induction false} UpToNulOnce(b: seq<byte>, text: seq<byte>)
    requires UpToNul(b, text)
    ensures text == CString(b)
  {
    if text == [] {
    } else {
      assert text[0] == b[0] && text == [text[0]] + text[1..] && b == [b[0]] + b[1..];
      UpToNulOnce(b[1..], text[1..]);
    }
  }

  lemma TextOnce(b: seq<byte>, p: seq<byte>)
    requires exists k: nat :: Text(b, k, p)
    ensures p == Prefixed(CString(b))
  {
    hide Delimited, Prefixed, UpToNul;
    var k: nat :| Text(b, k, p);
    DelimitedExactly(p, b[..k]);
    UpToNulOnce(b, b[..k]);
  }

  lemma ScalarOnce(f: Field, v: Value, p: seq<byte>)
    requires EncScalar(f, v).Some? && ScalarPayload(f, v, p)
    ensures EncScalar(f, v) == Some(p)
  {
    hide EncVarint, LittleEndian, Prefixed, Delimited, CString, ZigZag, AsWord64, IsNumber, Text, Weighted;
    match f.ltype {
      case LBool => BoolByte(v.flag);
      case LVarint => WordIsRemainder(v.n); NumberExactly(p, AsWord64(v.n));
      case LUVarint => NumberExactly(p, v.n);
      case LSVarint => ZigZagBijection(v.n, 0); NumberExactly(p, ZigZag(v.n));
      case LFixed32 => WeighsOnce(p);
      case LFixed64 => WeighsOnce(p);
      case LBytes => DelimitedExactly(p, v.bytes);
      case LString => TextOnce(v.bytes, p);
      case LFixedBytes => DelimitedExactly(p, v.bytes);
    }
  }

  lemma {:induction false} ValueOnce(f: Field, v: Value, p: seq<byte>)
    requires EncValue(f, v).Some? && Payload(f, v, p)
    ensures EncValue(f, v) == Some(p)
    decreases f, 0
  {
    hide EncScalar, ScalarPayload, EncMsg, Message, IsNumber, EncVarint;
    if f.ltype.LSubmessage? {
      var k :| 0 <= k <= |p| && IsNumber(p[..k], |p[k..]| % 0x1_0000_0000_0000_0000)
            && Message(f.ltype.sub, 0, v.slots, p[k..]);
      MessageOnce(f.ltype.sub, 0, v.slots, p[k..]);
      NumberExactly(p[..k], U64(|p[k..]|));
      Rejoin(p, k);
    } else {
      ScalarOnce(f, v, p);
    }
  }

  lemma {:induction false} TaggedOnce(f: Field, v: Value, s: seq<byte>)
    requires EncTagged(f, v).Some? && Record(f, v, s)
    ensures EncTagged(f, v) == Some(s)
    decreases f, 1
  {
    hide EncValue, Payload, IsNumber, EncVarint;
    WireTypesAgree(f.ltype);
    var k :| 0 <= k <= |s| && IsNumber(s[..k], 8 * f.tag + WireTypeFor(f.ltype)) && Payload(f, v, s[k..]);
    NumberExactly(s[..k], 8 * f.tag + WireType(f.ltype));
    ValueOnce(f, v, s[k..]);
    Rejoin(s, k);
  }

  lemma {:induction false} UnpackedOnce(f: Field, items: seq<Value>, s: seq<byte>)
    requires EncUnpacked(f, items).Some? && Records(f, items, s)
    ensures EncUnpacked(f, items) == Some(s)
    decreases f, 2, |items|
  {
    hide EncTagged, Record;
    if items == [] {
    } else {
      var k :| 0 <= k <= |s| && Record(f, items[0], s[..k]) && Records(f, items[1..], s[k..]);
      TaggedOnce(f, items[0], s[..k]);
      UnpackedOnce(f, items[1..], s[k..]);
      Rejoin(s, k);
    }
  }

  lemma {:induction false} ItemsOnce(f: Field, items: seq<Value>, s: seq<byte>)
    requires EncItems(f, items).Some? && Payloads(f, items, s)
    ensures EncItems(f, items) == Some(s)
    decreases f, 2, |items|
  {
    hide EncValue, Payload;
    if items == [] {
    } else {
      var k :| 0 <= k <= |s| && Payload(f, items[0], s[..k]) && Payloads(f, items[1..], s[k..]);
      ValueOnce(f, items[0], s[..k]);
      ItemsOnce(f, items[1..], s[k..]);
      Rejoin(s, k);
    }
  }

  lemma {:induction false} PackedOnce(f: Field, items: seq<Value>, s: seq<byte>)
    requires EncPacked(f, items).Some? && Packed(f, items, s)
    ensures EncPacked(f, items) == Some(s)
    decreases f, 3
  {
    hide EncItems, Payloads, IsNumber, EncVarint;
    var k, j :| 0 <= k <= j <= |s| && IsNumber(s[..k], 8 * f.tag + 2)
             && IsNumber(s[k..j], |s[j..]| % 0x1_0000_0000_0000_0000) && Payloads(f, items, s[j..]);
    NumberExactly(s[..k], 8 * f.tag + 2);
    NumberExactly(s[k..j], U64(|s[j..]|));
    ItemsOnce(f, items, s[j..]);
    assert s == s[..k] + (s[k..j] + s[j..]);
  }

  lemma {:induction false} PositionOnce(f: Field, s: Slot, b: seq<byte>)
    requires EncSlot(f, s).Some? && Position(f, s, b)
    ensures EncSlot(f, s) == Some(b)
    decreases f, 4
  {
    hide EncTagged, EncPacked, EncUnpacked, Record, Records, Packed, IsZeroValue, Blank;
    WireTypesAgree(f.ltype);
    match s
    case Plain(v) =>
      ZeroIsBlank(f, v);
      if Record(f, v, b) && EncTagged(f, v).Some? { TaggedOnce(f, v, b); }
    case Opt(_, v) => if Record(f, v, b) && EncTagged(f, v).Some? { TaggedOnce(f, v, b); }
    case Rep(items) =>
      if EncPacked(f, items).Some? && Packed(f, items, b) { PackedOnce(f, items, b); }
      if EncUnpacked(f, items).Some? && Records(f, items, b) { UnpackedOnce(f, items, b); }
    case Union(_, v) => if Record(f, v, b) && EncTagged(f, v).Some? { TaggedOnce(f, v, b); }
  }

  lemma {:induction false} MessageOnce(fields: seq<Field>, i: nat, msg: seq<Slot>, s: seq<byte>)
    requires i <= |fields| && EncMsg(fields, i, msg).Some? && Message(fields, i, msg, s)
    ensures EncMsg(fields, i, msg) == Some(s)
    decreases fields, |fields| - i
  {
    hide EncSlot, Position, SlotOf;
    if i == |fields| {
    } else {
      var slot := msg[SlotOf(fields, i)];
      var k :| 0 <= k <= |s| && Position(fields[i], slot, s[..k]) && Message(fields, i + 1, msg, s[k..]);
      PositionOnce(fields[i], slot, s[..k]);
      MessageOnce(fields, i + 1, msg, s[k..]);
      Rejoin(s, k);
    }
  }

  /** What the encoder emits is the message of the wire format: the records of the fields present, in
      the order of the descriptor, with the numbers that stand for their values; and nothing else is. */
  lemma EncoderConforms(fields: seq<Field>, msg: seq<Slot>, s: seq<byte>)
    requires Encode(fields, msg).Some?
    ensures Encode(fields, msg) == Some(s) <==> Message(fields, 0, msg, s)
  {
    MessageConforms(fields, 0, msg);
    if Message(fields, 0, msg, s) { MessageOnce(fields, 0, msg, s); }
  }
}
