/** A successful read depends only on the bytes it consumes: appending bytes to the input
    appends them to what is left over. */
module Locality {
  import opened Bits
  import opened Varint
  import opened Schema
  import opened Decoding

  /** `long` is the outcome of the same read with t appended to the input. */
  predicate Extends<T(==)>(short: Parse<T>, long: Parse<T>, t: seq<byte>)
  {
    short.Got? ==> long == Got(short.value, short.rest + t)
  }

  lemma Front(s: seq<byte>, t: seq<byte>)
    requires s != []
    ensures (s + t)[0] == s[0] && (s + t)[1..] == s[1..] + t
  {
  }

  lemma {:induction false} Varint64LoopLocal(s: seq<byte>, t: seq<byte>, k: nat, acc: nat)
    ensures Extends(Varint64Loop(s, k, acc), Varint64Loop(s + t, k, acc), t)
    decreases |s|
  {
    hide BitOr, Shl;
    if s == [] || k >= 64 {
    } else {
      Front(s, t);
      if s[0] >= 0x80 { Varint64LoopLocal(s[1..], t, k + 7, BitOr(acc, U64(Shl(s[0] % 0x80, k)))); }
    }
  }

  lemma {:induction false} Varint32LoopLocal(s: seq<byte>, t: seq<byte>, k: nat, acc: nat)
    ensures Extends(Varint32Loop(s, k, acc), Varint32Loop(s + t, k, acc), t)
    decreases |s|
  {
    hide BitOr, Shl;
    if s == [] {
    } else {
      Front(s, t);
      if s[0] >= 0x80 {
        Varint32LoopLocal(s[1..], t, (k + 7) % 0x100, if k >= 32 then acc else BitOr(acc, U32(Shl(s[0] % 0x80, k))));
      }
    }
  }

  lemma Varint32Local(s: seq<byte>, t: seq<byte>)
    ensures Extends(DecVarint32(s), DecVarint32(s + t), t)
  {
    hide Varint32Loop;
    if s != [] {
      Front(s, t);
      if s[0] >= 0x80 { Varint32LoopLocal(s[1..], t, 7, s[0] % 0x80); }
    }
  }

  lemma {:induction false} SkipVarintLocal(s: seq<byte>, t: seq<byte>)
    ensures Extends(SkipVarint(s), SkipVarint(s + t), t)
    decreases |s|
  {
    if s == [] {
    } else {
      Front(s, t);
      if s[0] >= 0x80 { SkipVarintLocal(s[1..], t); }
    }
  }

  lemma TakeLocal(s: seq<byte>, t: seq<byte>, n: nat)
    ensures Extends(Take(s, n), Take(s + t, n), t)
  {
    if n <= |s| {
      assert (s + t)[..n] == s[..n] && (s + t)[n..] == s[n..] + t;
    }
  }

  lemma PrefixedLocal(s: seq<byte>, t: seq<byte>)
    ensures Extends(DecPrefixed(s), DecPrefixed(s + t), t)
  {
    hide DecVarint32, Take;
    Varint32Local(s, t);
    if DecVarint32(s).Got? { TakeLocal(DecVarint32(s).rest, t, DecVarint32(s).value); }
  }

  lemma SkipFieldLocal(wireType: nat, s: seq<byte>, t: seq<byte>)
    ensures Extends(SkipField(wireType, s), SkipField(wireType, s + t), t)
  {
    hide DecPrefixed, Take, SkipVarint;
    SkipVarintLocal(s, t);
    TakeLocal(s, t, 8);
    TakeLocal(s, t, 4);
    PrefixedLocal(s, t);
  }

  lemma DecTagLocal(s: seq<byte>, t: seq<byte>)
    ensures match DecTag(s)
            case Bad => true
            case Stop(rest) => DecTag(s + t) == Stop(rest + t)
            case Tag(tag, wireType, rest) => DecTag(s + t) == Tag(tag, wireType, rest + t)
  {
    hide DecVarint32;
    Varint32Local(s, t);
  }

  lemma DecSizedLocal(f: Field, s: seq<byte>, t: seq<byte>)
    ensures Extends(DecBytes(f, s), DecBytes(f, s + t), t)
    ensures Extends(DecString(f, s), DecString(f, s + t), t)
    ensures Extends(DecFixedBytes(f, s), DecFixedBytes(f, s + t), t)
  {
    hide DecVarint32, Take;
    Varint32Local(s, t);
    if DecVarint32(s).Got? { TakeLocal(DecVarint32(s).rest, t, DecVarint32(s).value); }
  }

  lemma DecIntegerLocal(f: Field, s: seq<byte>, t: seq<byte>)
    ensures Extends(DecInteger(f, s), DecInteger(f, s + t), t)
  {
    hide Varint64Loop, ClampVarint, ClampUVarint, ClampSVarint;
    Varint64LoopLocal(s, t, 0, 0);
  }

  lemma DecScalarLocal(f: Field, s: seq<byte>, t: seq<byte>)
    ensures Extends(DecScalar(f, s), DecScalar(f, s + t), t)
  {
    hide DecVarint32, DecInteger, Take, DecBytes, DecString, DecFixedBytes, FromLittleEndian;
    Varint32Local(s, t);
    DecIntegerLocal(f, s, t);
    TakeLocal(s, t, 4);
    TakeLocal(s, t, 8);
    DecSizedLocal(f, s, t);
  }

  lemma DecValueLocal(f: Field, prior: Value, s: seq<byte>, t: seq<byte>)
    ensures Extends(DecValue(f, prior, s), DecValue(f, prior, s + t), t)
  {
    hide DecPrefixed, DecScalar, DecodeInto;
    PrefixedLocal(s, t);
    DecScalarLocal(f, s, t);
  }

  lemma DecPackedRecordLocal(f: Field, items: seq<Value>, count: nat, s: seq<byte>, t: seq<byte>)
    requires count <= |items|
    ensures Extends(DecPackedRecord(f, items, count, s), DecPackedRecord(f, items, count, s + t), t)
  {
    hide DecPrefixed, PackedLoop;
    PrefixedLocal(s, t);
  }

  lemma DecStaticLocal(f: Field, wireType: nat, slot: Slot, count: nat, s: seq<byte>, t: seq<byte>)
    ensures Extends(DecStatic(f, wireType, slot, count, s), DecStatic(f, wireType, slot, count, s + t), t)
  {
    hide DecValue, DecPackedRecord, NewItem;
    match f.htype {
      case Required => if slot.Plain? { DecValueLocal(f, slot.v, s, t); }
      case Optional => if slot.Plain? || slot.Opt? { DecValueLocal(f, slot.v, s, t); }
      case Repeated =>
        if slot.Rep? && count <= |slot.items| { DecPackedRecordLocal(f, slot.items, count, s, t); }
        DecValueLocal(f, NewItem(f), s, t);
      case OneOf => DecValueLocal(f, NewItem(f), s, t);
    }
  }

  lemma DecRecordAtLocal(fields: seq<Field>, st: State, i: nat, wireType: nat, s: seq<byte>, t: seq<byte>)
    requires i < |fields|
    ensures Extends(DecRecordAt(fields, st, i, wireType, s), DecRecordAt(fields, st, i, wireType, s + t), t)
  {
    hide DecStatic, SlotOf, FixedComplete, RequiredBefore, CountOf;
    var k := SlotOf(fields, i);
    if k < |st.msg| && EnterFixed(fields, st, i).Some? {
      var st' := MarkSeen(fields, EnterFixed(fields, st, i).value, i);
      DecStaticLocal(fields[i], wireType, st'.msg[k], CountOf(fields[i], st'.msg[k], st'), s, t);
    }
  }

  lemma DecRecordLocal(fields: seq<Field>, st: State, tag: nat, wireType: nat, s: seq<byte>, t: seq<byte>)
    ensures Extends(DecRecord(fields, st, tag, wireType, s), DecRecord(fields, st, tag, wireType, s + t), t)
  {
    hide DecRecordAt, SkipField, Find, DecVarint32;
    Varint32Local(s, t);
    SkipFieldLocal(wireType, s, t);
    if Find(fields, tag).Some? { DecRecordAtLocal(fields, st, Find(fields, tag).value, wireType, s, t); }
  }
}
