/** The encoder of pb_encode.c: streams, field encoders and the message loop. */
module PbEncode {
  import opened Bits
  import opened Varint
  import opened VarintLaws
  import opened Options
  import opened Schema
  import opened Encoding
  import opened FieldIter
  import opened Framing

  /** pb_ostream_t on a memory buffer, or a sizing stream (`callback == NULL`). */
  class OStream {
    var buffer: array<byte>
    var callback: bool
    var state: nat
    var maxSize: nat
    var bytesWritten: nat
    ghost var start: nat
    ghost var out: seq<byte>

    /** `out` is what the stream has emitted; a writing stream has it in the buffer and never
        exceeds `maxSize`. */
    ghost predicate Valid()
      reads this, buffer
    {
      && bytesWritten == |out|
      && (callback ==>
            && start + maxSize <= buffer.Length && |out| <= maxSize
            && state == start + |out| && buffer[start..state] == out)
    }

    ghost function Room(): int
      reads this
    {
      maxSize - |out|
    }

    /** pb_ostream_from_buffer */
    constructor FromBuffer(buf: array<byte>, size: nat)
      requires size <= buf.Length
      ensures Valid() && callback && buffer == buf && out == [] && maxSize == size && start == 0
    {
      buffer, callback, state, maxSize, bytesWritten, start, out := buf, true, 0, size, 0, 0, [];
    }

    /** PB_OSTREAM_SIZING */
    constructor Sizing()
      ensures Valid() && !callback && fresh(buffer) && out == []
    {
      buffer := new byte[0];
      callback, state, maxSize, bytesWritten, start, out := false, 0, 0, 0, 0, [];
    }

    /** Emitting e succeeds exactly when e exists and there is room for all of it. Only the bytes
        counted in `out` are written. */
    twostate predicate Emits(new e: Option<seq<byte>>, ok: bool)
      reads this, buffer
    {
      && buffer == old(buffer) && callback == old(callback) && maxSize == old(maxSize) && start == old(start)
      && Valid()
      && ok == (e.Some? && (callback ==> |e.value| <= old(Room())))
      && (ok ==> out == old(out) + e.value)
      && old(out) <= out
      && (callback ==> Untouched(old(start + |out|), start + |out|))
    }

    /** The buffer outside [lo, hi) is as it was. */
    twostate predicate Untouched(lo: nat, hi: nat)
      requires buffer == old(buffer)
      reads this, buffer
    {
      forall k | 0 <= k < buffer.Length && !(lo <= k < hi) :: buffer[k] == old(buffer[k])
    }

    /** The substream of pb_encode_submessage: the next `size` bytes of a writing stream. */
    constructor Within(parent: OStream, size: nat)
      requires parent.Valid() && parent.callback && size <= parent.Room()
      ensures Valid() && callback && buffer == parent.buffer && out == []
      ensures maxSize == size && start == parent.state
    {
      buffer, callback, state, maxSize, bytesWritten := parent.buffer, true, parent.state, size, 0;
      start, out := parent.state, [];
    }

    /** pb_write of `size` bytes without data, which a sizing stream only counts. */
    method Count(size: nat, ghost data: seq<byte>) returns (ok: bool)
      requires Valid() && !callback && |data| == size
      modifies this
      ensures Emits(Some(data), ok)
    {
      bytesWritten := bytesWritten + size;
      out := out + data;
      return true;
    }

    /** pb_write */
    method Write(data: seq<byte>) returns (ok: bool)
      requires Valid()
      modifies this, buffer
      ensures Emits(Some(data), ok)
    {
      if |data| > 0 && callback {
        if bytesWritten + |data| > maxSize { return false; }
        var i := 0;
        while i < |data|
          invariant 0 <= i <= |data|
          invariant buffer == old(buffer) && Valid()
          invariant unchanged(this)
          invariant buffer[state..state + i] == data[..i]
          invariant Untouched(state, state + i)
        {
          buffer[state + i] := data[i];
          i := i + 1;
        }
        state := state + |data|;
      }
      bytesWritten := bytesWritten + |data|;
      out := out + data;
      return true;
    }
  }

  /** pb_encode_varint */
  method EncodeVarint(stream: OStream, value: nat) returns (ok: bool)
    requires stream.Valid() && value < TWO64
    modifies stream, stream.buffer
    ensures stream.Emits(Some(EncVarint(value)), ok)
  {
    if value <= 0x7F {
      ok := stream.Write([value]);
      return;
    }
    var bytes := VarintBytes(value);
    ok := stream.Write(bytes);
  }

  /** The encoding of a value, from the groups already stored with their continuation bits and
      the value that is left: the last stored byte loses its continuation bit. */
  ghost function Finish(groups: seq<byte>, rest: nat): seq<byte>
  {
    if rest != 0 then groups + EncVarint(rest)
    else if groups == [] || groups[|groups| - 1] < 0x80 then groups
    else groups[..|groups| - 1] + [groups[|groups| - 1] - 0x80]
  }

  lemma FinishStep(groups: seq<byte>, rest: nat)
    requires rest != 0
    ensures Finish(groups, rest) == Finish(groups + [rest % 0x80 + 0x80], rest / 0x80)
    ensures |groups| < |Finish(groups, rest)|
  {
  }

  lemma FinishStart(value: nat)
    requires value != 0
    ensures Finish([], value) == EncVarint(value)
  {
    hide EncVarint;
    assert [] + EncVarint(value) == EncVarint(value);
  }

  lemma FinishEnd(groups: seq<byte>)
    requires groups != [] && groups[|groups| - 1] >= 0x80
    ensures Finish(groups, 0) == groups[|groups| - 1 := groups[|groups| - 1] - 0x80]
  {
  }

  /** The loop that fills the encoder's ten-byte buffer. */
  method VarintBytes(value: nat) returns (bytes: seq<byte>)
    requires 0x80 <= value < TWO64
    ensures bytes == EncVarint(value)
  {
    hide EncVarint, Finish;
    var buffer := new byte[10];
    var i: nat, rest: nat := 0, value;
    EncVarintFitsBuffer(value);
    FinishStart(value);
    while rest != 0
      invariant i <= 10
      invariant EncVarint(value) == Finish(buffer[..i], rest)
      invariant rest == 0 ==> i > 0 && buffer[i - 1] >= 0x80
      decreases rest
    {
      FinishStep(buffer[..i], rest);
      ghost var groups := buffer[..i];
      buffer[i] := rest % 0x80 + 0x80;
      assert buffer[..i + 1] == groups + [buffer[i]];
      rest := rest / 0x80;
      i := i + 1;
    }
    FinishEnd(buffer[..i]);
    ghost var groups := buffer[..i];
    buffer[i - 1] := buffer[i - 1] - 0x80;
    bytes := buffer[..i];
    assert bytes == groups[i - 1 := bytes[i - 1]];
  }

  /** The loop of pb_encode_negative_varint: 32-bit arithmetic emits the ten bytes of the
      sign-extended 64-bit value. */
  method NegativeVarintBytes(value: nat) returns (bytes: seq<byte>)
    requires 0x8000_0000 <= value < TWO32
    ensures bytes == EncVarint(value + (TWO64 - TWO32)) && |bytes| == 10
  {
    hide EncVarint, Finish, BitXor, Pow2, CompensationMask, Emulates;
    ghost var n := value + (TWO64 - TWO32);
    ghost var wide: nat := n;
    var buffer := new byte[10];
    var i: nat, word: nat, compensation: nat := 0, value, 32;
    NegativeLength(n);
    EmulationStart(value);
    FinishStart(n);
    while word != 0
      invariant i <= 10
      invariant Emulates(word, compensation, wide)
      invariant EncVarint(n) == Finish(buffer[..i], wide)
      invariant word == 0 ==> wide == 0 && i > 0 && buffer[i - 1] >= 0x80
      decreases compensation, word
    {
      EmulationRound(word, compensation, wide);
      FinishStep(buffer[..i], wide);
      ghost var groups := buffer[..i];
      buffer[i] := word % 0x80 + 0x80;
      assert buffer[..i + 1] == groups + [buffer[i]];
      word := word / 0x80;
      if compensation != 0 {
        var bits := if compensation > 7 then 7 else compensation;
        word := BitXor(word, CompensationMask(bits));
        compensation := compensation - bits;
      }
      i := i + 1;
      wide := wide / 0x80;
    }
    FinishEnd(buffer[..i]);
    ghost var groups := buffer[..i];
    buffer[i - 1] := buffer[i - 1] - 0x80;
    bytes := buffer[..i];
    assert bytes == groups[i - 1 := bytes[i - 1]];
  }

  lemma EmulationStart(value: nat)
    requires 0x8000_0000 <= value < TWO32
    ensures Emulates(value, 32, value + (TWO64 - TWO32))
  {
    hide Pow2;
    Pow2Values();
  }

  /** A round of the emulation, in either phase. */
  lemma EmulationRound(word: nat, compensation: nat, wide: nat)
    requires Emulates(word, compensation, wide) && word != 0
    ensures wide != 0 && wide % 0x80 == word % 0x80
    ensures if compensation == 0 then Emulates(word / 0x80, 0, wide / 0x80) && (word / 0x80 == 0 ==> wide / 0x80 == 0)
            else var bits := if compensation > 7 then 7 else compensation;
              && Emulates(BitXor(word / 0x80, CompensationMask(bits)), compensation - bits, wide / 0x80)
              && BitXor(word / 0x80, CompensationMask(bits)) != 0
  {
    hide BitXor, Pow2, CompensationMask;
    if compensation != 0 {
      EmulationStep(word, compensation, wide);
      EmulationNonZero(word, compensation, wide);
    }
  }

  lemma EmulationNonZero(word: nat, compensation: nat, wide: nat)
    requires Emulates(word, compensation, wide) && compensation != 0
    ensures var bits := if compensation > 7 then 7 else compensation;
            BitXor(word / 0x80, CompensationMask(bits)) != 0
  {
    hide BitXor, Pow2, CompensationMask;
    var bits := if compensation > 7 then 7 else compensation;
    XorMask(word / 0x80, bits);
    MaskValues();
  }

  lemma NegativeLength(n: nat)
    requires TWO64 - 0x8000_0000 <= n < TWO64
    ensures |EncVarint(n)| == 10
  {
    hide EncVarint, Pow2;
    Pow2Values();
    EncVarintFitsBuffer(n);
    EncVarintLength(n, 9);
  }

  /** pb_encode_svarint */
  method EncodeSVarint(stream: OStream, value: int) returns (ok: bool)
    requires stream.Valid() && IsInt64(value)
    modifies stream, stream.buffer
    ensures stream.Emits(Some(EncVarint(ZigZag(value))), ok)
  {
    ZigZagBijection(value, 0);
    ok := EncodeVarint(stream, if value < 0 then Not64(U64(2 * AsWord64(value))) else U64(2 * AsWord64(value)));
  }

  /** pb_encode_fixed32 */
  method EncodeFixed32(stream: OStream, value: nat) returns (ok: bool)
    requires stream.Valid() && value < TWO32
    modifies stream, stream.buffer
    ensures stream.Emits(Some(LittleEndian(value, 4)), ok)
  {
    var bytes: seq<byte> := [value % 0x100, value / 0x100 % 0x100,
      value / 0x1_0000 % 0x100, value / 0x100_0000 % 0x100];
    LittleEndian4(value);
    ok := stream.Write(bytes);
  }

  lemma LittleEndian4(value: nat)
    ensures LittleEndian(value, 4) ==
            [value % 0x100, value / 0x100 % 0x100, value / 0x1_0000 % 0x100, value / 0x100_0000 % 0x100]
  {
    var a := value / 0x100;
    var b := a / 0x100;
    var c := b / 0x100;
    assert b == value / 0x1_0000 && c == value / 0x100_0000;
    assert LittleEndian(value, 4) == [value % 0x100] + LittleEndian(a, 3);
    assert LittleEndian(a, 3) == [a % 0x100] + LittleEndian(b, 2);
    assert LittleEndian(b, 2) == [b % 0x100] + LittleEndian(c, 1);
  }

  /** pb_encode_fixed64 */
  method EncodeFixed64(stream: OStream, value: nat) returns (ok: bool)
    requires stream.Valid() && value < TWO64
    modifies stream, stream.buffer
    ensures stream.Emits(Some(LittleEndian(value, 8)), ok)
  {
    var high := value / 0x1_0000_0000;
    var bytes: seq<byte> :=
      [value % 0x100, value / 0x100 % 0x100, value / 0x1_0000 % 0x100, value / 0x100_0000 % 0x100] +
      [high % 0x100, high / 0x100 % 0x100, high / 0x1_0000 % 0x100, high / 0x100_0000 % 0x100];
    LittleEndian4(value);
    LittleEndian4(high);
    LittleEndianSplit(value);
    ok := stream.Write(bytes);
  }

  lemma LittleEndianSplit(value: nat)
    ensures LittleEndian(value, 8) == LittleEndian(value, 4) + LittleEndian(value / 0x1_0000_0000, 4)
  {
    var a := value / 0x100;
    var b := a / 0x100;
    var c := b / 0x100;
    var d := c / 0x100;
    assert d == value / 0x1_0000_0000;
    assert LittleEndian(value, 8) == [value % 0x100] + LittleEndian(a, 7);
    assert LittleEndian(a, 7) == [a % 0x100] + LittleEndian(b, 6);
    assert LittleEndian(b, 6) == [b % 0x100] + LittleEndian(c, 5);
    assert LittleEndian(c, 5) == [c % 0x100] + LittleEndian(d, 4);
    assert LittleEndian(value, 4) == [value % 0x100] + LittleEndian(a, 3);
    assert LittleEndian(a, 3) == [a % 0x100] + LittleEndian(b, 2);
    assert LittleEndian(b, 2) == [b % 0x100] + LittleEndian(c, 1);
    assert LittleEndian(c, 1) == [c % 0x100];
  }

  /** pb_encode_tag */
  method EncodeTag(stream: OStream, wireType: nat, tag: nat) returns (ok: bool)
    requires stream.Valid() && wireType < 8 && tag <= PB_SIZE_MAX
    modifies stream, stream.buffer
    ensures stream.Emits(Some(EncTag(wireType, tag)), ok)
  {
    ok := EncodeVarint(stream, 8 * tag + wireType);
  }

  /** pb_encode_tag_for_field */
  method EncodeTagForField(stream: OStream, f: Field) returns (ok: bool)
    requires stream.Valid() && WellFormedField(f)
    modifies stream, stream.buffer
    ensures stream.Emits(Some(EncTag(WireType(f.ltype), f.tag)), ok)
  {
    hide WellFormed;
    var wireType;
    match f.ltype {
      case LBool | LVarint | LUVarint | LSVarint => wireType := WT_VARINT;
      case LFixed32 => wireType := WT_32BIT;
      case LFixed64 => wireType := WT_64BIT;
      case _ => wireType := WT_STRING;
    }
    ok := EncodeTag(stream, wireType, f.tag);
  }

  /** pb_encode_string */
  method EncodeString(stream: OStream, data: seq<byte>) returns (ok: bool)
    requires stream.Valid()
    modifies stream, stream.buffer
    ensures stream.Emits(Some(Prefixed(data)), ok)
  {
    hide EncVarint;
    ok := EncodeVarint(stream, U64(|data|));
    if !ok { return; }
    ok := stream.Write(data);
  }

  /** pb_enc_string: the length of the string is found with a loop. */
  method EncodeCString(stream: OStream, f: Field, data: seq<byte>) returns (ok: bool)
    requires stream.Valid() && |data| <= f.dataSize && (|data| == f.dataSize || 0 in data)
    modifies stream, stream.buffer
    ensures stream.Emits(Some(Prefixed(CString(data))), ok)
  {
    hide EncVarint, CString;
    var size := StringLength(data, f.dataSize);
    ok := EncodeString(stream, data[..size]);
  }

  /** The scan for the NUL, which stops at the end of the field. */
  method StringLength(data: seq<byte>, maxSize: nat) returns (size: nat)
    requires |data| <= maxSize && (|data| == maxSize || 0 in data)
    ensures size <= |data| && data[..size] == CString(data)
  {
    hide CString;
    size := 0;
    assert data[0..] == data;
    while size < maxSize && data[size] != 0
      invariant size <= |data| && 0 !in data[..size]
      invariant CString(data) == data[..size] + CString(data[size..])
    {
      CStringStep(data, size);
      size := size + 1;
    }
    CStringEnds(data, size);
  }

  lemma CStringStep(data: seq<byte>, size: nat)
    requires size < |data| && data[size] != 0
    ensures data[..size] + CString(data[size..]) == data[..size + 1] + CString(data[size + 1..])
  {
    assert data[size..][1..] == data[size + 1..];
    assert CString(data[size..]) == [data[size]] + CString(data[size + 1..]);
    hide CString;
    assert data[..size] + [data[size]] == data[..size + 1];
  }

  lemma CStringEnds(data: seq<byte>, size: nat)
    requires size <= |data| && (size == |data| || data[size] == 0)
    ensures data[..size] + CString(data[size..]) == data[..size]
  {
    assert CString(data[size..]) == [];
  }

  // --------------------------------------------------------------------------
  // Fields and messages
  // --------------------------------------------------------------------------

  /** The field encoders of all types but submessages. */
  method EncodeScalar(stream: OStream, f: Field, v: Value) returns (ok: bool)
    requires stream.Valid() && ScalarFits(f, v)
    modifies stream, stream.buffer
    ensures stream.Emits(EncScalar(f, v), ok)
  {
    hide EncVarint, ZigZag, LittleEndian, CString, Prefixed, Matches;
    match f.ltype {
      case LBool => ok := EncodeVarint(stream, if v.flag then 1 else 0);
      case LVarint =>
        if !ValidWidth(f.dataSize) { return false; }
        ok := EncodeVarint(stream, AsWord64(v.n));
      case LUVarint =>
        if !ValidWidth(f.dataSize) { return false; }
        ok := EncodeVarint(stream, v.n);
      case LSVarint =>
        if !ValidWidth(f.dataSize) { return false; }
        ok := EncodeSVarint(stream, v.n);
      case LFixed32 => ok := EncodeFixed32(stream, v.n);
      case LFixed64 => ok := EncodeFixed64(stream, v.n);
      case LBytes =>
        if |v.bytes| + BYTES_HEADER > f.dataSize { return false; }
        ok := EncodeString(stream, v.bytes);
      case LString => ok := EncodeCString(stream, f, v.bytes);
      case LFixedBytes => ok := EncodeString(stream, v.bytes);
    }
  }

  method EncodeValue(stream: OStream, f: Field, v: Value) returns (ok: bool)
    requires stream.Valid() && WellFormedField(f) && ValueFits(f, v)
    modifies stream, stream.buffer
    ensures stream.Emits(EncValue(f, v), ok)
    decreases f, 1
  {
    hide EncMsg, EncScalar, WellFormed, Matches, ScalarFits;
    if f.ltype.LSubmessage? {
      ok := EncodeSubmessage(stream, f.ltype.sub, v.slots);
    } else {
      ok := EncodeScalar(stream, f, v);
    }
  }

  /** pb_encode_submessage: size the message on a sizing stream, write the size, then encode again
      into the next `size` bytes. The second encoding always has the size of the first. */
  method EncodeSubmessage(stream: OStream, fields: seq<Field>, msg: seq<Slot>) returns (ok: bool)
    requires stream.Valid() && WellFormed(fields) && Matches(fields, msg)
    modifies stream, stream.buffer
    ensures var body := Encode(fields, msg);
            stream.Emits(if body.None? then None else Some(Prefixed(body.value)), ok)
    decreases fields, 2
  {
    hide EncMsg, EncVarint, WellFormed, Matches;
    var sizing := new OStream.Sizing();
    ok := EncodeMessage(sizing, fields, msg);
    if !ok { return false; }
    var size := sizing.bytesWritten;
    ok := EncodeVarint(stream, U64(size));
    if !ok { return false; }
    if !stream.callback {
      ok := stream.Count(size, sizing.out);
      return;
    }
    ok := EncodeWithin(stream, fields, msg, size);
  }

  /** The second encoding, on a substream that ends after `size` bytes: it succeeds whenever the
      bytes fit, and "submsg size changed" never happens. */
  method EncodeWithin(stream: OStream, fields: seq<Field>, msg: seq<Slot>, size: nat) returns (ok: bool)
    requires stream.Valid() && stream.callback && WellFormed(fields) && Matches(fields, msg)
    requires Encode(fields, msg).Some? && size == |Encode(fields, msg).value|
    modifies stream, stream.buffer
    ensures stream.Emits(Encode(fields, msg), ok)
    decreases fields, 1
  {
    hide Encode, WellFormed, Matches;
    if stream.bytesWritten + size > stream.maxSize { return false; }
    var substream := new OStream.Within(stream, size);
    var status := EncodeMessage(substream, fields, msg);
    assert stream.buffer[stream.start..substream.state] ==
           stream.buffer[stream.start..stream.state] + stream.buffer[stream.state..substream.state];
    assert stream.buffer[stream.start..stream.state] == stream.out;
    stream.bytesWritten := stream.bytesWritten + substream.bytesWritten;
    stream.state := substream.state;
    stream.out := stream.out + substream.out;
    assert status && substream.bytesWritten == size;
    ok := status && substream.bytesWritten == size;
  }

  method EncodeTagged(stream: OStream, f: Field, v: Value) returns (ok: bool)
    requires stream.Valid() && WellFormedField(f) && ValueFits(f, v)
    modifies stream, stream.buffer
    ensures stream.Emits(EncTagged(f, v), ok)
    decreases f, 2
  {
    hide EncTag, EncValue, WellFormedField, ValueFits;
    ok := EncodeTagForField(stream, f);
    if !ok { return; }
    ok := EncodeValue(stream, f, v);
  }

  lemma CatStep(done: seq<byte>, a: Option<seq<byte>>, b: Option<seq<byte>>)
    ensures a.Some? ==> Cat(Some(done), Cat(a, b)) == Cat(Some(done + a.value), b)
    ensures a.None? ==> Cat(Some(done), Cat(a, b)) == None
    ensures Cat(Some(done), Some([])) == Some(done) && Cat(Some([]), b) == b
    ensures Cat(Some(done), Cat(a, b)).Some? ==> |done| + |a.value| <= |Cat(Some(done), Cat(a, b)).value|
  {
    if a.Some? && b.Some? { assert done + (a.value + b.value) == done + a.value + b.value; }
    if b.Some? { assert [] + b.value == b.value; }
    assert done + [] == done;
  }

  /** The loop over the items of a packed array, used to size and to write. */
  method EncodeItems(stream: OStream, f: Field, items: seq<Value>) returns (ok: bool)
    requires stream.Valid() && !f.ltype.LSubmessage? && forall k | 0 <= k < |items| :: ScalarFits(f, items[k])
    modifies stream, stream.buffer
    ensures stream.Emits(EncItems(f, items), ok)
  {
    hide EncScalar, ScalarFits, Cat, EncItems;
    var i := 0;
    ghost var done: seq<byte> := [];
    CatStep([], None, EncItems(f, items));
    assert items[0..] == items;
    while i < |items|
      invariant i <= |items|
      invariant stream.Emits(Some(done), true)
      invariant EncItems(f, items) == Cat(Some(done), EncItems(f, items[i..]))
    {
      ItemsStep(f, items, i);
      CatStep(done, EncScalar(f, items[i]), EncItems(f, items[i + 1..]));
      ok := EncodeScalar(stream, f, items[i]);
      if !ok { return; }
      done := done + EncScalar(f, items[i]).value;
      i := i + 1;
    }
    ItemsEnd(f);
    CatStep(done, None, None);
    assert items[i..] == [];
    ok := true;
  }

  lemma ItemsStep(f: Field, items: seq<Value>, i: nat)
    requires i < |items| && !f.ltype.LSubmessage?
    ensures EncItems(f, items[i..]) == Cat(EncScalar(f, items[i]), EncItems(f, items[i + 1..]))
  {
    hide EncScalar;
    assert items[i..][1..] == items[i + 1..];
    assert EncValue(f, items[i]) == EncScalar(f, items[i]);
  }

  lemma ItemsEnd(f: Field)
    ensures EncItems(f, []) == Some([]) && EncUnpacked(f, []) == Some([])
  {
  }

  /** Items of fixed width need no sizing pass. */
  lemma {:induction false} FixedItemsLength(f: Field, items: seq<Value>, width: nat)
    requires if f.ltype.LFixed32? then width == 4 else f.ltype.LFixed64? && width == 8
    requires forall k | 0 <= k < |items| :: ScalarFits(f, items[k])
    ensures EncItems(f, items).Some? && |EncItems(f, items).value| == width * |items|
  {
    hide LittleEndian;
    if items == [] {
    } else {
      FixedItemsLength(f, items[1..], width);
      assert EncValue(f, items[0]) == EncScalar(f, items[0]);
    }
  }

  /** encode_array for packable types. */
  method EncodePacked(stream: OStream, f: Field, items: seq<Value>) returns (ok: bool)
    requires stream.Valid() && WellFormedField(f) && Packable(f.ltype)
      && forall k | 0 <= k < |items| :: ScalarFits(f, items[k])
    modifies stream, stream.buffer
    ensures stream.Emits(EncPacked(f, items), ok)
  {
    hide EncTag, EncItems, EncVarint, ScalarFits, WellFormedField;
    FieldTagFits(f);
    ok := EncodeTag(stream, WT_STRING, f.tag);
    if !ok { return; }
    var size, sized := PackedSize(f, items);
    if !sized { return false; }
    ok := EncodeVarint(stream, U64(size));
    if !ok { return; }
    if !stream.callback {
      ok := stream.Count(size, EncItems(f, items).value);
      return;
    }
    ok := EncodeItems(stream, f, items);
  }

  lemma FieldTagFits(f: Field)
    requires WellFormedField(f)
    ensures f.tag <= PB_SIZE_MAX
  {
  }

  /** The size of a packed array: computed for fixed-width items, measured for the others. */
  method PackedSize(f: Field, items: seq<Value>) returns (size: nat, ok: bool)
    requires Packable(f.ltype) && forall k | 0 <= k < |items| :: ScalarFits(f, items[k])
    ensures ok == EncItems(f, items).Some?
    ensures ok ==> size == |EncItems(f, items).value|
  {
    hide EncItems, ScalarFits;
    if f.ltype.LFixed32? {
      FixedItemsLength(f, items, 4);
      return 4 * |items|, true;
    } else if f.ltype.LFixed64? {
      FixedItemsLength(f, items, 8);
      return 8 * |items|, true;
    }
    var sizing := new OStream.Sizing();
    ok := EncodeItems(sizing, f, items);
    size := sizing.bytesWritten;
  }

  /** encode_array for the other types. */
  method EncodeUnpacked(stream: OStream, f: Field, items: seq<Value>) returns (ok: bool)
    requires stream.Valid() && WellFormedField(f) && forall k | 0 <= k < |items| :: ValueFits(f, items[k])
    modifies stream, stream.buffer
    ensures stream.Emits(EncUnpacked(f, items), ok)
    decreases f, 3
  {
    hide EncTagged, ValueFits, Cat, EncUnpacked, WellFormedField;
    var i := 0;
    ghost var done: seq<byte> := [];
    CatStep([], None, EncUnpacked(f, items));
    assert items[0..] == items;
    while i < |items|
      invariant i <= |items|
      invariant stream.Emits(Some(done), true)
      invariant EncUnpacked(f, items) == Cat(Some(done), EncUnpacked(f, items[i..]))
    {
      UnpackedStep(f, items, i);
      CatStep(done, EncTagged(f, items[i]), EncUnpacked(f, items[i + 1..]));
      ok := EncodeTagged(stream, f, items[i]);
      if !ok { return; }
      done := done + EncTagged(f, items[i]).value;
      i := i + 1;
    }
    ItemsEnd(f);
    CatStep(done, None, None);
    assert items[i..] == [];
    ok := true;
  }

  lemma UnpackedStep(f: Field, items: seq<Value>, i: nat)
    requires i < |items|
    ensures EncUnpacked(f, items[i..]) == Cat(EncTagged(f, items[i]), EncUnpacked(f, items[i + 1..]))
  {
    hide EncTagged;
    assert items[i..][1..] == items[i + 1..];
  }

  /** encode_array */
  method EncodeArray(stream: OStream, f: Field, items: seq<Value>) returns (ok: bool)
    requires stream.Valid() && WellFormedField(f) && forall k | 0 <= k < |items| :: ValueFits(f, items[k])
    modifies stream, stream.buffer
    ensures stream.Emits(EncArray(f, items), ok)
    decreases f, 4
  {
    hide EncPacked, EncUnpacked, ScalarFits, WellFormedField, Matches;
    if |items| == 0 { return true; }
    if |items| > f.arraySize { return false; }
    if Packable(f.ltype) {
      ok := EncodePacked(stream, f, items);
    } else {
      ok := EncodeUnpacked(stream, f, items);
    }
  }

  /** pb_check_proto3_default_value */
  method CheckProto3Default(f: Field, s: Slot) returns (isDefault: bool)
    requires SlotFits(f, s)
    ensures isDefault == IsZeroSlot(f, s)
    decreases f, 1
  {
    hide AllZero, Matches;
    if f.htype.Required? { return false; }
    if f.htype.Repeated? { return f.sizeOffset != 0 && |s.items| == 0; }
    if f.htype.OneOf? { return s.which == 0; }
    if f.sizeOffset != 0 { return !s.has; }
    match f.ltype {
      case LBytes => return |s.v.bytes| == 0;
      case LString => return |s.v.bytes| > 0 && s.v.bytes[0] == 0;
      case LFixedBytes => return f.dataSize == 0;
      case LSubmessage(sub) =>
        isDefault := CheckMessageDefault(sub, s.v.slots);
      case LBool => return !s.v.flag;
      case LVarint | LUVarint | LSVarint | LFixed32 | LFixed64 => return s.v.n == 0;
    }
  }

  /** The loop of pb_check_proto3_default_value over the fields of a submessage. */
  method CheckMessageDefault(fields: seq<Field>, msg: seq<Slot>) returns (isDefault: bool)
    requires Matches(fields, msg)
    ensures isDefault == AllZero(fields, msg)
    decreases fields, 0
  {
    hide SlotOf, SlotFits, IsZeroSlot;
    var iter := new Iter(fields);
    if fields == [] { return true; }
    while true
      invariant iter.Valid() && iter.start == fields && fresh(iter)
      invariant forall i | 0 <= i < iter.pos :: IsZeroSlot(fields[i], msg[SlotOf(fields, i)])
      decreases |fields| - iter.pos
    {
      var isZero := CheckProto3Default(fields[iter.pos], msg[SlotOf(fields, iter.pos)]);
      if !isZero { return false; }
      ghost var pos := iter.pos;
      var more := iter.Next();
      if !more {
        assert pos + 1 == |fields|;
        return true;
      }
    }
  }

  /** encode_basic_field */
  method EncodeBasicField(stream: OStream, f: Field, s: Slot) returns (ok: bool)
    requires stream.Valid() && WellFormedField(f) && SlotFits(f, s)
    modifies stream, stream.buffer
    ensures stream.Emits(EncSlot(f, s), ok)
    decreases f, 5
  {
    hide EncTagged, ValueFits, EncArray, WellFormedField, IsZeroSlot;
    match f.htype {
      case Required => ok := EncodeTagged(stream, f, s.v);
      case Optional =>
        var has;
        if f.sizeOffset != 0 { has := s.has; } else { var isDefault := CheckProto3Default(f, s); has := !isDefault; }
        if !has { return true; }
        ok := EncodeTagged(stream, f, s.v);
      case Repeated => ok := EncodeArray(stream, f, s.items);
      case OneOf =>
        if s.which != f.tag { return true; }
        ok := EncodeTagged(stream, f, s.v);
    }
  }

  lemma MessageStep(fields: seq<Field>, i: nat, msg: seq<Slot>)
    requires i < |fields| && SlotOf(fields, i) < |msg|
    ensures EncMsg(fields, i, msg) == Cat(EncSlot(fields[i], msg[SlotOf(fields, i)]), EncMsg(fields, i + 1, msg))
  {
    hide SlotOf, EncSlot;
  }

  lemma MessageEnd(fields: seq<Field>, msg: seq<Slot>)
    ensures EncMsg(fields, |fields|, msg) == Some([])
  {
  }

  /** pb_encode */
  method EncodeMessage(stream: OStream, fields: seq<Field>, msg: seq<Slot>) returns (ok: bool)
    requires stream.Valid() && WellFormed(fields) && Matches(fields, msg)
    modifies stream, stream.buffer
    ensures stream.Emits(Encode(fields, msg), ok)
    decreases fields, 0
  {
    hide SlotOf, EncSlot, EncMsg, WellFormedField, SlotFits, Cat;
    MessageEnd(fields, msg);
    var iter := new Iter(fields);
    if fields == [] { return true; }
    ghost var done: seq<byte> := [];
    CatStep([], None, EncMsg(fields, 0, msg));
    while true
      invariant iter.Valid() && iter.start == fields && fresh(iter)
      invariant stream.Emits(Some(done), true)
      invariant Encode(fields, msg) == Cat(Some(done), EncMsg(fields, iter.pos, msg))
      decreases |fields| - iter.pos
    {
      ghost var i := iter.pos;
      MessageStep(fields, i, msg);
      CatStep(done, EncSlot(fields[i], msg[SlotOf(fields, i)]), EncMsg(fields, i + 1, msg));
      ok := EncodeBasicField(stream, fields[iter.pos], msg[SlotOf(fields, iter.pos)]);
      if !ok { return; }
      done := done + EncSlot(fields[i], msg[SlotOf(fields, i)]).value;
      var more := iter.Next();
      if !more {
        CatStep(done, None, None);
        return true;
      }
    }
  }

  // --------------------------------------------------------------------------
  // Entry points
  // --------------------------------------------------------------------------

  /** pb_get_encoded_size: the number of bytes pb_encode writes. */
  method GetEncodedSize(fields: seq<Field>, msg: seq<Slot>) returns (ok: bool, size: nat)
    requires WellFormed(fields) && Matches(fields, msg)
    ensures ok == Encode(fields, msg).Some?
    ensures ok ==> size == |Encode(fields, msg).value|
  {
    hide Encode, WellFormed, Matches;
    var stream := new OStream.Sizing();
    ok := EncodeMessage(stream, fields, msg);
    size := stream.bytesWritten;
  }

  /** pb_encode into a buffer: it succeeds exactly when sizing succeeds and the buffer is large
      enough, and then the front of the buffer holds the encoding and the rest is untouched. */
  method EncodeToBuffer(buffer: array<byte>, fields: seq<Field>, msg: seq<Slot>) returns (ok: bool, bytesWritten: nat)
    requires WellFormed(fields) && Matches(fields, msg)
    modifies buffer
    ensures ok == (Encode(fields, msg).Some? && |Encode(fields, msg).value| <= buffer.Length)
    ensures bytesWritten <= buffer.Length
    ensures ok ==> buffer[..bytesWritten] == Encode(fields, msg).value
    ensures forall k | bytesWritten <= k < buffer.Length :: buffer[k] == old(buffer[k])
  {
    hide Encode, WellFormed, Matches;
    var stream := new OStream.FromBuffer(buffer, buffer.Length);
    ok := EncodeMessage(stream, fields, msg);
    bytesWritten := stream.bytesWritten;
  }

  /** pb_encode_delimited */
  method EncodeDelimitedTo(stream: OStream, fields: seq<Field>, msg: seq<Slot>) returns (ok: bool)
    requires stream.Valid() && WellFormed(fields) && Matches(fields, msg)
    modifies stream, stream.buffer
    ensures stream.Emits(EncodeDelimited(fields, msg), ok)
  {
    hide Encode, WellFormed, Matches;
    ok := EncodeSubmessage(stream, fields, msg);
  }

  /** pb_encode_nullterminated */
  method EncodeNullTerminatedTo(stream: OStream, fields: seq<Field>, msg: seq<Slot>) returns (ok: bool)
    requires stream.Valid() && WellFormed(fields) && Matches(fields, msg)
    modifies stream, stream.buffer
    ensures stream.Emits(Cat(Encode(fields, msg), Some([0])), ok)
  {
    hide Encode, WellFormed, Matches;
    ok := EncodeMessage(stream, fields, msg);
    if !ok { return; }
    ok := stream.Write([0]);
  }
}
