/** The decoders of single values in pb_decode.c. */
module FieldDecode {
  import opened Bits
  import opened Varint
  import opened VarintLaws
  import opened Schema
  import opened Decoding
  import opened InputStream

  /** pb_dec_varint: a field of at most four bytes takes the low 32 bits first. */
  method DecodeVarintField(stream: IStream, f: Field) returns (ok: bool, v: Value)
    requires stream.Valid() && f.ltype.LVarint?
    modifies stream
    ensures stream.Reads(DecInteger(f, old(stream.Rest())), ok)
    ensures ok ==> v == DecInteger(f, old(stream.Rest())).value
  {
    hide DecVarint64;
    var word;
    v := NO_VALUE;
    ok, word := stream.DecodeVarint64();
    if !ok { return; }
    var wide := if f.dataSize == 8 then AsInt64(U64(word)) else Truncate(4, word);
    var clamped;
    if f.dataSize == 8 { clamped := wide; }
    else if f.dataSize == 4 { clamped := Truncate(4, wide); }
    else if f.dataSize == 2 { clamped := Truncate(2, wide); }
    else if f.dataSize == 1 { clamped := Truncate(1, wide); }
    else { return false, v; }
    Int64Stays(U64(word));
    return clamped == wide, VInt(wide);
  }

  lemma Int64Stays(n: nat)
    requires n < TWO64
    ensures Truncate(8, AsInt64(n)) == AsInt64(n)
  {
  }

  /** pb_dec_uvarint */
  method DecodeUVarintField(stream: IStream, f: Field) returns (ok: bool, v: Value)
    requires stream.Valid() && f.ltype.LUVarint?
    modifies stream
    ensures stream.Reads(DecInteger(f, old(stream.Rest())), ok)
    ensures ok ==> v == DecInteger(f, old(stream.Rest())).value
  {
    hide DecVarint64;
    var word;
    v := NO_VALUE;
    ok, word := stream.DecodeVarint64();
    if !ok { return; }
    Varint64Range(old(stream.Rest()));
    var clamped;
    if f.dataSize == 8 { clamped := word; }
    else if f.dataSize == 4 { clamped := word % 0x1_0000_0000; }
    else if f.dataSize == 2 { clamped := word % 0x1_0000; }
    else if f.dataSize == 1 { clamped := word % 0x100; }
    else { return false, v; }
    return clamped == word, VInt(word);
  }

  /** The accumulator of the 64-bit loop is a 64-bit word. */
  lemma {:induction false} Varint64Bound(s: seq<byte>, bitpos: nat, result: nat)
    requires result < TWO64
    ensures Varint64Loop(s, bitpos, result).Got? ==> Varint64Loop(s, bitpos, result).value < TWO64
    decreases |s|
  {
    hide BitOr, Shl, Pow2;
    if bitpos >= 64 || s == [] {
    } else {
      var shifted := U64(Shl(s[0] % 0x80, bitpos));
      Pow2Values();
      OrBound(result, shifted, 64);
      Varint64Bound(s[1..], bitpos + 7, BitOr(result, shifted));
    }
  }

  lemma Varint64Range(s: seq<byte>)
    ensures DecVarint64(s).Got? ==> DecVarint64(s).value < TWO64
  {
    Varint64Bound(s, 0, 0);
  }

  /** pb_dec_svarint, with pb_decode_svarint */
  method DecodeSVarintField(stream: IStream, f: Field) returns (ok: bool, v: Value)
    requires stream.Valid() && f.ltype.LSVarint?
    modifies stream
    ensures stream.Reads(DecInteger(f, old(stream.Rest())), ok)
    ensures ok ==> v == DecInteger(f, old(stream.Rest())).value
  {
    hide DecVarint64;
    var word;
    v := NO_VALUE;
    ok, word := stream.DecodeVarint64();
    if !ok { return; }
    Varint64Range(old(stream.Rest()));
    var wide := UnZigZag(word);
    UnZigZagStays(word);
    var clamped;
    if f.dataSize == 8 { clamped := wide; }
    else if f.dataSize == 4 { clamped := Truncate(4, wide); }
    else if f.dataSize == 2 { clamped := Truncate(2, wide); }
    else if f.dataSize == 1 { clamped := Truncate(1, wide); }
    else { return false, v; }
    return clamped == wide, VInt(wide);
  }

  lemma UnZigZagStays(n: nat)
    requires n < TWO64
    ensures U64(n) == n && Truncate(8, UnZigZag(n)) == UnZigZag(n)
  {
  }

  /** pb_dec_bool */
  method DecodeBool(stream: IStream) returns (ok: bool, v: Value)
    requires stream.Valid()
    modifies stream
    ensures stream.Reads(DecBool(old(stream.Rest())), ok)
    ensures ok ==> v == DecBool(old(stream.Rest())).value
  {
    hide DecVarint32;
    var word, eof;
    ok, word, eof := stream.DecodeVarint32();
    v := VBool(word != 0);
  }

  /** Assembling four bytes with shifts and ORs. */
  function Word(s: seq<byte>): nat
    requires |s| == 4
  {
    BitOr(BitOr(BitOr(s[0], Shl(s[1], 8)), Shl(s[2], 16)), Shl(s[3], 24))
  }

  lemma WordValue(s: seq<byte>)
    requires |s| == 4
    ensures Word(s) == FromLittleEndian(s) < TWO32
  {
    FourBytes(s);
    assert s[4..] == [] && FromLittleEndian([]) == 0;
    hide BitOr, Shl, Pow2, FromLittleEndian;
    Pow2Bytes();
    OrByte(s[0], s[1], 8, 0x100);
    OrByte(BitOr(s[0], Shl(s[1], 8)), s[2], 16, 0x1_0000);
    OrByte(BitOr(BitOr(s[0], Shl(s[1], 8)), Shl(s[2], 16)), s[3], 24, 0x100_0000);
  }

  lemma Pow2Bytes()
    ensures Pow2(8) == 0x100 && Pow2(16) == 0x1_0000 && Pow2(24) == 0x100_0000 && Pow2(32) == TWO32
    ensures Pow2(40) == 0x100_0000_0000 && Pow2(48) == 0x1_0000_0000_0000 && Pow2(56) == 0x100_0000_0000_0000
  {
    Pow2Values();
    assert Pow2(24) == 0x100_0000;
    assert Pow2(40) == 32 * Pow2(35);
    assert Pow2(48) == 64 * Pow2(42);
  }

  /** An OR with a byte above the k bits in use adds it at its place. */
  lemma OrByte(low: nat, b: nat, k: nat, p: nat)
    requires p == Pow2(k) && low < p && b < 0x100
    ensures BitOr(low, Shl(b, k)) == low + p * b < 0x100 * p
  {
    hide BitOr, Shl, Pow2;
    OrDisjoint(low, b, k);
    ShlProduct(b, k);
    PlaceBound(p, b);
  }

  lemma PlaceBound(p: nat, b: nat)
    requires b < 0x100
    ensures p * b + p <= 0x100 * p
  {
    assert p * b + p == p * (b + 1) <= p * 0x100;
  }

  function FourLow(s: seq<byte>): nat
    requires |s| >= 4
  {
    var b0: nat, b1: nat, b2: nat, b3: nat := s[0], s[1], s[2], s[3];
    b0 + 0x100 * b1 + 0x1_0000 * b2 + 0x100_0000 * b3
  }

  lemma FourBytes(s: seq<byte>)
    requires |s| >= 4
    ensures FromLittleEndian(s) ==
            FourLow(s) + TWO32 * FromLittleEndian(s[4..])
  {
    assert s[1..][1..] == s[2..] && s[2..][1..] == s[3..] && s[3..][1..] == s[4..];
    assert FromLittleEndian(s) == s[0] + 0x100 * FromLittleEndian(s[1..]);
    assert FromLittleEndian(s[1..]) == s[1] + 0x100 * FromLittleEndian(s[2..]);
    assert FromLittleEndian(s[2..]) == s[2] + 0x100 * FromLittleEndian(s[3..]);
    assert FromLittleEndian(s[3..]) == s[3] + 0x100 * FromLittleEndian(s[4..]);
  }

  /** pb_dec_fixed32 and pb_decode_fixed32 */
  method DecodeFixed32(stream: IStream) returns (ok: bool, v: Value)
    requires stream.Valid()
    modifies stream
    ensures stream.Reads(DecFixed(4, old(stream.Rest())), ok)
    ensures ok ==> v == DecFixed(4, old(stream.Rest())).value
  {
    hide FromLittleEndian, Word;
    var bytes;
    v := NO_VALUE;
    ok, bytes := stream.Read(4);
    if !ok { return; }
    WordValue(bytes);
    v := VInt(Word(bytes));
  }

  /** pb_dec_fixed64 and pb_decode_fixed64 */
  method DecodeFixed64(stream: IStream) returns (ok: bool, v: Value)
    requires stream.Valid()
    modifies stream
    ensures stream.Reads(DecFixed(8, old(stream.Rest())), ok)
    ensures ok ==> v == DecFixed(8, old(stream.Rest())).value
  {
    hide FromLittleEndian, Word, BitOr, Shl;
    var bytes;
    v := NO_VALUE;
    ok, bytes := stream.Read(8);
    if !ok { return; }
    DoubleWordValue(bytes);
    v := VInt(DoubleWord(bytes));
  }

  function DoubleWord(s: seq<byte>): nat
    requires |s| == 8
  {
    BitOr(BitOr(BitOr(BitOr(Word(s[..4]), Shl(s[4], 32)), Shl(s[5], 40)), Shl(s[6], 48)), Shl(s[7], 56))
  }

  lemma DoubleWordValue(s: seq<byte>)
    requires |s| == 8
    ensures DoubleWord(s) == FromLittleEndian(s)
  {
    FourBytes(s);
    FourBytes(s[4..]);
    WordValue(s[..4]);
    assert s[4..][4..] == [] && FromLittleEndian([]) == 0;
    assert FourLow(s) == FromLittleEndian(s[..4]) by { FourBytes(s[..4]); assert s[..4][4..] == []; }
    hide BitOr, Shl, Pow2, FromLittleEndian, Word;
    var low := Word(s[..4]);
    Pow2Bytes();
    OrByte(low, s[4], 32, TWO32);
    var five := BitOr(low, Shl(s[4], 32));
    OrByte(five, s[5], 40, 0x100_0000_0000);
    var six := BitOr(five, Shl(s[5], 40));
    OrByte(six, s[6], 48, 0x1_0000_0000_0000);
    OrByte(BitOr(six, Shl(s[6], 48)), s[7], 56, 0x100_0000_0000_0000);
  }

  /** pb_dec_bytes */
  method DecodeBytes(stream: IStream, f: Field) returns (ok: bool, v: Value)
    requires stream.Valid()
    modifies stream
    ensures stream.Reads(DecBytes(f, old(stream.Rest())), ok)
    ensures ok ==> v == DecBytes(f, old(stream.Rest())).value
  {
    hide DecVarint32;
    var size, eof, data;
    v := NO_VALUE;
    ok, size, eof := stream.DecodeVarint32();
    if !ok { return; }
    if size > PB_SIZE_MAX { return false, v; }
    var allocSize := size + BYTES_HEADER;
    if allocSize > f.dataSize { return false, v; }
    ok, data := stream.Read(size);
    v := VBytes(data);
  }

  /** pb_dec_string */
  method DecodeString(stream: IStream, f: Field) returns (ok: bool, v: Value)
    requires stream.Valid()
    modifies stream
    ensures stream.Reads(DecString(f, old(stream.Rest())), ok)
    ensures ok ==> v == DecString(f, old(stream.Rest())).value
  {
    hide DecVarint32;
    var size, eof, data;
    v := NO_VALUE;
    ok, size, eof := stream.DecodeVarint32();
    if !ok { return; }
    var allocSize := size + 1;
    if allocSize > f.dataSize { return false, v; }
    ok, data := stream.Read(size);
    v := VBytes(data + [0]);
  }

  /** pb_dec_fixed_length_bytes */
  method DecodeFixedBytes(stream: IStream, f: Field) returns (ok: bool, v: Value)
    requires stream.Valid()
    modifies stream
    ensures stream.Reads(DecFixedBytes(f, old(stream.Rest())), ok)
    ensures ok ==> v == DecFixedBytes(f, old(stream.Rest())).value
  {
    hide DecVarint32;
    var size, eof, data;
    v := NO_VALUE;
    ok, size, eof := stream.DecodeVarint32();
    if !ok { return; }
    if size > PB_SIZE_MAX { return false, v; }
    if size == 0 { return true, VBytes(seq(f.dataSize, _ => 0)); }
    if size != f.dataSize { return false, v; }
    ok, data := stream.Read(size);
    v := VBytes(data);
  }

  /** The decoder table, without submessages. */
  method DecodeScalar(stream: IStream, f: Field) returns (ok: bool, v: Value)
    requires stream.Valid()
    modifies stream
    ensures stream.Reads(DecScalar(f, old(stream.Rest())), ok)
    ensures ok ==> v == DecScalar(f, old(stream.Rest())).value
  {
    hide DecInteger, DecBool, DecFixed, DecBytes, DecString, DecFixedBytes;
    match f.ltype {
      case LBool => ok, v := DecodeBool(stream);
      case LVarint => ok, v := DecodeVarintField(stream, f);
      case LUVarint => ok, v := DecodeUVarintField(stream, f);
      case LSVarint => ok, v := DecodeSVarintField(stream, f);
      case LFixed32 => ok, v := DecodeFixed32(stream);
      case LFixed64 => ok, v := DecodeFixed64(stream);
      case LBytes => ok, v := DecodeBytes(stream, f);
      case LString => ok, v := DecodeString(stream, f);
      case LFixedBytes => ok, v := DecodeFixedBytes(stream, f);
      case _ => ok, v := false, NO_VALUE;
    }
  }
}
