/** The input stream of pb_decode.c and its varint, tag, skip and substream operations. */
module InputStream {
  import opened Bits
  import opened Varint
  import opened Encoding
  import opened Decoding

  /** pb_istream_t on a memory buffer: `bytesLeft` bytes remain from index `state` on. */
  class IStream {
    const buffer: seq<byte>
    var state: nat
    var bytesLeft: nat

    ghost predicate Valid()
      reads this
    {
      state + bytesLeft <= |buffer|
    }

    /** Where the bytes this stream may read end. */
    ghost function End(): nat
      reads this
    {
      state + bytesLeft
    }

    /** The bytes still to be read. */
    ghost function Rest(): seq<byte>
      reads this
      requires Valid()
    {
      buffer[state..state + bytesLeft]
    }

    /** pb_istream_from_buffer */
    constructor FromBuffer(buf: seq<byte>)
      ensures Valid() && Rest() == buf && state == 0 && buffer == buf
    {
      buffer, state, bytesLeft := buf, 0, |buf|;
    }

    /** The next `size` bytes of a stream, as in pb_make_string_substream. */
    constructor Within(parent: IStream, size: nat)
      requires parent.Valid() && size <= parent.bytesLeft
      ensures Valid() && Rest() == parent.Rest()[..size]
      ensures buffer == parent.buffer && state == parent.state && bytesLeft == size
    {
      buffer, state, bytesLeft := parent.buffer, parent.state, size;
    }

    /** Reading succeeds exactly when the parser it implements does, and then leaves what the
        parser leaves. The end of the stream never moves on success, and never grows. */
    twostate predicate Reads<T(!new)>(new p: Parse<T>, ok: bool)
      requires old(Valid())
      reads this
    {
      && Valid() && old(state) <= state && End() <= old(End())
      && ok == p.Got?
      && (ok ==> End() == old(End()) && Rest() == p.rest)
    }

    /** pb_readbyte */
    method ReadByte() returns (ok: bool, b: byte)
      requires Valid()
      modifies this
      ensures ok == (old(bytesLeft) > 0)
      ensures Valid() && End() == old(End())
      ensures if ok then Rest() == old(Rest())[1..] && b == old(Rest())[0] && bytesLeft == old(bytesLeft) - 1
              else Rest() == old(Rest())
    {
      if bytesLeft == 0 { return false, 0; }
      b := buffer[state];
      state := state + 1;
      bytesLeft := bytesLeft - 1;
      return true, b;
    }

    /** pb_read: all of the bytes, or none. */
    method Read(count: nat) returns (ok: bool, data: seq<byte>)
      requires Valid()
      modifies this
      ensures Reads(Take(old(Rest()), count), ok)
      ensures ok ==> data == Take(old(Rest()), count).value
      ensures !ok ==> Rest() == old(Rest())
    {
      data := [];
      if count == 0 { return true, data; }
      if bytesLeft < count { return false, data; }
      var i := 0;
      while i < count
        invariant 0 <= i <= count && unchanged(this)
        invariant data == buffer[state..state + i]
      {
        data := data + [buffer[state + i]];
        i := i + 1;
      }
      state := state + count;
      bytesLeft := bytesLeft - count;
      ok := true;
    }

    /** The multibyte loop of pb_decode_varint32_eof. */
    method Varint32Tail(first: byte) returns (ok: bool, value: nat)
      requires Valid() && first >= 0x80
      modifies this
      ensures Reads(Varint32Loop(old(Rest()), 7, first % 0x80), ok)
      ensures ok ==> value == Varint32Loop(old(Rest()), 7, first % 0x80).value
    {
      hide BitOr, Shl, Varint32Loop, FinishVarint32;
      var bitpos: nat, result: nat, b: byte := 7, first % 0x80, first;
      while true
        invariant Valid() && End() == old(End()) && old(state) <= state
        invariant Varint32Loop(old(Rest()), 7, first % 0x80) == Varint32Loop(Rest(), bitpos, result)
        decreases bytesLeft
      {
        Varint32Round(Rest(), bitpos, result);
        ok, b := ReadByte();
        if !ok { return false, 0; }
        if bitpos >= 32 {
          var signExtension := if bitpos < 63 then 0xFF else 0x01;
          if b % 0x80 != 0 && (result / 0x8000_0000 == 0 || b != signExtension) { return false, 0; }
        } else {
          result := BitOr(result, U32(Shl(b % 0x80, bitpos)));
        }
        bitpos := (bitpos + 7) % 0x100;
        if b < 0x80 {
          if bitpos == 35 && b / 0x10 % 8 != 0 { FinishFails(b, bitpos, result, Rest()); return false, 0; }
          FinishSucceeds(b, bitpos, result, Rest());
          return true, result;
        }
      }
    }

    /** pb_decode_varint32_eof */
    method DecodeVarint32() returns (ok: bool, value: nat, eof: bool)
      requires Valid()
      modifies this
      ensures Reads(DecVarint32(old(Rest())), ok)
      ensures ok ==> value == DecVarint32(old(Rest())).value
      ensures eof == (old(bytesLeft) == 0)
    {
      hide Varint32Loop;
      var b;
      ok, b := ReadByte();
      if !ok { return false, 0, true; }
      if b < 0x80 { return true, b, false; }
      ok, value := Varint32Tail(b);
      eof := false;
    }

    /** pb_decode_varint */
    method DecodeVarint64() returns (ok: bool, value: nat)
      requires Valid()
      modifies this
      ensures Reads(DecVarint64(old(Rest())), ok)
      ensures ok ==> value == DecVarint64(old(Rest())).value
    {
      hide BitOr, Shl, Varint64Loop;
      var bitpos: nat, result: nat := 0, 0;
      while true
        invariant Valid() && End() == old(End()) && old(state) <= state
        invariant DecVarint64(old(Rest())) == Varint64Loop(Rest(), bitpos, result)
        decreases bytesLeft
      {
        Varint64Round(Rest(), bitpos, result);
        if bitpos >= 64 { return false, 0; }
        var b;
        ok, b := ReadByte();
        if !ok { return false, 0; }
        result := BitOr(result, U64(Shl(b % 0x80, bitpos)));
        bitpos := (bitpos + 7) % 0x100;
        if b < 0x80 { return true, result; }
      }
    }

    /** pb_skip_varint */
    method SkipVarint() returns (ok: bool)
      requires Valid()
      modifies this
      ensures Reads(Varint.SkipVarint(old(Rest())), ok)
    {
      while true
        invariant Valid() && End() == old(End()) && old(state) <= state
        invariant Varint.SkipVarint(old(Rest())) == Varint.SkipVarint(Rest())
        decreases bytesLeft
      {
        var data;
        ok, data := Read(1);
        if !ok { return false; }
        if data[0] < 0x80 { return true; }
      }
    }

    /** pb_skip_string */
    method SkipString() returns (ok: bool)
      requires Valid()
      modifies this
      ensures Reads(DecPrefixed(old(Rest())), ok)
    {
      hide DecVarint32;
      var length, eof, data;
      ok, length, eof := DecodeVarint32();
      if !ok { return; }
      ok, data := Read(length);
    }

    /** pb_decode_tag: `eof` tells a message that ends from one that is malformed. */
    method DecodeTag() returns (ok: bool, eof: bool, wireType: nat, tag: nat)
      requires Valid()
      modifies this
      ensures Valid() && End() <= old(End()) && old(state) <= state
      ensures old(bytesLeft) == 0 ==> !ok && eof
      ensures old(bytesLeft) > 0 ==>
                match DecTag(old(Rest()))
                case Bad => !ok && !eof
                case Stop(rest) => !ok && eof && End() == old(End()) && Rest() == rest
                case Tag(t, w, rest) => ok && tag == t && wireType == w && End() == old(End()) && Rest() == rest
    {
      hide DecVarint32;
      var word;
      wireType, tag := 0, 0;
      ok, word, eof := DecodeVarint32();
      if !ok { return; }
      if word == 0 { return false, true, 0, 0; }
      return true, false, word % 8, word / 8;
    }

    /** pb_skip_field */
    method SkipField(wireType: nat) returns (ok: bool)
      requires Valid()
      modifies this
      ensures Reads(Decoding.SkipField(wireType, old(Rest())), ok)
    {
      hide Varint.SkipVarint, DecPrefixed;
      var data;
      if wireType == WT_VARINT { ok := SkipVarint(); }
      else if wireType == WT_64BIT { ok, data := Read(8); }
      else if wireType == WT_STRING { ok := SkipString(); }
      else if wireType == WT_32BIT { ok, data := Read(4); }
      else { ok := false; }
    }

    /** pb_make_string_substream: the parent already counts the delimited bytes as read. */
    method MakeSubstream() returns (ok: bool, sub: IStream)
      requires Valid()
      modifies this
      ensures Valid() && old(state) <= state && fresh(sub) && sub.buffer == buffer
      ensures ok == DecPrefixed(old(Rest())).Got?
      ensures ok ==>
                && sub.Valid() && sub.state == state
                && sub.Rest() == DecPrefixed(old(Rest())).value
                && sub.bytesLeft < old(bytesLeft)
                && sub.End() + bytesLeft == old(End())
                && buffer[sub.End()..sub.End() + bytesLeft] == DecPrefixed(old(Rest())).rest
      ensures !ok ==> End() <= old(End())
    {
      hide DecVarint32;
      var size, eof;
      ok, size, eof := DecodeVarint32();
      if !ok { sub := new IStream.Within(this, 0); return; }
      if bytesLeft < size { sub := new IStream.Within(this, 0); return false, sub; }
      sub := new IStream.Within(this, size);
      bytesLeft := bytesLeft - size;
    }

    /** pb_close_string_substream: skip what the substream has left. Wherever the substream's
        reader stopped, the parent continues at the substream's end. */
    method CloseSubstream(sub: IStream) returns (ok: bool)
      requires Valid() && sub.Valid() && sub != this && sub.buffer == buffer
      requires state <= sub.state && sub.End() + bytesLeft <= |buffer|
      modifies this, sub
      ensures ok && Valid() && state == old(sub.End()) && bytesLeft == old(bytesLeft)
    {
      if sub.bytesLeft != 0 {
        var data;
        ok, data := sub.Read(sub.bytesLeft);
        if !ok { return; }
      }
      state := sub.state;
      return true;
    }
  }

  lemma Varint32Round(s: seq<byte>, bitpos: nat, result: nat)
    ensures s == [] ==> Varint32Loop(s, bitpos, result) == Fail
    ensures s != [] ==>
              var b := s[0];
              var next := (bitpos + 7) % 0x100;
              var acc := if bitpos >= 32 then result else BitOr(result, U32(Shl(b % 0x80, bitpos)));
              Varint32Loop(s, bitpos, result) ==
              if bitpos >= 32 && b % 0x80 != 0 &&
                 (result / 0x8000_0000 == 0 || b != if bitpos < 63 then 0xFF else 0x01) then Fail
              else if b >= 0x80 then Varint32Loop(s[1..], next, acc)
              else FinishVarint32(b, next, acc, s[1..])
  {
    hide BitOr, Shl, FinishVarint32;
  }

  lemma FinishFails(b: byte, bitpos: nat, result: nat, rest: seq<byte>)
    requires bitpos == 35 && b / 0x10 % 8 != 0
    ensures FinishVarint32(b, bitpos, result, rest) == Fail
  {
  }

  lemma FinishSucceeds(b: byte, bitpos: nat, result: nat, rest: seq<byte>)
    requires !(bitpos == 35 && b / 0x10 % 8 != 0)
    ensures FinishVarint32(b, bitpos, result, rest) == Got(result, rest)
  {
  }

  lemma Varint64Round(s: seq<byte>, bitpos: nat, result: nat)
    ensures bitpos >= 64 || s == [] ==> Varint64Loop(s, bitpos, result) == Fail
    ensures bitpos < 64 && s != [] ==> Varint64Loop(s, bitpos, result) == Varint64Next(s, bitpos, result)
  {
    hide BitOr, Shl, U64;
  }

  ghost function Varint64Next(s: seq<byte>, bitpos: nat, result: nat): Parse<nat>
    requires s != []
  {
    var acc := BitOr(result, U64(Shl(s[0] % 0x80, bitpos)));
    if s[0] >= 0x80 then Varint64Loop(s[1..], bitpos + 7, acc) else Got(acc, s[1..])
  }
}
