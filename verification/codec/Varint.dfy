/** Base-128 varints: what the encoder emits and what the two decoders of pb_decode.c accept,
    as functions on byte sequences. */
module Varint {
  import opened Bits

  /** Outcome of reading a value off the front of a byte sequence. */
  datatype Parse<+T> = Fail | Got(value: T, rest: seq<byte>)

  /** pb_encode_varint: seven bits a byte, least significant group first. */
  function EncVarint(v: nat): (s: seq<byte>)
    ensures |s| >= 1
  {
    if v < 0x80 then [v] else [v % 0x80 + 0x80] + EncVarint(v / 0x80)
  }

  /** The loop of pb_decode_varint. */
  function Varint64Loop(s: seq<byte>, bitpos: nat, result: nat): (r: Parse<nat>)
    ensures r.Got? ==> |r.rest| < |s|
  {
    if bitpos >= 64 || s == [] then Fail
    else
      var shifted := U64(Shl(s[0] % 0x80, bitpos));
      var acc := BitOr(result, shifted);
      if s[0] >= 0x80 then Varint64Loop(s[1..], bitpos + 7, acc) else Got(acc, s[1..])
  }

  function DecVarint64(s: seq<byte>): (r: Parse<nat>)
    ensures r.Got? ==> |r.rest| < |s|
  {
    Varint64Loop(s, 0, 0)
  }

  /** The multibyte loop of pb_decode_varint32_eof. `bitpos` is an 8-bit counter and wraps. */
  function Varint32Loop(s: seq<byte>, bitpos: nat, result: nat): (r: Parse<nat>)
    ensures r.Got? ==> |r.rest| < |s|
  {
    if s == [] then Fail
    else
      var b := s[0];
      var next := (bitpos + 7) % 0x100;
      if bitpos >= 32 then
        var signExtension := if bitpos < 63 then 0xFF else 0x01;
        if b % 0x80 != 0 && (result / 0x8000_0000 == 0 || b != signExtension) then Fail
        else if b >= 0x80 then Varint32Loop(s[1..], next, result)
        else FinishVarint32(b, next, result, s[1..])
      else
        var acc := BitOr(result, U32(Shl(b % 0x80, bitpos)));
        if b >= 0x80 then Varint32Loop(s[1..], next, acc)
        else FinishVarint32(b, next, acc, s[1..])
  }

  /** The check after the loop: at bit position 28 only four bits of the last byte fit. */
  function FinishVarint32(last: byte, bitpos: nat, result: nat, rest: seq<byte>): Parse<nat>
  {
    if bitpos == 35 && last / 0x10 % 8 != 0 then Fail else Got(result, rest)
  }

  function DecVarint32(s: seq<byte>): (r: Parse<nat>)
    ensures r.Got? ==> |r.rest| < |s|
  {
    if s == [] then Fail
    else if s[0] < 0x80 then Got(s[0], s[1..])
    else Varint32Loop(s[1..], 7, s[0] % 0x80)
  }

  /** pb_skip_varint */
  function SkipVarint(s: seq<byte>): (r: Parse<()>)
    ensures r.Got? ==> |r.rest| < |s|
  {
    if s == [] then Fail
    else if s[0] >= 0x80 then SkipVarint(s[1..])
    else Got((), s[1..])
  }

  // --------------------------------------------------------------------------
  // Decoding inverts encoding
  // --------------------------------------------------------------------------

  /** The value above the lowest seven bits moves up by seven bit positions. */
  lemma SplitGroup(v: nat, k: nat)
    ensures Shl(v, k) == Shl(v % 0x80, k) + Shl(v / 0x80, k + 7)
  {
    Shl7(v / 0x80, k);
    ShlSum(v % 0x80, (v / 0x80) * 0x80, k);
    assert v == v % 0x80 + (v / 0x80) * 0x80;
  }

  lemma Shl7(a: nat, k: nat)
    ensures Shl(a, k + 7) == Shl(a * 0x80, k)
  {
    hide Shl;
    ShlTwice(a, 7, k);
    ShlConstants(a);
    assert 7 + k == k + 7;
  }

  /** A seven-bit group placed at `k` above a k-bit value is a (k+7)-bit value. */
  lemma GroupBound(d: nat, k: nat, r: nat)
    requires d < 0x80 && r < Pow2(k)
    ensures r + Shl(d, k) < Pow2(k + 7)
  {
    ShlMonotone(d, 0x7F, k);
    ShlSum(0x7F, 1, k);
    ShlOne(k);
    ShlOne(k + 7);
    Shl7(1, k);
  }

  /** A value with more than seven bits left starts below bit position 57. */
  lemma NotLastGroup(v: nat, k: nat)
    requires k % 7 == 0 && k <= 63 && v >= 0x80 && Shl(v, k) < TWO64
    ensures k <= 56
  {
    if k == 63 {
      hide Shl;
      ShlMonotone(0x80, v, k);
      ShlConstants(0x80);
    }
  }

  lemma EncHead(v: nat, t: seq<byte>)
    ensures EncVarint(v) + t == if v < 0x80 then [v] + t else [v % 0x80 + 0x80] + (EncVarint(v / 0x80) + t)
  {
  }

  /** One round of the 64-bit loop while no bit is shifted out: the OR is an addition. */
  lemma Varint64Step(b: byte, t: seq<byte>, k: nat, acc: nat)
    requires k < 64 && acc < Pow2(k) && Shl(b % 0x80, k) < TWO64
    ensures Varint64Loop([b] + t, k, acc) ==
            if b >= 0x80 then Varint64Loop(t, k + 7, acc + Shl(b % 0x80, k)) else Got(acc + Shl(b % 0x80, k), t)
  {
    hide BitOr, Shl, Pow2;
    OrGroup64(acc, b % 0x80, k);
    assert ([b] + t)[1..] == t;
  }

  lemma {:induction false} Varint64LoopInverts(v: nat, t: seq<byte>, k: nat, acc: nat)
    requires k % 7 == 0 && k <= 63
    requires acc < Pow2(k) && Shl(v, k) < TWO64
    ensures Varint64Loop(EncVarint(v) + t, k, acc) == Got(acc + Shl(v, k), t)
    decreases v
  {
    hide BitOr, Shl, Pow2, Varint64Loop, EncVarint;
    SplitGroup(v, k);
    EncHead(v, t);
    if v < 0x80 {
      Varint64Step(v, t, k, acc);
    } else {
      var b := v % 0x80 + 0x80;
      Varint64Step(b, EncVarint(v / 0x80) + t, k, acc);
      NotLastGroup(v, k);
      GroupBound(v % 0x80, k, acc);
      Varint64LoopInverts(v / 0x80, t, k + 7, acc + Shl(v % 0x80, k));
    }
  }

  /** Decoding inverts encoding for every 64-bit value and leaves the following bytes untouched. */
  lemma Varint64RoundTrip(v: nat, t: seq<byte>)
    requires v < TWO64
    ensures DecVarint64(EncVarint(v) + t) == Got(v, t)
  {
    Varint64LoopInverts(v, t, 0, 0);
  }
}
