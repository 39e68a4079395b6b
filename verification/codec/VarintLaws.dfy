/** Laws of the varint codec beyond the plain round trip. */
module VarintLaws {
  import opened Bits
  import opened Varint

  // --------------------------------------------------------------------------
  // Lengths
  // --------------------------------------------------------------------------

  lemma Pow2Plus7(k: nat)
    ensures Pow2(k + 7) == 0x80 * Pow2(k)
  {
    assert Pow2(k + 7) == 2 * Pow2(k + 6) == 4 * Pow2(k + 5) == 8 * Pow2(k + 4);
    assert Pow2(k + 4) == 2 * Pow2(k + 3) == 4 * Pow2(k + 2) == 8 * Pow2(k + 1);
  }

  /** Each byte carries seven bits: n bytes are enough exactly for the values below 2^(7n). */
  lemma {:induction false} EncVarintLength(v: nat, n: nat)
    requires n >= 1
    ensures |EncVarint(v)| <= n <==> v < Pow2(7 * n)
    decreases n
  {
    Pow2Plus7(7 * (n - 1));
    if n == 1 {
      Pow2Values();
    } else if v >= 0x80 {
      EncVarintLength(v / 0x80, n - 1);
    }
  }

  /** Every 64-bit value takes at most the ten bytes of the encoder's local buffer. */
  lemma EncVarintFitsBuffer(v: nat)
    requires v < TWO64
    ensures |EncVarint(v)| <= 10
    ensures v < TWO32 ==> |EncVarint(v)| <= 5
  {
    hide EncVarint, Pow2;
    EncVarintLength(v, 10);
    EncVarintLength(v, 5);
    Pow2Values();
    Pow2Monotone(32, 35);
    Pow2Monotone(64, 70);
  }

  lemma {:induction false} Varint64LoopBound(s: seq<byte>, k: nat, acc: nat)
    requires acc < Pow2(k) && Varint64Loop(s, k, acc).Got?
    ensures Varint64Loop(s, k, acc).value < Pow2(k + 7 * (|s| - |Varint64Loop(s, k, acc).rest|))
    decreases |s|
  {
    hide BitOr, Shl, Pow2;
    var acc' := BitOr(acc, U64(Shl(s[0] % 0x80, k)));
    GroupBound(s[0] % 0x80, k, acc);
    Pow2Monotone(k, k + 7);
    OrBound(acc, U64(Shl(s[0] % 0x80, k)), k + 7);
    if s[0] < 0x80 {
    } else {
      Varint64LoopBound(s[1..], k + 7, acc');
    }
  }

  /** No byte string that decodes to v is shorter than the encoding of v. */
  lemma EncVarintMinimal(s: seq<byte>)
    requires DecVarint64(s).Got?
    ensures |EncVarint(DecVarint64(s).value)| <= |s| - |DecVarint64(s).rest|
  {
    hide EncVarint, Varint64Loop;
    Varint64LoopBound(s, 0, 0);
    EncVarintLength(DecVarint64(s).value, |s| - |DecVarint64(s).rest|);
  }

  // --------------------------------------------------------------------------
  // The 32-bit decoder against the 64-bit decoder
  // --------------------------------------------------------------------------

  /** The bit positions of the multibyte loops, before the 64-bit loop gives up. */
  predicate GroupPosition(k: nat)
  {
    7 <= k <= 63 && k % 7 == 0
  }

  lemma Or28(acc: nat, d: nat)
    requires acc < 0x1000_0000
    ensures BitOr(acc, U32(Shl(d, 28))) == U32(acc + Shl(d, 28))
  {
    hide BitOr, Shl, Pow2;
    Pow2Values();
    ShlConstants(d);
    ShlConstants(d % 16);
    Wrap28(acc, d / 16, d % 16);
    Wrap28(0, d / 16, d % 16);
    OrDisjoint(acc, d % 16, 28);
  }

  lemma Wrap28(acc: nat, q: nat, r: nat)
    requires acc < 0x1000_0000 && r < 16
    ensures U32(acc + (16 * q + r) * 0x1000_0000) == acc + r * 0x1000_0000
  {
  }

  /** Below bit position 32 the OR of the 32-bit loop is addition modulo 2^32. */
  lemma Or32(acc: nat, d: nat, k: nat)
    requires d < 0x80 && GroupPosition(k) && k <= 28 && acc < Pow2(k)
    ensures BitOr(acc, U32(Shl(d, k))) == U32(acc + Shl(d, k))
  {
    hide BitOr, Shl, Pow2;
    Pow2Values();
    if k == 28 {
      Or28(acc, d);
    } else {
      GroupBound(d, k, acc);
      Pow2Monotone(k + 7, 31);
      OrGroup32(acc, d, k);
    }
  }

  lemma Varint32Step(b: byte, t: seq<byte>, k: nat, acc: nat)
    requires GroupPosition(k) && k <= 28 && acc < Pow2(k)
    ensures Varint32Loop([b] + t, k, acc) ==
            var acc' := U32(acc + Shl(b % 0x80, k));
            if b >= 0x80 then Varint32Loop(t, k + 7, acc') else FinishVarint32(b, k + 7, acc', t)
  {
    hide BitOr, Shl, Pow2;
    assert ([b] + t)[1..] == t;
    Or32(acc, b % 0x80, k);
  }

  lemma Truncate63(d: nat)
    ensures U64(Shl(d, 63)) == Shl(d % 2, 63)
  {
    hide Shl;
    ShlConstants(d);
    ShlConstants(d % 2);
    assert d == 2 * (d / 2) + d % 2;
  }

  /** A group at bit position 32 or above is a multiple of 2^32. */
  lemma HighShift(e: nat, k: nat)
    requires k >= 32
    ensures Shl(e, k) == Shl(e, k - 32) * TWO32
  {
    hide Shl, Pow2;
    ShlTwice(e, k - 32, 32);
    ShlConstants(Shl(e, k - 32));
    assert k - 32 + 32 == k;
  }

  lemma LowHalf(acc: nat, q: nat)
    ensures U32(acc + q * TWO32) == U32(acc)
  {
  }

  /** What the 64-bit loop adds at bit position 32 and above does not change the low 32 bits. */
  lemma HighGroup(d: nat, k: nat, acc: nat)
    requires d < 0x80 && GroupPosition(k) && k > 28 && acc < Pow2(k)
    ensures U32(BitOr(acc, U64(Shl(d, k)))) == U32(acc)
  {
    hide BitOr, Shl, Pow2, U32, U64;
    var e := if k == 63 then d % 2 else d;
    if k == 63 { Truncate63(d); } else { ShortGroup(d, k, acc); }
    OrDisjoint(acc, e, k);
    HighShift(e, k);
    LowHalf(acc, Shl(e, k - 32));
  }

  lemma ShortGroup(d: nat, k: nat, acc: nat)
    requires d < 0x80 && GroupPosition(k) && k < 63 && acc < Pow2(k)
    ensures U64(Shl(d, k)) == Shl(d, k)
  {
    hide Shl, Pow2;
    GroupBound(d, k, acc);
    Pow2Monotone(k + 7, 64);
    Pow2Values();
  }

  /** One round of the two loops keeps the 32-bit accumulator equal to the 64-bit one modulo 2^32. */
  lemma AccumulatorsAgree(d: nat, k: nat, acc64: nat)
    requires d < 0x80 && GroupPosition(k) && acc64 < Pow2(k)
    ensures U32(BitOr(acc64, U64(Shl(d, k)))) == if k <= 28 then U32(acc64 + Shl(d, k)) else U32(acc64)
    ensures k < 63 ==> BitOr(acc64, U64(Shl(d, k))) < Pow2(k + 7)
  {
    hide BitOr, Shl, Pow2;
    if k < 63 {
      GroupBound(d, k, acc64);
      Pow2Monotone(k + 7, 63);
      Pow2Values();
      OrGroup64(acc64, d, k);
    }
    if k > 28 { HighGroup(d, k, acc64); }
  }

  lemma Low32(k: nat, acc: nat)
    requires k <= 28 && acc < Pow2(k)
    ensures U32(acc) == acc
  {
    hide Pow2;
    Pow2Monotone(k, 31);
    Pow2Values();
  }

  lemma {:induction false} LoopsAgree(s: seq<byte>, k: nat, acc64: nat)
    requires GroupPosition(k) && acc64 < Pow2(k)
    requires Varint32Loop(s, k, U32(acc64)).Got? && Varint64Loop(s, k, acc64).Got?
    ensures Varint32Loop(s, k, U32(acc64)).rest == Varint64Loop(s, k, acc64).rest
    ensures Varint32Loop(s, k, U32(acc64)).value == U32(Varint64Loop(s, k, acc64).value)
    decreases |s|
  {
    hide BitOr, Shl, Pow2;
    var b, t := s[0], s[1..];
    assert s == [b] + t;
    AccumulatorsAgree(b % 0x80, k, acc64);
    if k <= 28 {
      Low32(k, acc64);
      Varint32Step(b, t, k, acc64);
    }
    if b < 0x80 || k >= 63 {
    } else {
      LoopsAgree(t, k + 7, BitOr(acc64, U64(Shl(b % 0x80, k))));
    }
  }

  /** Whenever both decoders accept the front of a stream they consume the same bytes, and the
      32-bit decoder returns the 64-bit value modulo 2^32. */
  lemma DecodersAgree(s: seq<byte>)
    requires DecVarint32(s).Got? && DecVarint64(s).Got?
    ensures DecVarint32(s).rest == DecVarint64(s).rest
    ensures DecVarint32(s).value == U32(DecVarint64(s).value)
  {
    hide BitOr, Varint32Loop, Varint64Loop;
    var d := s[0] % 0x80;
    assert s == [s[0]] + s[1..];
    Varint64Step(s[0], s[1..], 0, 0);
    if s[0] >= 0x80 {
      Pow2Values();
      LoopsAgree(s[1..], 7, d);
    }
  }

  // --------------------------------------------------------------------------
  // What the 32-bit decoder accepts
  // --------------------------------------------------------------------------

  /** The test that the 32-bit decoder makes of the byte with index j: below bit position 28 none;
      there, only that a last byte fits the word; above, that its group is zero or, for a negative
      word, all sign bits. */
  predicate GroupPasses(b: byte, j: nat, last: bool, negative: bool)
  {
    if j < 4 then true
    else if j == 4 then last ==> b / 0x10 % 8 == 0
    else b % 0x80 == 0 || (negative && b == if j < 9 then 0xFF else 0x01)
  }

  /** All bytes of a varint pass; g are the bytes from index j on. */
  predicate GroupsPass(g: seq<byte>, j: nat, negative: bool)
  {
    forall i | 0 <= i < |g| :: GroupPasses(g[i], j + i, i == |g| - 1, negative)
  }

  lemma GroupsPassStep(g: seq<byte>, j: nat, negative: bool)
    requires g != []
    ensures GroupsPass(g, j, negative) <==>
            GroupPasses(g[0], j, |g| == 1, negative) && GroupsPass(g[1..], j + 1, negative)
  {
    hide GroupPasses;
    if GroupPasses(g[0], j, |g| == 1, negative) && GroupsPass(g[1..], j + 1, negative) {
      forall i | 0 <= i < |g| ensures GroupPasses(g[i], j + i, i == |g| - 1, negative) {
        if i > 0 { assert GroupPasses(g[1..][i - 1], j + 1 + (i - 1), i - 1 == |g[1..]| - 1, negative); }
      }
    } else if GroupsPass(g, j, negative) {
      forall i | 0 <= i < |g| - 1 ensures GroupPasses(g[1..][i], j + 1 + i, i == |g[1..]| - 1, negative) {
        assert GroupPasses(g[i + 1], j + (i + 1), i + 1 == |g| - 1, negative);
      }
    }
  }

  predicate Bit31(v: nat)
  {
    v / 0x8000_0000 % 2 == 1
  }

  lemma Bit31OfWord(v: nat)
    ensures Bit31(v) <==> U32(v) / 0x8000_0000 != 0
  {
    var q, r := v / 0x1_0000_0000, v % 0x1_0000_0000;
    assert v / 0x8000_0000 == 2 * q + r / 0x8000_0000;
  }

  /** One round of the 32-bit loop, by the byte's test. */
  lemma Varint32Passes(b: byte, t: seq<byte>, j: nat, acc: nat)
    requires 1 <= j <= 9 && acc < TWO32 && (j <= 4 ==> acc < Pow2(7 * j))
    ensures var word := if j <= 4 then U32(acc + Shl(b % 0x80, 7 * j)) else acc;
            Varint32Loop([b] + t, 7 * j, acc) ==
            if !GroupPasses(b, j, b < 0x80, acc / 0x8000_0000 != 0) then Fail
            else if b >= 0x80 then Varint32Loop(t, 7 * j + 7, word)
            else Got(word, t)
  {
    hide Varint32Loop, FinishVarint32, BitOr, Shl, Pow2, U32;
    if j <= 4 {
      Varint32Step(b, t, 7 * j, acc);
      LowFinish(b, j, U32(acc + Shl(b % 0x80, 7 * j)), t);
    } else {
      HighStep(b, t, 7 * j, acc);
    }
  }

  lemma LowFinish(b: byte, j: nat, word: nat, t: seq<byte>)
    requires 1 <= j <= 4
    ensures FinishVarint32(b, 7 * j + 7, word, t) == if j == 4 && b / 0x10 % 8 != 0 then Fail else Got(word, t)
  {
  }

  /** A round from bit position 32 on only tests the byte. */
  lemma HighStep(b: byte, t: seq<byte>, k: nat, acc: nat)
    requires 35 <= k <= 63
    ensures Varint32Loop([b] + t, k, acc) ==
            if b % 0x80 != 0 && (acc / 0x8000_0000 == 0 || b != if k < 63 then 0xFF else 0x01) then Fail
            else if b >= 0x80 then Varint32Loop(t, k + 7, acc)
            else Got(acc, t)
  {
    hide BitOr, Shl, U32;
    assert ([b] + t)[1..] == t;
  }

  /** The accumulators after a round: equal modulo 2^32, and bounded while the loop can go on. */
  lemma RoundWord(b: byte, j: nat, acc64: nat)
    requires 1 <= j <= 9 && acc64 < Pow2(7 * j)
    ensures var acc' := BitOr(acc64, U64(Shl(b % 0x80, 7 * j)));
            && U32(acc') == (if j <= 4 then U32(U32(acc64) + Shl(b % 0x80, 7 * j)) else U32(acc64))
            && (j < 9 ==> acc' < Pow2(7 * (j + 1)))
    ensures j <= 4 ==> U32(acc64) < Pow2(7 * j)
  {
    hide BitOr, Shl, Pow2, U32, U64;
    AccumulatorsAgree(b % 0x80, 7 * j, acc64);
    if j <= 4 { Low32(7 * j, acc64); }
    assert 7 * (j + 1) == 7 * j + 7;
  }

  lemma Varint64Reads(s: seq<byte>, k: nat, acc: nat)
    requires Varint64Loop(s, k, acc).Got?
    ensures s != [] && k < 64
    ensures Varint64Loop(s, k, acc) ==
            if s[0] >= 0x80 then Varint64Loop(s[1..], k + 7, BitOr(acc, U64(Shl(s[0] % 0x80, k))))
            else Got(BitOr(acc, U64(Shl(s[0] % 0x80, k))), s[1..])
  {
    hide BitOr, Shl, U64;
  }

  /** From bit position 32 on the low word does not change any more. */
  lemma {:induction false} HighKeepsWord(s: seq<byte>, j: nat, acc64: nat)
    requires 5 <= j <= 9 && acc64 < Pow2(7 * j) && Varint64Loop(s, 7 * j, acc64).Got?
    ensures U32(Varint64Loop(s, 7 * j, acc64).value) == U32(acc64)
    decreases |s|
  {
    hide BitOr, Shl, Pow2, Varint64Loop, U32, U64;
    Varint64Reads(s, 7 * j, acc64);
    RoundWord(s[0], j, acc64);
    if s[0] < 0x80 {
    } else {
      Varint64Reads(s[1..], 7 * j + 7, BitOr(acc64, U64(Shl(s[0] % 0x80, 7 * j))));
      assert 7 * (j + 1) == 7 * j + 7;
      HighKeepsWord(s[1..], j + 1, BitOr(acc64, U64(Shl(s[0] % 0x80, 7 * j))));
    }
  }

  /** The sign that the tests of the high bytes use is that of the value. */
  lemma SignOfWord(s: seq<byte>, j: nat, acc64: nat, b: byte)
    requires 1 <= j <= 9 && acc64 < Pow2(7 * j) && Varint64Loop(s, 7 * j, acc64).Got?
    ensures var v := Varint64Loop(s, 7 * j, acc64).value;
            GroupPasses(b, j, b < 0x80, U32(acc64) / 0x8000_0000 != 0) == GroupPasses(b, j, b < 0x80, Bit31(v))
  {
    hide Pow2, Varint64Loop, U32, Bit31;
    if j >= 5 {
      HighKeepsWord(s, j, acc64);
      Bit31OfWord(Varint64Loop(s, 7 * j, acc64).value);
    }
  }

  /** The bytes of the varint that s starts with. */
  function FirstVarint(s: seq<byte>): seq<byte>
  {
    if s == [] then [] else if s[0] < 0x80 then [s[0]] else [s[0]] + FirstVarint(s[1..])
  }

  lemma FirstVarintStep(s: seq<byte>)
    requires s != []
    ensures FirstVarint(s) != [] && FirstVarint(s)[0] == s[0]
    ensures FirstVarint(s)[1..] == if s[0] < 0x80 then [] else FirstVarint(s[1..])
  {
  }

  /** The 64-bit loop consumes exactly these bytes, of which only the last has no continuation bit. */
  lemma {:induction false} SplitsVarint(s: seq<byte>, k: nat, acc: nat)
    requires Varint64Loop(s, k, acc).Got?
    ensures var g := FirstVarint(s); g + Varint64Loop(s, k, acc).rest == s && g != [] && g[|g| - 1] < 0x80
    decreases |s|
  {
    hide BitOr, Shl, U64, Varint64Loop;
    Varint64Reads(s, k, acc);
    if s[0] < 0x80 {
      assert s == [s[0]] + s[1..];
    } else {
      SplitsVarint(s[1..], k + 7, BitOr(acc, U64(Shl(s[0] % 0x80, k))));
      assert s == [s[0]] + s[1..];
    }
  }

  /** From byte j on the 32-bit loop accepts what the 64-bit loop accepts if and only if each byte
      passes its test, with the sign taken from the value. */
  lemma {:induction false} LoopAccepts(s: seq<byte>, j: nat, acc64: nat)
    requires 1 <= j <= 9 && acc64 < Pow2(7 * j) && Varint64Loop(s, 7 * j, acc64).Got?
    ensures Varint32Loop(s, 7 * j, U32(acc64)).Got? <==>
            GroupsPass(FirstVarint(s), j, Bit31(Varint64Loop(s, 7 * j, acc64).value))
    decreases |s|
  {
    hide BitOr, Shl, Pow2, Varint32Loop, Varint64Loop, GroupsPass, GroupPasses, Bit31, U64, FirstVarint;
    var r := Varint64Loop(s, 7 * j, acc64);
    Varint64Reads(s, 7 * j, acc64);
    var b, t := s[0], s[1..];
    var acc' := BitOr(acc64, U64(Shl(b % 0x80, 7 * j)));
    assert s == [b] + t && U32(acc64) < TWO32;
    RoundWord(b, j, acc64);
    Varint32Passes(b, t, j, U32(acc64));
    SignOfWord(s, j, acc64, b);
    FirstVarintStep(s);
    GroupsPassStep(FirstVarint(s), j, Bit31(r.value));
    hide U32;
    if b < 0x80 {
      NoGroups(j + 1, Bit31(r.value));
    } else {
      assert 7 * (j + 1) == 7 * j + 7;
      Varint64Reads(t, 7 * (j + 1), acc');
      FirstVarintStep(t);
      LoopAccepts(t, j + 1, acc');
    }
  }

  lemma NoGroups(j: nat, negative: bool)
    ensures GroupsPass([], j, negative)
  {
  }

  /** Which varints the 32-bit decoder accepts, among those the 64-bit decoder does: up to four
      bytes; five bytes if the last one has only four bits; more bytes if each from the sixth on
      has a zero group or, when bit 31 of the value is set, the bits of a sign extension. */
  lemma Varint32Accepts(s: seq<byte>)
    requires DecVarint64(s).Got?
    ensures FirstVarint(s) + DecVarint64(s).rest == s
    ensures var g, v := FirstVarint(s), DecVarint64(s).value;
            DecVarint32(s).Got? <==>
            || |g| <= 4
            || (|g| == 5 && g[4] < 0x10)
            || (|g| > 5 && forall k | 5 <= k < |g| ::
              g[k] % 0x80 == 0 || (Bit31(v) && g[k] == if k < 9 then 0xFF else 0x01))
  {
    var g, v := FirstVarint(s), DecVarint64(s).value;
    SplitsVarint(s, 0, 0);
    hide BitOr, Shl, U64, Bit31, Varint64Loop, Varint32Loop, FirstVarint, GroupsPass;
    Varint64Reads(s, 0, 0);
    FirstVarintStep(s);
    PassForms(g, Bit31(v));
    if s[0] >= 0x80 {
      ZeroOr(s[0] % 0x80);
      assert Pow2(7) == 0x80 by { Pow2Values(); }
      LoopAccepts(s[1..], 1, s[0] % 0x80);
      GroupsPassStep(g, 0, Bit31(v));
    }
  }

  lemma ZeroOr(d: nat)
    requires d < 0x80
    ensures BitOr(0, U64(Shl(d, 0))) == d && U32(d) == d
  {
    hide BitOr;
    assert Shl(d, 0) == d;
    hide Shl;
    OrZero(d);
  }

  /** The tests of all bytes, spelled out by the number of bytes. */
  lemma PassForms(g: seq<byte>, negative: bool)
    requires g != [] && g[|g| - 1] < 0x80
    ensures GroupsPass(g, 0, negative) <==>
            || |g| <= 4
            || (|g| == 5 && g[4] < 0x10)
            || (|g| > 5 && forall k | 5 <= k < |g| ::
              g[k] % 0x80 == 0 || (negative && g[k] == if k < 9 then 0xFF else 0x01))
  {
    if |g| >= 5 && GroupsPass(g, 0, negative) {
      assert GroupPasses(g[4], 0 + 4, 4 == |g| - 1, negative);
      forall k | 5 <= k < |g| ensures g[k] % 0x80 == 0 || (negative && g[k] == if k < 9 then 0xFF else 0x01) {
        assert GroupPasses(g[k], 0 + k, k == |g| - 1, negative);
      }
    }
  }

  /** The group with index j leaves a value below 2^32: the fifth group has four bits, later ones
      are zero. Of the tenth group one bit counts. */
  predicate GroupFits(b: byte, j: nat)
  {
    if j < 4 then true
    else if j == 4 then b % 0x80 < 0x10
    else if j < 9 then b % 0x80 == 0
    else b % 2 == 0
  }

  predicate GroupsFit(g: seq<byte>, j: nat)
  {
    forall i | 0 <= i < |g| :: GroupFits(g[i], j + i)
  }

  lemma GroupsFitStep(g: seq<byte>, j: nat)
    requires g != []
    ensures GroupsFit(g, j) <==> GroupFits(g[0], j) && GroupsFit(g[1..], j + 1)
  {
    hide GroupFits;
    if GroupFits(g[0], j) && GroupsFit(g[1..], j + 1) {
      forall i | 0 <= i < |g| ensures GroupFits(g[i], j + i) {
        if i > 0 { assert GroupFits(g[1..][i - 1], j + 1 + (i - 1)); }
      }
    } else if GroupsFit(g, j) {
      forall i | 0 <= i < |g| - 1 ensures GroupFits(g[1..][i], j + 1 + i) {
        assert GroupFits(g[i + 1], j + (i + 1));
      }
    }
  }

  /** A round of the 64-bit loop adds the group, or the one bit of it that fits. */
  lemma RoundAdds(d: nat, j: nat, acc: nat)
    requires d < 0x80 && 1 <= j <= 9 && acc < Pow2(7 * j)
    ensures BitOr(acc, U64(Shl(d, 7 * j))) == acc + Shl(if j == 9 then d % 2 else d, 7 * j)
    ensures j < 9 ==> acc + Shl(d, 7 * j) < Pow2(7 * (j + 1))
  {
    hide BitOr, Shl, Pow2, U64;
    if j == 9 {
      Truncate63(d);
      OrDisjoint(acc, d % 2, 63);
    } else {
      ShortGroup(d, 7 * j, acc);
      OrDisjoint(acc, d, 7 * j);
      GroupBound(d, 7 * j, acc);
      assert 7 * (j + 1) == 7 * j + 7;
    }
  }

  lemma RoundFits(b: byte, j: nat, acc: nat)
    requires 1 <= j <= 9 && acc < Pow2(7 * j)
    ensures BitOr(acc, U64(Shl(b % 0x80, 7 * j))) < TWO32 <==> acc < TWO32 && GroupFits(b, j)
  {
    hide BitOr, Shl, Pow2, U64;
    RoundAdds(b % 0x80, j, acc);
    assert b % 0x80 % 2 == b % 2;
    var e := if j == 9 then b % 2 else b % 0x80;
    Pow2Values();
    if j < 4 {
      Pow2Monotone(7 * j, 28);
      Pow2Monotone(7 * (j + 1), 28);
    } else if j == 4 {
      ShlConstants(e);
    } else {
      HighShift(e, 7 * j);
      if e == 0 {
        ShlZero(7 * j);
      } else {
        ShlMonotone(1, e, 7 * j);
        ShlOne(7 * j);
        Pow2Monotone(35, 7 * j);
      }
    }
  }

  lemma {:induction false} LoopFits(s: seq<byte>, j: nat, acc: nat)
    requires 1 <= j <= 9 && acc < Pow2(7 * j) && Varint64Loop(s, 7 * j, acc).Got?
    ensures Varint64Loop(s, 7 * j, acc).value < TWO32 <==> acc < TWO32 && GroupsFit(FirstVarint(s), j)
    decreases |s|
  {
    hide BitOr, Shl, Pow2, Varint64Loop, GroupsFit, GroupFits, U64, FirstVarint;
    Varint64Reads(s, 7 * j, acc);
    RoundFits(s[0], j, acc);
    RoundWord(s[0], j, acc);
    FirstVarintStep(s);
    GroupsFitStep(FirstVarint(s), j);
    if s[0] < 0x80 {
      NoGroupsFit(j + 1);
    } else {
      var t, acc' := s[1..], BitOr(acc, U64(Shl(s[0] % 0x80, 7 * j)));
      assert 7 * (j + 1) == 7 * j + 7;
      Varint64Reads(t, 7 * (j + 1), acc');
      LoopFits(t, j + 1, acc');
    }
  }

  lemma NoGroupsFit(j: nat)
    ensures GroupsFit([], j)
  {
  }

  /** A varint stands for a value below 2^32 if and only if all its groups fit. */
  lemma NarrowValue(s: seq<byte>)
    requires DecVarint64(s).Got?
    ensures DecVarint64(s).value < TWO32 <==> GroupsFit(FirstVarint(s), 0)
  {
    hide BitOr, Shl, U64, Varint64Loop, GroupsFit, FirstVarint;
    Varint64Reads(s, 0, 0);
    ZeroOr(s[0] % 0x80);
    FirstVarintStep(s);
    GroupsFitStep(FirstVarint(s), 0);
    if s[0] < 0x80 {
      NoGroupsFit(1);
    } else {
      assert Pow2(7) == 0x80 by { Pow2Values(); }
      LoopFits(s[1..], 1, s[0] % 0x80);
    }
  }

  /** When both decoders accept, the 32-bit decoder returns the value itself if and only if the
      varint has at most five bytes, or the fifth group has no bit above the word and all later
      groups are zero. Every other value loses its high bits without an error. */
  lemma Varint32Exact(s: seq<byte>)
    requires DecVarint64(s).Got? && DecVarint32(s).Got?
    ensures var g := FirstVarint(s);
            DecVarint32(s).value == DecVarint64(s).value <==>
            |g| <= 5 || (g[4] / 0x10 % 8 == 0 && forall k | 5 <= k < |g| :: g[k] % 0x80 == 0)
  {
    hide DecVarint64, DecVarint32, FirstVarint, GroupsFit;
    var g, v := FirstVarint(s), DecVarint64(s).value;
    DecodersAgree(s);
    NarrowValue(s);
    Varint32Accepts(s);
    FirstVarintStep(s);
    FitForms(g, Bit31(v));
    WordIsValue(v);
  }

  lemma WordIsValue(v: nat)
    ensures U32(v) == v <==> v < TWO32
  {
  }

  /** Of the varints that the 32-bit decoder accepts, those whose groups fit. */
  lemma FitForms(g: seq<byte>, negative: bool)
    requires g != []
    requires || |g| <= 4
             || (|g| == 5 && g[4] < 0x10)
             || (|g| > 5 && forall k | 5 <= k < |g| ::
               g[k] % 0x80 == 0 || (negative && g[k] == if k < 9 then 0xFF else 0x01))
    ensures GroupsFit(g, 0) <==> |g| <= 5 || (g[4] / 0x10 % 8 == 0 && forall k | 5 <= k < |g| :: g[k] % 0x80 == 0)
  {
    hide GroupFits;
    forall k | 0 <= k < |g| ensures GroupFits(g[k], 0 + k) <==> PlainGroup(g[k], k) { PlainFits(g[k], k, negative); }
    if GroupsFit(g, 0) {
      forall k | 0 <= k < |g| ensures PlainGroup(g[k], k) { assert GroupFits(g[k], 0 + k); }
      assert |g| > 5 ==> PlainGroup(g[4], 4);
      forall k | 5 <= k < |g| ensures g[k] % 0x80 == 0 { assert PlainGroup(g[k], k); }
    } else {
      var k :| 0 <= k < |g| && !GroupFits(g[k], 0 + k);
      assert !PlainGroup(g[k], k);
    }
  }

  /** The groups of a value below 2^32, without the tenth group's special case. */
  predicate PlainGroup(b: byte, k: nat)
  {
    if k < 4 then true else if k == 4 then b / 0x10 % 8 == 0 else b % 0x80 == 0
  }

  lemma PlainFits(b: byte, k: nat, negative: bool)
    requires k < 5 || b % 0x80 == 0 || (negative && b == if k < 9 then 0xFF else 0x01)
    ensures GroupFits(b, k) <==> PlainGroup(b, k)
  {
  }

  /** The 32-bit decoder drops bits 32 to 34 when the fifth byte has a continuation bit. */
  lemma Varint32DropsBits()
    ensures DecVarint64([0x80, 0x80, 0x80, 0x80, 0x90, 0x00]) == Got(TWO32, [])
    ensures DecVarint32([0x80, 0x80, 0x80, 0x80, 0x90, 0x00]) == Got(0, [])
  {
    hide BitOr, Shl, Varint64Loop, Varint32Loop, Pow2;
    var t4: seq<byte> := [0x80, 0x80, 0x80, 0x90, 0x00];
    var t3: seq<byte> := [0x80, 0x80, 0x90, 0x00];
    var t2: seq<byte> := [0x80, 0x90, 0x00];
    var t1: seq<byte> := [0x90, 0x00];
    var t0: seq<byte> := [0x00];
    assert [0x80] + t4 == [0x80, 0x80, 0x80, 0x80, 0x90, 0x00];
    assert [0x00] + [] == t0;
    assert [0x80] + t3 == t4 && [0x80] + t2 == t3 && [0x80] + t1 == t2 && [0x90] + t0 == t1;
    ZeroGroups();
    Pow2Values();
    ShlConstants(0x10);
    Varint32Step(0x80, t3, 7, 0);
    Varint32Step(0x80, t2, 14, 0);
    Varint32Step(0x80, t1, 21, 0);
    Varint32Step(0x90, t0, 28, 0);
    SkipGroup(t0);
    Varint64Step(0x80, t4, 0, 0);
    Varint64Step(0x80, t3, 7, 0);
    Varint64Step(0x80, t2, 14, 0);
    Varint64Step(0x80, t1, 21, 0);
    Varint64Step(0x90, t0, 28, 0);
    Varint64Step(0x00, [], 35, TWO32);
  }

  lemma ZeroGroups()
    ensures forall k: nat :: Shl(0, k) == 0
  {
    forall k: nat ensures Shl(0, k) == 0 { ShlProduct(0, k); }
  }

  lemma SkipGroup(t: seq<byte>)
    requires t == [0x00]
    ensures Varint32Loop(t, 35, 0) == Got(0, [])
  {
  }

  // --------------------------------------------------------------------------
  // What the 32-bit decoder recovers
  // --------------------------------------------------------------------------

  lemma {:induction false} Varint32LoopInverts(v: nat, t: seq<byte>, k: nat, acc: nat)
    requires GroupPosition(k) && k <= 28 && acc < Pow2(k) && acc + Shl(v, k) < TWO32
    ensures Varint32Loop(EncVarint(v) + t, k, acc) == Got(acc + Shl(v, k), t)
    decreases v
  {
    hide BitOr, Shl, Pow2, Varint32Loop, EncVarint;
    SplitGroup(v, k);
    EncHead(v, t);
    if k == 28 { ShlConstants(v); }
    if v < 0x80 {
      Varint32Step(v, t, k, acc);
    } else {
      Varint32Step(v % 0x80 + 0x80, EncVarint(v / 0x80) + t, k, acc);
      GroupBound(v % 0x80, k, acc);
      Varint32LoopInverts(v / 0x80, t, k + 7, acc + Shl(v % 0x80, k));
    }
  }

  /** The 32-bit decoder inverts the encoder on every uint32. */
  lemma Varint32RoundTrip(v: nat, t: seq<byte>)
    requires v < TWO32
    ensures DecVarint32(EncVarint(v) + t) == Got(v, t)
  {
    hide EncVarint, Varint32Loop, Shl, Pow2;
    EncHead(v, t);
    if v >= 0x80 {
      assert (EncVarint(v) + t)[1..] == EncVarint(v / 0x80) + t;
      Pow2Values();
      ShlConstants(v / 0x80);
      Varint32LoopInverts(v / 0x80, t, 7, v % 0x80);
    } else {
      assert ([v] + t)[1..] == t;
    }
  }

  /** The bytes above bit 34 of a sign-extended int32 are exactly those the 32-bit decoder lets pass. */
  lemma SignTail(t: seq<byte>, acc: nat)
    requires 0x8000_0000 <= acc < TWO32
    ensures Varint32Loop(EncVarint(0x1FFF_FFFF) + t, 35, acc) == Got(acc, t)
  {
    hide BitOr, Shl;
    assert EncVarint(0x1FFF_FFFF) == [0xFF, 0xFF, 0xFF, 0xFF, 0x01];
    var t1 := [0x01] + t;
    var t2 := [0xFF] + t1;
    var t3 := [0xFF] + t2;
    var t4 := [0xFF] + t3;
    assert EncVarint(0x1FFF_FFFF) + t == [0xFF] + t4;
    SignStep(t4, 35, acc); SignStep(t3, 42, acc); SignStep(t2, 49, acc); SignStep(t1, 56, acc);
    assert ([0x01] + t)[1..] == t;
  }

  lemma SignStep(t: seq<byte>, k: nat, acc: nat)
    requires 35 <= k < 63 && 0x8000_0000 <= acc < TWO32
    ensures Varint32Loop([0xFF] + t, k, acc) == Varint32Loop(t, k + 7, acc)
  {
    hide BitOr, Shl;
    assert ([0xFF] + t)[1..] == t;
  }

  lemma {:induction false} SignLoopInverts(w: nat, t: seq<byte>, k: nat, acc: nat, m: nat)
    requires GroupPosition(k) && k <= 28 && acc < Pow2(k)
    requires 1 <= m <= 0x8000_0000 && acc + Shl(w, k) == TWO64 - m
    ensures Varint32Loop(EncVarint(w) + t, k, acc) == Got(TWO32 - m, t)
    decreases w
  {
    hide BitOr, Shl, Pow2, Varint32Loop, EncVarint;
    SplitGroup(w, k);
    EncHead(w, t);
    GroupBound(w % 0x80, k, acc);
    Pow2Values();
    Pow2Monotone(k + 7, 35);
    ShlZero(k + 7);
    Varint32Step(w % 0x80 + 0x80, EncVarint(w / 0x80) + t, k, acc);
    var acc' := acc + Shl(w % 0x80, k);
    if k < 28 {
      Low32(k + 7, acc');
      SignLoopInverts(w / 0x80, t, k + 7, acc', m);
    } else {
      SignHigh(w / 0x80, acc', m);
      SignTail(t, U32(acc'));
    }
  }

  lemma ShlZero(k: nat)
    ensures Shl(0, k) == 0
  {
    ShlProduct(0, k);
  }

  lemma SignHigh(q: nat, x: nat, m: nat)
    requires x < 0x8_0000_0000 && 1 <= m <= 0x8000_0000 && x + Shl(q, 35) == TWO64 - m
    ensures q == 0x1FFF_FFFF && U32(x) == TWO32 - m
  {
    hide Shl, Pow2;
    Pow2Values();
    ShlProduct(q, 35);
  }

  /** ... and on every negative int32 sign-extended to 64 bits. */
  lemma Varint32SignExtended(n: int, t: seq<byte>)
    requires -0x8000_0000 <= n < 0
    ensures DecVarint32(EncVarint(n + TWO64) + t) == Got(n + TWO32, t)
  {
    hide EncVarint, Varint32Loop, Shl, Pow2;
    var v := n + TWO64;
    EncHead(v, t);
    assert (EncVarint(v) + t)[1..] == EncVarint(v / 0x80) + t;
    Pow2Values();
    ShlConstants(v / 0x80);
    SignLoopInverts(v / 0x80, t, 7, v % 0x80, -n);
  }

  // --------------------------------------------------------------------------
  // pb_encode_negative_varint: the build without 64-bit integers
  // --------------------------------------------------------------------------

  /** What the compensation step XORs into the shifted word: as many one bits as are compensated,
      from bit 25 on. */
  function CompensationMask(bits: nat): nat
    requires bits <= 7
  {
    U32(Shl(0xFF / Pow2(8 - bits), 25))
  }

  /** The 32-bit word against the 64-bit value it stands for, after i bytes: the top 32 bits of the
      sign-extended value are ones, of which `compensation` are still to be shifted in. */
  predicate Emulates(value: nat, compensation: nat, wide: nat)
  {
    if compensation == 0 then value == wide < 0x2000_0000
    else
      && compensation in {32, 25, 18, 11, 4}
      && 0x8000_0000 <= value < TWO32
      && wide == Pow2(32 + compensation) - (TWO32 - value)
  }

  lemma MaskValues()
    ensures CompensationMask(7) == 127 * 0x200_0000 && CompensationMask(4) == 15 * 0x200_0000
  {
    hide Shl;
    ShlConstants(0xFF / Pow2(1));
    ShlConstants(0xFF / Pow2(4));
  }

  lemma XorMask(shifted: nat, bits: nat)
    requires shifted < 0x200_0000 && bits in {4, 7}
    ensures BitXor(shifted, CompensationMask(bits)) == shifted + CompensationMask(bits)
  {
    hide BitXor, BitOr, Shl, Pow2, CompensationMask;
    MaskValues();
    var x := if bits == 4 then 15 else 127;
    ShlConstants(x);
    Pow2Values();
    OrDisjoint(shifted, x, 25);
  }

  lemma EmulatesMagnitude(value: nat, compensation: nat, wide: nat, m: nat)
    requires compensation in {32, 25, 18, 11, 4} && 1 <= m <= 0x8000_0000
    requires value == TWO32 - m && wide == Pow2(32 + compensation) - m
    ensures wide >= 0x80 && wide % 0x80 == value % 0x80 && value / 0x80 < 0x200_0000
    ensures wide / 0x80 == Pow2(25 + compensation) - (m + 0x7F) / 0x80
    ensures value / 0x80 == 0x200_0000 - (m + 0x7F) / 0x80
  {
    hide Pow2;
    Pow2Plus7(25 + compensation);
    Pow2Values();
    Pow2Monotone(36, 32 + compensation);
    Pow2Monotone(35, 36);
  }

  /** One round of the emulation follows one round of the 64-bit encoder. */
  lemma EmulationStep(value: nat, compensation: nat, wide: nat)
    requires compensation in {32, 25, 18, 11, 4} && Emulates(value, compensation, wide)
    ensures wide >= 0x80 && wide % 0x80 == value % 0x80 && value != 0
    ensures var bits := if compensation > 7 then 7 else compensation;
            Emulates(BitXor(value / 0x80, CompensationMask(bits)), compensation - bits, wide / 0x80)
  {
    hide BitXor, Shl, Pow2, CompensationMask;
    var m := TWO32 - value;
    var bits := if compensation > 7 then 7 else compensation;
    EmulatesMagnitude(value, compensation, wide, m);
    XorMask(value / 0x80, bits);
    MaskValues();
    Pow2Values();
    assert wide / 0x80 == Pow2(25 + compensation) - (m + 0x7F) / 0x80;
    if compensation > 7 {
      assert wide / 0x80 == Pow2(32 + (compensation - 7)) - (m + 0x7F) / 0x80;
    } else {
      Pow29();
    }
  }

  lemma Pow29()
    ensures Pow2(29) == 0x2000_0000
  {
    Pow2Values();
  }

  // --------------------------------------------------------------------------
  // Zigzag
  // --------------------------------------------------------------------------

  predicate IsInt64(n: int)
  {
    -0x8000_0000_0000_0000 <= n < 0x8000_0000_0000_0000
  }

  /** A 64-bit word read as a signed integer. */
  function AsInt64(x: nat): int
  {
    if x >= 0x8000_0000_0000_0000 then x - 0x1_0000_0000_0000_0000 else x
  }

  /** A signed integer as a 64-bit word. */
  function AsWord64(n: int): nat
    requires IsInt64(n)
  {
    if n < 0 then n + 0x1_0000_0000_0000_0000 else n
  }

  /** `~x` on 64 bits */
  function Not64(x: nat): nat
    requires x < TWO64
  {
    0xFFFF_FFFF_FFFF_FFFF - x
  }

  function ZigZag(n: int): nat
    requires IsInt64(n)
  {
    if n < 0 then Not64(U64(2 * AsWord64(n))) else U64(2 * AsWord64(n))
  }

  function UnZigZag(v: nat): int
    requires v < TWO64
  {
    if v % 2 == 1 then AsInt64(Not64(v / 2)) else AsInt64(v / 2)
  }

  /** Zigzag is a bijection between int64 and the 64-bit words, and keeps small magnitudes small. */
  lemma ZigZagBijection(n: int, v: nat)
    requires IsInt64(n) && v < TWO64
    ensures ZigZag(n) < TWO64 && UnZigZag(ZigZag(n)) == n
    ensures IsInt64(UnZigZag(v)) && ZigZag(UnZigZag(v)) == v
    ensures ZigZag(n) == if n < 0 then -2 * n - 1 else 2 * n
  {
    assert n < 0 ==> U64(2 * AsWord64(n)) == 2 * n + 0x1_0000_0000_0000_0000;
  }
}
