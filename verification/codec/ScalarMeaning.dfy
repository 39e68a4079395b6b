/** Which payloads the decoders of single values accept, and what they take them for: by the numbers
    of the wire format, for every input. */
module ScalarMeaning {
  import opened Bits
  import opened Varint
  import opened VarintLaws
  import opened VarintAcceptance
  import opened Options
  import opened Schema
  import opened Decoding
  import opened WireFormat

  // --------------------------------------------------------------------------
  // 64-bit varints
  // --------------------------------------------------------------------------

  /** What the loop adds to the accumulator from byte j on: the number of the bytes, moved to its
      place, in 64 bits. */
  predicate ReadsNumber(s: seq<byte>, j: nat, acc: nat)
  {
    var r, g := Varint64Loop(s, 7 * j, acc), FirstVarint(s);
    && (r.Got? <==> Ended(g) && |g| + j <= 10)
    && (r.Got? ==> g + r.rest == s && r.value == U64(acc + Shl(Number(g), 7 * j)))
  }

  lemma NumberStep(g: seq<byte>, k: nat)
    requires g != []
    ensures Shl(Number(g), k) == Shl(g[0] % 128, k) + Shl(Number(g[1..]), k + 7)
  {
    hide Shl;
    var d, n := g[0] % 128, Number(g[1..]);
    Shl7(n, k);
    ShlSum(d, n * 0x80, k);
    assert Number(g) == d + n * 0x80;
  }

  lemma NumberOfOne(b: byte)
    ensures Number([b]) == b % 128 && Number([]) == 0
  {
    assert [b][1..] == [];
  }

  /** The tenth group: only its lowest bit fits. */
  lemma TenthGroup(acc: nat, d: nat)
    requires acc < Pow2(63) && d < 128
    ensures U64(acc + Shl(d, 63)) == acc + Shl(d % 2, 63)
  {
    hide Shl, Pow2, U64;
    Pow2Values();
    ShlConstants(d);
    ShlConstants(d % 2);
    LowestBit(acc, d);
  }

  lemma LowestBit(acc: nat, d: nat)
    requires acc < 0x8000_0000_0000_0000
    ensures U64(acc + d * 0x8000_0000_0000_0000) == acc + d % 2 * 0x8000_0000_0000_0000
  {
    var q, r := d / 2, d % 2;
    assert d == 2 * q + r;
    assert acc + d * 0x8000_0000_0000_0000 == q * 0x1_0000_0000_0000_0000 + (acc + r * 0x8000_0000_0000_0000);
  }

  lemma Small(acc: nat, j: nat)
    requires j <= 9 && acc < Pow2(7 * j)
    ensures U64(acc) == acc && acc < TWO64
  {
    Pow2Monotone(7 * j, 63);
    Pow2Values();
    hide Pow2;
  }

  lemma LoopUnfolds(s: seq<byte>, k: nat, acc: nat)
    requires s != [] && k < 64
    ensures var next := BitOr(acc, U64(Shl(s[0] % 0x80, k)));
            Varint64Loop(s, k, acc) == if s[0] >= 0x80 then Varint64Loop(s[1..], k + 7, next) else Got(next, s[1..])
    ensures Varint64Loop([], k, acc) == Fail
  {
    hide BitOr, Shl, U64;
  }

  /** The accumulator after a round. */
  lemma RoundValue(d: nat, j: nat, acc: nat)
    requires d < 128 && j <= 9 && acc < Pow2(7 * j)
    ensures var next := BitOr(acc, U64(Shl(d, 7 * j)));
            next == U64(acc + Shl(d, 7 * j)) && (j < 9 ==> next == acc + Shl(d, 7 * j) < Pow2(7 * (j + 1)))
  {
    hide BitOr, Shl, Pow2, U64;
    if j == 0 {
      ZeroOr(d);
      assert Shl(d, 0) == d by { ShlNone(d); }
      assert acc == 0 && Pow2(7) == 128 by { Pow2Values(); }
      Small(d, 1);
    } else {
      RoundAdds(d, j, acc);
      if j == 9 { TenthGroup(acc, d); } else { Small(acc + Shl(d, 7 * j), j + 1); }
    }
  }

  lemma ShlNone(d: nat)
    ensures Shl(d, 0) == d
  {
  }

  lemma FirstLast(s: seq<byte>)
    requires s != []
    ensures s[0] < 128 ==> FirstVarint(s) == [s[0]] && Ended([s[0]])
    ensures s[0] >= 128 ==> FirstVarint(s) == [s[0]] + FirstVarint(s[1..])
    ensures s[0] >= 128 ==> (Ended(FirstVarint(s)) <==> Ended(FirstVarint(s[1..])))
  {
    FirstUnfolds(s);
    OneEnds(s[0]);
    hide FirstVarint, Ended;
    if s[0] >= 128 && FirstVarint(s[1..]) != [] { LastOf(s[0], FirstVarint(s[1..])); }
  }

  lemma FirstUnfolds(s: seq<byte>)
    requires s != []
    ensures FirstVarint(s) == if s[0] < 128 then [s[0]] else [s[0]] + FirstVarint(s[1..])
  {
  }

  lemma OneEnds(b: byte)
    ensures (Ended([b]) <==> b < 128) && !Ended([]) && [b] + [] == [b]
  {
  }

  lemma {:induction false} LoopReadsNumber(s: seq<byte>, j: nat, acc: nat)
    requires j <= 9 && acc < Pow2(7 * j)
    ensures ReadsNumber(s, j, acc)
    decreases |s|
  {
    hide BitOr, Shl, Pow2, U64, Varint64Loop, FirstVarint, Ended, Number;
    if s == [] {
      LoopUnfolds([0], 0, 0);
      NothingFirst(7 * j, acc);
    } else {
      var b, t := s[0], s[1..];
      var d, g := b % 128, FirstVarint(s);
      var next := BitOr(acc, U64(Shl(d, 7 * j)));
      LoopUnfolds(s, 7 * j, acc);
      FirstLast(s);
      RoundValue(d, j, acc);
      assert s == [b] + t && 7 * (j + 1) == 7 * j + 7;
      if b < 128 {
        NumberOfOne(b);
      } else if j == 9 {
        TooFar(t, next);
      } else {
        LoopReadsNumber(t, j + 1, next);
        NumberStep(g, 7 * j);
        assert g[1..] == FirstVarint(t) && |g| == 1 + |FirstVarint(t)|;
      }
    }
  }

  lemma NothingFirst(k: nat, acc: nat)
    ensures Varint64Loop([], k, acc) == Fail && FirstVarint([]) == [] && !Ended([])
  {
  }

  lemma TooFar(t: seq<byte>, acc: nat)
    ensures Varint64Loop(t, 70, acc) == Fail
    ensures Ended(FirstVarint(t)) ==> |FirstVarint(t)| >= 1
  {
  }

  /** The 64-bit decoder accepts, of every input, exactly the varints of at most ten bytes, and reads
      their number in 64 bits. */
  lemma Varint64Exact(s: seq<byte>)
    ensures DecVarint64(s).Got? <==> Ended(FirstVarint(s)) && |FirstVarint(s)| <= 10
    ensures DecVarint64(s).Got? ==>
              && FirstVarint(s) + DecVarint64(s).rest == s
              && DecVarint64(s).value == Number(FirstVarint(s)) % 0x1_0000_0000_0000_0000
  {
    assert Pow2(0) == 1;
    LoopReadsNumber(s, 0, 0);
    ShlNone(Number(FirstVarint(s)));
    hide Varint64Loop, FirstVarint, Number, Shl;
  }

  // --------------------------------------------------------------------------
  // Integers
  // --------------------------------------------------------------------------

  /** The integer that a signed field holds: the value in 64 bits, or in the low 32 of them. */
  predicate SignedMeaning(size: nat, v: nat, n: int)
  {
    FitsSigned(size, n) && (n - v) % (if size == 8 then 0x1_0000_0000_0000_0000 else 0x1_0000_0000) == 0
  }

  predicate ZigZagMeaning(size: nat, v: nat, n: int)
  {
    FitsSigned(size, n) && v == if n < 0 then -2 * n - 1 else 2 * n
  }

  /** Of a signed field exactly the values are accepted that some integer of its width stands for, and
      it is that integer. */
  lemma ClampVarintExactly(size: nat, v: nat, n: int)
    requires v < TWO64
    ensures ClampVarint(size, v) == Some(VInt(n)) <==> size in {1, 2, 4, 8} && SignedMeaning(size, v, n)
    ensures ClampVarint(size, v).Some? ==> ClampVarint(size, v).value.VInt?
  {
    if size == 8 {
      Wide(v, n);
    } else if ValidWidth(size) {
      Narrow(v, n);
      Fits(size, Truncate(4, v));
    }
  }

  lemma Wide(v: nat, n: int)
    requires v < TWO64
    ensures AsInt64(U64(v)) == n <==> FitsSigned(8, n) && (n - v) % 0x1_0000_0000_0000_0000 == 0
    ensures Truncate(8, AsInt64(U64(v))) == AsInt64(U64(v))
  {
    if FitsSigned(8, n) && (n - v) % 0x1_0000_0000_0000_0000 == 0 {
      var q := (n - v) / 0x1_0000_0000_0000_0000;
      assert n == v + q * 0x1_0000_0000_0000_0000;
    }
  }

  lemma Narrow(v: nat, n: int)
    ensures Truncate(4, v) == n <==> FitsSigned(4, n) && (n - v) % 0x1_0000_0000 == 0
  {
    var q := (v + 0x8000_0000) / 0x1_0000_0000;
    assert Truncate(4, v) == v - q * 0x1_0000_0000;
    if FitsSigned(4, n) && (n - v) % 0x1_0000_0000 == 0 {
      var p := (n - v) / 0x1_0000_0000;
      assert n == v + p * 0x1_0000_0000;
    }
  }

  lemma Fits(size: nat, w: int)
    requires ValidWidth(size) && IsInt64(w)
    ensures Truncate(size, w) == w <==> FitsSigned(size, w)
  {
  }

  lemma ClampUVarintExactly(size: nat, v: nat, n: int)
    requires v < TWO64
    ensures ClampUVarint(size, v) == Some(VInt(n)) <==>
            size in {1, 2, 4, 8} && n == v && v < (if size == 1 then 0x100 else if size == 2 then 0x1_0000
              else if size == 4 then 0x1_0000_0000 else 0x1_0000_0000_0000_0000)
  {
  }

  lemma ClampSVarintExactly(size: nat, v: nat, n: int)
    requires v < TWO64
    ensures ClampSVarint(size, v) == Some(VInt(n)) <==> size in {1, 2, 4, 8} && ZigZagMeaning(size, v, n)
    ensures ClampSVarint(size, v).Some? ==> ClampSVarint(size, v).value.VInt?
  {
    if ValidWidth(size) {
      ZigZagBijection(0, v);
      if IsInt64(n) { ZigZagBijection(n, v); }
      assert U64(v) == v;
      Fits(size, UnZigZag(v));
      hide ZigZag, UnZigZag;
    }
  }

  /** The integer that the payload's number stands for in the field. */
  predicate IntegerMeaning(f: Field, number: nat, n: int)
  {
    && f.dataSize in {1, 2, 4, 8}
    && var v := number % 0x1_0000_0000_0000_0000;
       match f.ltype
       case LVarint => SignedMeaning(f.dataSize, v, n)
       case LUVarint => n == v && v < (if f.dataSize == 1 then 0x100 else if f.dataSize == 2 then 0x1_0000
         else if f.dataSize == 4 then 0x1_0000_0000 else 0x1_0000_0000_0000_0000)
       case LSVarint => ZigZagMeaning(f.dataSize, v, n)
       case _ => false
  }

  /** Integer fields, on every input: accepted exactly when the payload is a varint of at most ten
      bytes and its number stands for an integer of the field's width; then it is that integer. */
  lemma IntegerExactly(f: Field, s: seq<byte>, n: int, rest: seq<byte>)
    requires f.ltype.LVarint? || f.ltype.LUVarint? || f.ltype.LSVarint?
    ensures DecInteger(f, s) == Got(VInt(n), rest) <==>
            var g := FirstVarint(s);
            Ended(g) && |g| <= 10 && s == g + rest && IntegerMeaning(f, Number(g), n)
    ensures DecInteger(f, s).Got? ==> DecInteger(f, s).value.VInt?
  {
    hide DecVarint64, FirstVarint, Ended, Number, ClampVarint, ClampUVarint, ClampSVarint, SignedMeaning, ZigZagMeaning;
    Varint64Exact(s);
    if DecVarint64(s).Got? {
      var g, v, left := FirstVarint(s), DecVarint64(s).value, DecVarint64(s).rest;
      assert s == g + rest <==> rest == left by { SameRest(g, left, rest); }
      ClampVarintExactly(f.dataSize, v, n);
      ClampUVarintExactly(f.dataSize, v, n);
      ClampSVarintExactly(f.dataSize, v, n);
      UnsignedIsInteger(f.dataSize, v);
    }
  }

  lemma UnsignedIsInteger(size: nat, v: nat)
    ensures ClampUVarint(size, v).Some? ==> ClampUVarint(size, v).value.VInt?
  {
  }

  lemma SameRest(g: seq<byte>, a: seq<byte>, b: seq<byte>)
    ensures g + a == g + b <==> a == b
  {
    if g + a == g + b {
      assert a == (g + a)[|g|..] == (g + b)[|g|..] == b;
    }
  }

  // --------------------------------------------------------------------------
  // Other types
  // --------------------------------------------------------------------------

  lemma {:induction false} FromBytes(p: seq<byte>)
    ensures FromLittleEndian(p) == Weighted(p)
  {
    if p == [] {
    } else {
      FromBytes(p[1..]);
    }
  }

  /** Fixed-width fields: any four or eight bytes, by their weights. */
  lemma FixedExactly(f: Field, s: seq<byte>)
    requires f.ltype.LFixed32? || f.ltype.LFixed64?
    ensures var k := if f.ltype.LFixed32? then 4 else 8;
            DecScalar(f, s) == if |s| < k then Fail else Got(VInt(Weighted(s[..k])), s[k..])
  {
    var k := if f.ltype.LFixed32? then 4 else 8;
    if |s| >= k { FromBytes(s[..k]); }
  }

  /** Length-delimited fields: the room that each type demands, and what is stored. */
  lemma DelimitedExactly(f: Field, s: seq<byte>)
    requires f.ltype.LBytes? || f.ltype.LString? || f.ltype.LFixedBytes?
    ensures var d := DecPrefixed(s);
            && (d.Fail? ==> DecScalar(f, s) == Fail)
            && (d.Got? && f.ltype.LBytes? ==>
                  DecScalar(f, s) ==
                  if |d.value| + 4 <= f.dataSize && |d.value| < 0x1_0000_0000 then Got(VBytes(d.value), d.rest)
                  else Fail)
            && (d.Got? && f.ltype.LString? ==>
                  DecScalar(f, s) == if |d.value| < f.dataSize then Got(VBytes(d.value + [0]), d.rest) else Fail)
            && (d.Got? && f.ltype.LFixedBytes? ==>
                  DecScalar(f, s) ==
                  if |d.value| >= 0x1_0000_0000 then Fail
                  else if |d.value| == 0 then Got(VBytes(seq(f.dataSize, _ => 0)), d.rest)
                  else if |d.value| == f.dataSize then Got(VBytes(d.value), d.rest)
                  else Fail)
  {
    hide DecVarint32;
    if DecVarint32(s).Got? && DecVarint32(s).value == 0 {
      assert DecVarint32(s).rest[0..] == DecVarint32(s).rest;
    }
  }

  /** The word that the 32-bit decoder reads from a varint of at most ten bytes that it accepts. */
  lemma Varint32Number(s: seq<byte>)
    requires DecVarint32(s).Got? && |FirstVarint(s)| <= 10
    ensures DecVarint32(s).value == Number(FirstVarint(s)) % 0x1_0000_0000
  {
    hide DecVarint32, DecVarint64, FirstVarint, BytesPass, Number, Ended;
    Varint32AcceptsExactly(s);
    Varint64Exact(s);
    DecodersAgree(s);
    LowWord(Number(FirstVarint(s)));
  }

  lemma LowWord(n: nat)
    ensures n % 0x1_0000_0000_0000_0000 % 0x1_0000_0000 == n % 0x1_0000_0000
  {
    var q, r := n / 0x1_0000_0000_0000_0000, n % 0x1_0000_0000_0000_0000;
    assert n == q * 0x1_0000_0000 * 0x1_0000_0000 + r;
  }

  /** A bool is true if and only if a bit of the 32-bit word is set, however long the varint. */
  lemma BoolExactly(f: Field, s: seq<byte>)
    requires f.ltype.LBool?
    ensures DecScalar(f, s).Got? <==> DecVarint32(s).Got?
    ensures DecScalar(f, s).Got? ==>
              && DecScalar(f, s).value.VBool? && DecScalar(f, s).rest == DecVarint32(s).rest
              && (DecScalar(f, s).value.flag <==> exists i | 0 <= i < 32 :: Bit(DecVarint32(s).value, i))
  {
    hide DecVarint32, Bit;
    if DecVarint32(s).Got? {
      WordRange(s);
      if DecVarint32(s).value != 0 { SomeBit(DecVarint32(s).value, 32); }
      else { forall i | 0 <= i < 32 ensures !Bit(0, i) { ZeroBit(i); } }
    }
  }

  lemma {:induction false} SomeBit(x: nat, k: nat)
    requires 0 < x < Pow2(k)
    ensures exists i | 0 <= i < k :: Bit(x, i)
  {
    if k == 0 {
    } else if x % 2 == 1 {
      assert Bit(x, 0);
    } else {
      SomeBit(x / 2, k - 1);
      var i :| 0 <= i < k - 1 && Bit(x / 2, i);
      assert Bit(x, i + 1);
    }
  }

  lemma {:induction false} LoopRange(s: seq<byte>, p: nat, acc: nat)
    requires acc < TWO32 && p < 0x100
    ensures Varint32Loop(s, p, acc).Got? ==> Varint32Loop(s, p, acc).value < TWO32
    decreases |s|
  {
    hide BitOr, Shl, Pow2, Varint32Loop;
    if s == [] {
      EmptyLoop(p, acc);
    } else {
      LoopRound(s, p, acc);
      Pow2Values();
      OrBound(acc, U32(Shl(s[0] % 0x80, p)), 32);
      if s[0] >= 0x80 { LoopRange(s[1..], (p + 7) % 0x100, Word(s[0], p, acc)); }
    }
  }

  lemma WordRange(s: seq<byte>)
    requires DecVarint32(s).Got?
    ensures DecVarint32(s).value < TWO32 == Pow2(32)
  {
    hide Varint32Loop;
    Pow2Values();
    if s[0] >= 0x80 { LoopRange(s[1..], 7, s[0] % 0x80); }
  }

  /** The tag of a record: field number above three bits of wire type; zero ends the message. */
  lemma TagExactly(s: seq<byte>, tag: nat, wireType: nat, rest: seq<byte>)
    ensures DecTag(s) == Tag(tag, wireType, rest) <==>
            wireType < 8 && 8 * tag + wireType > 0 && DecVarint32(s) == Got(8 * tag + wireType, rest)
    ensures DecTag(s) == Stop(rest) <==> DecVarint32(s) == Got(0, rest)
    ensures DecTag(s).Bad? <==> DecVarint32(s).Fail?
  {
    hide DecVarint32;
  }
}
