/** Which byte strings the 32-bit varint decoder accepts, of any length: its bit position has eight
    bits, so that after 37 bytes groups reach the low word again. */
module VarintAcceptance {
  import opened Bits
  import opened Varint
  import opened VarintLaws

  /** The bit position of the byte with index k. */
  function BitPosition(k: nat): nat
  {
    7 * k % 0x100
  }

  /** The byte with index k puts a one at bit 31 of the word. */
  predicate SetsSign(b: byte, k: nat)
  {
    25 <= BitPosition(k) <= 31 && Bit(b, 31 - BitPosition(k))
  }

  predicate SignBefore(g: seq<byte>, k: nat)
    requires k <= |g|
  {
    exists i | 1 <= i < k :: SetsSign(g[i], i)
  }

  /** Below bit position 32 a byte passes, but for a last one at 28 with more than four bits; from
      there on its group is zero or, when bit 31 has been set before, all sign bits. */
  predicate BytePasses(g: seq<byte>, k: nat)
    requires k < |g|
  {
    var p := BitPosition(k);
    if p < 32 then (p == 28 && k == |g| - 1 ==> g[k] < 0x10)
    else g[k] % 0x80 == 0 || (SignBefore(g, k) && g[k] == if p < 63 then 0xFF else 0x01)
  }

  predicate BytesPass(g: seq<byte>, from: nat)
  {
    forall k | from <= k < |g| :: BytePasses(g, k)
  }

  /** A whole varint: its last byte is the only one without continuation bit. */
  predicate Ended(g: seq<byte>)
  {
    g != [] && g[|g| - 1] < 0x80
  }

  // --------------------------------------------------------------------------
  // The sign bit
  // --------------------------------------------------------------------------

  lemma {:induction false} OrTop(a: nat, b: nat, k: nat)
    requires a < Pow2(k + 1) && b < Pow2(k + 1)
    ensures BitOr(a, b) >= Pow2(k) <==> a >= Pow2(k) || b >= Pow2(k)
    decreases k
  {
    if k == 0 {
    } else {
      assert Pow2(k + 1) == 2 * Pow2(k) && Pow2(k) == 2 * Pow2(k - 1);
      OrTop(a / 2, b / 2, k - 1);
    }
  }

  lemma ModHalf(x: nat, p: nat)
    requires p >= 1
    ensures x % (2 * p) == 2 * (x / 2 % p) + x % 2
  {
    var h, q := x / 2, x / 2 / p;
    var r := 2 * (h % p) + x % 2;
    assert h == q * p + h % p;
    assert x == q * (2 * p) + r by { assert 2 * (q * p) == q * (2 * p); }
    Remainder(x, q, 2 * p, r);
  }

  lemma Remainder(x: nat, q: nat, m: nat, r: nat)
    requires r < m && x == q * m + r
    ensures x % m == r
  {
    var e := x / m - q;
    assert (x / m) * m + x % m == x;
    assert e * m == (x / m) * m - q * m;
    Multiple(e, m);
  }

  lemma Multiple(e: int, m: nat)
    ensures e >= 1 ==> e * m >= m
    ensures e <= -1 ==> e * m + m <= 0
  {
  }

  /** The highest bit of a (k+1)-bit word. */
  lemma {:induction false} TopBit(x: nat, k: nat)
    ensures x % Pow2(k + 1) >= Pow2(k) <==> Bit(x, k)
    decreases k
  {
    assert Pow2(k + 1) == 2 * Pow2(k);
    if k == 0 {
    } else {
      ModHalf(x, Pow2(k));
      TopBit(x / 2, k - 1);
    }
  }

  lemma {:induction false} ShlBit(a: nat, p: nat, k: nat)
    ensures Bit(Shl(a, p), k) <==> k >= p && Bit(a, k - p)
    decreases p
  {
    if p == 0 {
    } else if k > 0 {
      ShlBit(a, p - 1, k - 1);
    }
  }

  lemma HalfOfMod(x: nat, n: nat)
    requires n > 0
    ensures x % Pow2(n) % 2 == x % 2 && x % Pow2(n) / 2 == x / 2 % Pow2(n - 1)
  {
    ModHalf(x, Pow2(n - 1));
    assert Pow2(n) == 2 * Pow2(n - 1);
  }

  /** A word reduced to n bits has the n low bits. */
  lemma {:induction false} ModBit(x: nat, n: nat, k: nat)
    ensures Bit(x % Pow2(n), k) <==> k < n && Bit(x, k)
    decreases k
  {
    hide Pow2;
    if n == 0 {
      assert Pow2(0) == 1 by { Pow2Values(); }
      ZeroBit(k);
    } else {
      HalfOfMod(x, n);
      if k > 0 { ModBit(x / 2, n - 1, k - 1); }
    }
  }

  lemma {:induction false} ZeroBit(k: nat)
    ensures !Bit(0, k)
  {
    if k == 0 {
    } else {
      ZeroBit(k - 1);
    }
  }

  /** Bit 31 of a group that is shifted by p, in a 32-bit word. */
  lemma LowGroupTop(b: byte, p: nat)
    requires p < 32
    ensures U32(Shl(b % 0x80, p)) >= 0x8000_0000 <==> 25 <= p && Bit(b, 31 - p)
  {
    hide Shl, Pow2, Bit;
    Pow2Values();
    TopBit(Shl(b % 0x80, p), 31);
    ShlBit(b % 0x80, p, 31);
    ModBit(b, 7, 31 - p);
  }

  /** One round below bit position 32. */
  lemma SignAfter(b: byte, p: nat, acc: nat)
    requires p < 32 && acc < TWO32
    ensures var word := BitOr(acc, U32(Shl(b % 0x80, p)));
            word < TWO32 && (word >= 0x8000_0000 <==> acc >= 0x8000_0000 || (25 <= p && Bit(b, 31 - p)))
  {
    hide Shl, Pow2, Bit, BitOr;
    var x := U32(Shl(b % 0x80, p));
    Pow2Values();
    LowGroupTop(b, p);
    OrBound(acc, x, 32);
    OrTop(acc, x, 31);
  }

  // --------------------------------------------------------------------------
  // The loop
  // --------------------------------------------------------------------------

  /** The word after a round. */
  function Word(b: byte, p: nat, acc: nat): nat
  {
    if p >= 32 then acc else BitOr(acc, U32(Shl(b % 0x80, p)))
  }

  /** A round, by the byte's test. */
  lemma LoopRound(s: seq<byte>, p: nat, acc: nat)
    requires s != [] && p < 0x100
    ensures var b, next, word := s[0], (p + 7) % 0x100, Word(s[0], p, acc);
            Varint32Loop(s, p, acc) ==
            if p >= 32 && b % 0x80 != 0 && (acc / 0x8000_0000 == 0 || b != if p < 63 then 0xFF else 0x01) then Fail
            else if b >= 0x80 then Varint32Loop(s[1..], next, word)
            else if p == 28 && b >= 0x10 then Fail
            else Got(word, s[1..])
  {
    hide BitOr, Shl, U32;
  }

  lemma NextPosition(k: nat)
    ensures BitPosition(k + 1) == (BitPosition(k) + 7) % 0x100 && BitPosition(k) < 0x100
  {
    var q, r := 7 * k / 0x100, 7 * k % 0x100;
    assert 7 * (k + 1) == q * 0x100 + (r + 7);
  }

  lemma SignGrows(read: seq<byte>, b: byte)
    requires read != []
    ensures SignBefore(read + [b], |read|) == SignBefore(read, |read|)
    ensures SignBefore(read + [b], |read| + 1) <==> SignBefore(read, |read|) || SetsSign(b, |read|)
  {
    hide SetsSign;
    var k, g := |read|, read + [b];
    assert forall i | 1 <= i < k :: g[i] == read[i];
    if SignBefore(read, k) {
      var i :| 1 <= i < k && SetsSign(read[i], i);
      assert SetsSign(g[i], i);
    }
    if SetsSign(b, k) { assert SetsSign(g[k], k); }
  }

  lemma SignInFront(read: seq<byte>, more: seq<byte>)
    ensures SignBefore(read + more, |read|) == SignBefore(read, |read|)
  {
    hide SetsSign;
    var g := read + more;
    assert forall i | 1 <= i < |read| :: g[i] == read[i];
    if SignBefore(read, |read|) {
      var i :| 1 <= i < |read| && SetsSign(read[i], i);
      assert SetsSign(g[i], i);
    }
  }

  lemma BytesPassStep(g: seq<byte>, k: nat)
    requires k < |g|
    ensures BytesPass(g, k) <==> BytePasses(g, k) && BytesPass(g, k + 1)
  {
    hide BytePasses;
  }

  /** The test of the byte behind those read, by the sign that the word has. */
  lemma TestOfByte(read: seq<byte>, b: byte, more: seq<byte>, acc: nat)
    requires read != [] && (acc >= 0x8000_0000 <==> SignBefore(read, |read|))
    requires b < 0x80 <==> more == []
    ensures var p := BitPosition(|read|);
            BytePasses(read + ([b] + more), |read|) <==>
            && !(p >= 32 && b % 0x80 != 0 && (acc / 0x8000_0000 == 0 || b != if p < 63 then 0xFF else 0x01))
            && !(b < 0x80 && p == 28 && b >= 0x10)
  {
    hide BitPosition, SignBefore;
    SignInFront(read, [b] + more);
    assert (read + ([b] + more))[|read|] == b;
  }

  /** A byte behind those read, and the rest of its varint. */
  lemma LoopByte(read: seq<byte>, s: seq<byte>, more: seq<byte>, acc: nat)
    requires s != [] && read != [] && acc < TWO32 && (acc >= 0x8000_0000 <==> SignBefore(read, |read|))
    requires s[0] < 0x80 <==> more == []
    ensures var g, p := read + ([s[0]] + more), BitPosition(|read|);
            Varint32Loop(s, p, acc) ==
            if !BytePasses(g, |read|) then Fail
            else if s[0] >= 0x80 then Varint32Loop(s[1..], BitPosition(|read| + 1), Word(s[0], p, acc))
            else Got(Word(s[0], p, acc), s[1..])
  {
    hide BitOr, Shl, U32, Varint32Loop, SignBefore, BytePasses;
    NextPosition(|read|);
    LoopRound(s, BitPosition(|read|), acc);
    TestOfByte(read, s[0], more, acc);
  }

  /** What LoopPasses says of the bytes s behind those read. */
  predicate AcceptedFrom(read: seq<byte>, s: seq<byte>, acc: nat)
  {
    var r := Varint32Loop(s, BitPosition(|read|), acc);
    && (r.Got? <==> Ended(FirstVarint(s)) && BytesPass(read + FirstVarint(s), |read|))
    && (r.Got? ==> FirstVarint(s) + r.rest == s)
  }

  lemma LastByte(read: seq<byte>, s: seq<byte>, acc: nat)
    requires read != [] && acc < TWO32 && (acc >= 0x8000_0000 <==> SignBefore(read, |read|))
    requires s != [] && s[0] < 0x80
    ensures AcceptedFrom(read, s, acc)
  {
    hide Word, BitPosition, Varint32Loop, SignBefore, BytePasses, BytesPass, FirstVarint, Ended;
    var b := s[0];
    assert s == [b] + s[1..] && [b] + [] == [b];
    FirstVarintStep(s);
    assert FirstVarint(s) == [b];
    LoopByte(read, s, [], acc);
    BytesPassStep(read + [b], |read|);
    NoBytesLeft(read + [b]);
    OneByte(b);
  }

  lemma CutOff(read: seq<byte>, s: seq<byte>, acc: nat)
    requires read != [] && acc < TWO32 && (acc >= 0x8000_0000 <==> SignBefore(read, |read|))
    requires |s| == 1 && s[0] >= 0x80
    ensures AcceptedFrom(read, s, acc)
  {
    hide Word, BitPosition, Varint32Loop, SignBefore, BytePasses, BytesPass, FirstVarint, Ended;
    LoopByte(read, s, [0], acc);
    assert s[1..] == [];
    EmptyLoop(BitPosition(|read| + 1), Word(s[0], BitPosition(|read|), acc));
    NotEnded(s);
  }

  lemma {:induction false} LoopPasses(read: seq<byte>, s: seq<byte>, acc: nat)
    requires read != [] && acc < TWO32 && (acc >= 0x8000_0000 <==> SignBefore(read, |read|))
    ensures AcceptedFrom(read, s, acc)
    decreases |s|
  {
    hide Word, BitPosition, Varint32Loop, SignBefore, SetsSign, BytePasses, BytesPass, FirstVarint, Ended;
    if s == [] {
      EmptyLoop(BitPosition(|read|), acc);
    } else if s[0] < 0x80 {
      LastByte(read, s, acc);
    } else if |s| == 1 {
      CutOff(read, s, acc);
    } else {
      var b, t, word := s[0], s[1..], Word(s[0], BitPosition(|read|), acc);
      SignGrows(read, b);
      RoundSign(b, |read|, acc);
      LoopPasses(read + [b], t, word);
      MoreBytes(read, s, acc);
    }
  }

  lemma MoreBytes(read: seq<byte>, s: seq<byte>, acc: nat)
    requires read != [] && acc < TWO32 && (acc >= 0x8000_0000 <==> SignBefore(read, |read|))
    requires |s| > 1 && s[0] >= 0x80
    requires AcceptedFrom(read + [s[0]], s[1..], Word(s[0], BitPosition(|read|), acc))
    ensures AcceptedFrom(read, s, acc)
  {
    hide Word, BitPosition, Varint32Loop, SignBefore, BytePasses, BytesPass, FirstVarint, Ended;
    var b, t := s[0], s[1..];
    var more := FirstVarint(t);
    FirstVarintStep(s);
    FirstVarintStep(t);
    assert s == [b] + t && FirstVarint(s) == [b] + more;
    LoopByte(read, s, more, acc);
    assert read + ([b] + more) == (read + [b]) + more;
    BytesPassStep(read + ([b] + more), |read|);
    LastOf(b, more);
  }

  lemma OneByte(b: byte)
    requires b < 0x80
    ensures Ended([b])
  {
  }

  lemma RoundSign(b: byte, k: nat, acc: nat)
    requires acc < TWO32
    ensures var word := Word(b, BitPosition(k), acc);
            word < TWO32 && (word >= 0x8000_0000 <==> acc >= 0x8000_0000 || SetsSign(b, k))
  {
    hide Shl, BitOr, U32, Bit, BitPosition;
    if BitPosition(k) < 32 { SignAfter(b, BitPosition(k), acc); }
  }

  lemma EmptyLoop(p: nat, acc: nat)
    ensures Varint32Loop([], p, acc) == Fail && FirstVarint([]) == [] && !Ended([])
  {
  }

  lemma NotEnded(s: seq<byte>)
    requires |s| == 1 && s[0] >= 0x80
    ensures !Ended(FirstVarint(s))
  {
    assert FirstVarint(s[1..]) == [];
  }

  lemma NoBytesLeft(g: seq<byte>)
    ensures BytesPass(g, |g|)
  {
  }

  lemma LastOf(b: byte, more: seq<byte>)
    requires more != []
    ensures Ended([b] + more) == Ended(more)
  {
  }

  lemma FirstByte(b: byte, t: seq<byte>)
    ensures !SignBefore([b], 1) && BitPosition(1) == 7
    ensures DecVarint32([b] + t) == if b < 0x80 then Got(b, t) else Varint32Loop(t, 7, b % 0x80)
    ensures BytesPass([b], 1) && (Ended([b]) <==> b < 0x80)
  {
    hide SetsSign, Varint32Loop;
    assert ([b] + t)[1..] == t;
  }

  /** The bytes that the 32-bit decoder accepts, of every input: a whole varint of which each byte
      behind the first passes its test. It consumes exactly that varint. */
  lemma Varint32AcceptsExactly(s: seq<byte>)
    ensures DecVarint32(s).Got? <==> Ended(FirstVarint(s)) && BytesPass(FirstVarint(s), 1)
    ensures DecVarint32(s).Got? ==> FirstVarint(s) + DecVarint32(s).rest == s
  {
    hide DecVarint32, Varint32Loop, BytesPass, FirstVarint, SignBefore, BitPosition, Ended;
    if s == [] {
      assert DecVarint32(s) == Fail by { NothingRead(); }
      EmptyLoop(7, 0);
    } else {
      var b, t := s[0], s[1..];
      var more := if b < 0x80 then [] else FirstVarint(t);
      assert s == [b] + t && [b] + [] == [b];
      FirstByte(b, t);
      FirstVarintStep(s);
      assert FirstVarint(s) == [b] + more;
      if b >= 0x80 {
        LoopPasses([b], t, b % 0x80);
        if t == [] {
          NotEnded(s);
          EmptyLoop(7, b % 0x80);
        } else {
          FirstVarintStep(t);
          LastOf(b, more);
        }
      }
    }
  }

  lemma NothingRead()
    ensures DecVarint32([]) == Fail
  {
  }

  // --------------------------------------------------------------------------
  // The value read
  // --------------------------------------------------------------------------

  /** The byte with index k puts a one at bit b of the word: its seven bits go to its bit position, as
      far as the word reaches; from position 32 on they go nowhere. */
  predicate SetsBit(g: seq<byte>, k: nat, b: nat)
    requires k < |g|
  {
    BitPosition(k) < 32 && BitPosition(k) <= b < BitPosition(k) + 7 && Bit(g[k], b - BitPosition(k))
  }

  predicate BitAmong(g: seq<byte>, n: nat, b: nat)
    requires n <= |g|
  {
    exists k | 0 <= k < n :: SetsBit(g, k, b)
  }

  lemma {:induction false} OrBit(x: nat, y: nat, k: nat)
    ensures Bit(BitOr(x, y), k) <==> Bit(x, k) || Bit(y, k)
    decreases k
  {
    if x == 0 && y == 0 {
      ZeroBit(k);
    } else if k > 0 {
      OrBit(x / 2, y / 2, k - 1);
    }
  }

  lemma WordBit(b: byte, p: nat, acc: nat, i: nat)
    requires i < 32
    ensures Bit(Word(b, p, acc), i) <==> Bit(acc, i) || (p < 32 && p <= i < p + 7 && Bit(b, i - p))
  {
    hide Shl, Pow2, Bit, BitOr;
    if p < 32 {
      Pow2Values();
      OrBit(acc, U32(Shl(b % 0x80, p)), i);
      ModBit(Shl(b % 0x80, p), 32, i);
      ShlBit(b % 0x80, p, i);
      if i >= p { ModBit(b, 7, i - p); }
    }
  }

  lemma BitGrows(read: seq<byte>, b: byte, i: nat)
    ensures var g := read + [b];
            BitAmong(g, |g|, i) <==> BitAmong(read, |read|, i) || SetsBit(g, |read|, i)
  {
    hide Bit, BitPosition;
    var g := read + [b];
    if BitAmong(read, |read|, i) {
      var k :| 0 <= k < |read| && SetsBit(read, k, i);
      assert SetsBit(g, k, i);
    }
    if BitAmong(g, |g|, i) {
      var k :| 0 <= k < |g| && SetsBit(g, k, i);
      if k < |read| { assert SetsBit(read, k, i); }
    }
  }

  lemma {:induction false} LoopBits(read: seq<byte>, s: seq<byte>, acc: nat, i: nat)
    requires read != [] && i < 32 && (Bit(acc, i) <==> BitAmong(read, |read|, i))
    requires Varint32Loop(s, BitPosition(|read|), acc).Got?
    ensures var g := read + FirstVarint(s);
            Bit(Varint32Loop(s, BitPosition(|read|), acc).value, i) <==> BitAmong(g, |g|, i)
    decreases |s|
  {
    hide Word, BitPosition, Varint32Loop, BitAmong, FirstVarint, Bit;
    EmptyLoop(BitPosition(|read|), acc);
    if s == [] {
      assert false;
    } else {
      var b, t, p := s[0], s[1..], BitPosition(|read|);
      NextPosition(|read|);
      LoopRound(s, p, acc);
      WordBit(b, p, acc, i);
      BitGrows(read, b, i);
      FirstVarintStep(s);
      assert FirstVarint(s) == [b] + FirstVarint(s)[1..];
      if b < 0x80 {
        assert FirstVarint(s) == [b];
      } else {
        LoopBits(read + [b], t, Word(b, p, acc), i);
        assert (read + [b]) + FirstVarint(t) == read + FirstVarint(s);
      }
    }
  }

  lemma FirstBits(b: byte, i: nat)
    requires i < 32
    ensures BitAmong([b], 1, i) <==> i < 7 && Bit(b, i)
    ensures Bit(b % 0x80, i) <==> i < 7 && Bit(b, i)
    ensures b < 0x80 ==> (Bit(b, i) <==> i < 7 && Bit(b, i))
  {
    assert Pow2(7) == 0x80 by { Pow2Values(); }
    hide Bit, Pow2;
    ModBit(b, 7, i);
    assert BitPosition(0) == 0;
    if i < 7 && Bit(b, i) { assert SetsBit([b], 0, i); }
  }

  /** The word that the 32-bit decoder reads, bit by bit, from any varint it accepts: groups that its
      wrapping position brings to the word again are added to it. */
  lemma Varint32Bits(s: seq<byte>, i: nat)
    requires DecVarint32(s).Got? && i < 32
    ensures Bit(DecVarint32(s).value, i) <==> BitAmong(FirstVarint(s), |FirstVarint(s)|, i)
  {
    hide DecVarint32, Varint32Loop, BitAmong, FirstVarint, BitPosition, Bit;
    if s == [] {
      NothingRead();
    } else {
      var b, t := s[0], s[1..];
      assert s == [b] + t;
      FirstByte(b, t);
      FirstBits(b, i);
      FirstVarintStep(s);
      if b < 0x80 {
        assert FirstVarint(s) == [b];
      } else {
        LoopBits([b], t, b % 0x80, i);
        assert [b] + FirstVarint(t) == FirstVarint(s);
      }
    }
  }
}
