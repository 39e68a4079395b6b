/** The required-field bitmap of pb_decode_noinit: two 32-bit words. */
module RequiredBitmap {
  import opened Bits
  import opened Schema
  import opened Decoding

  /** The words have a bit for every index seen, and only real required fields are seen. */
  predicate Recorded(fields: seq<Field>, words: seq<nat>, seen: set<nat>)
  {
    && |words| == 2 && words[0] < TWO32 && words[1] < TWO32
    && (forall k: nat | k < 32 :: Bit(words[0], k) == (k in seen))
    && (forall k: nat | k < 32 :: Bit(words[1], k) == (k + 32 in seen))
    && (forall k | k in seen :: k < RequiredBefore(fields, |fields|) && k < MAX_REQUIRED_FIELDS)
  }

  lemma {:induction false} NoBits(k: nat)
    ensures !Bit(0, k)
  {
    if k == 0 {
    } else {
      NoBits(k - 1);
    }
  }

  lemma NothingRecorded(fields: seq<Field>)
    ensures Recorded(fields, [0, 0], {})
  {
    forall k: nat ensures !Bit(0, k) { NoBits(k); }
  }

  /** Setting a bit in one of two words that hold a set of indices. */
  lemma OrRecords(word: nat, k: nat)
    requires word < TWO32 && k < 32
    ensures BitOr(word, Shl(1, k)) < TWO32
    ensures forall j: nat :: Bit(BitOr(word, Shl(1, k)), j) == (Bit(word, j) || j == k)
  {
    Pow2Values();
    hide BitOr, Shl, Bit;
    ShlOne(k);
    Pow2Monotone(k + 1, 32);
    assert Pow2(k) < TWO32;
    hide Pow2;
    OrBound(word, Pow2(k), 32);
    forall j: nat ensures Bit(BitOr(word, Shl(1, k)), j) == (Bit(word, j) || j == k) {
      OrSetsBit(word, k, j);
    }
  }

  /** A required field's index is below the number of required fields behind it. */
  lemma {:induction false} RequiredIncreases(fields: seq<Field>, i: nat, j: nat)
    requires i < j <= |fields|
    ensures RequiredBefore(fields, i) + (if fields[i].htype.Required? then 1 else 0) <= RequiredBefore(fields, j)
    decreases j
  {
    if i >= j - 1 {
    } else {
      RequiredIncreases(fields, i, j - 1);
    }
  }

  /** Sets the bit of a required field in the word that its index belongs to. */
  method Mark(fields: seq<Field>, words: array<nat>, pos: nat, index: nat, ghost seen: set<nat>)
    requires pos < |fields| && fields[pos].htype.Required? && index == RequiredBefore(fields, pos)
    requires index < MAX_REQUIRED_FIELDS && words.Length == 2 && Recorded(fields, words[..], seen)
    modifies words
    ensures Recorded(fields, words[..], seen + {index})
  {
    hide BitOr, Shl, Bit;
    RequiredIncreases(fields, pos, |fields|);
    var mask := Shl(1, index % 32);
    OrRecords(words[index / 32], index % 32);
    words[index / 32] := BitOr(words[index / 32], mask);
  }

  /** `a >> k` */
  function Shr(a: nat, k: nat): nat
  {
    if k == 0 then a else Shr(a / 2, k - 1)
  }

  lemma {:induction false} AllBitsShifted(n: nat, k: nat)
    ensures Shr(Pow2(n + k) - 1, k) == Pow2(n) - 1
  {
    if k == 0 {
    } else {
      assert (Pow2(n + k) - 1) / 2 == Pow2(n + (k - 1)) - 1;
      AllBitsShifted(n, k - 1);
    }
  }

  const ALL_BITS: nat := 0xFFFF_FFFF

  /** The check behind the loop: it passes exactly when every required field that the bitmap can
      record has been seen. */
  method AllPresent(fields: seq<Field>, words: array<nat>, reqFieldCount: nat, ghost seen: set<nat>) returns (ok: bool)
    requires words.Length == 2 && (fields != [] ==> Recorded(fields, words[..], seen))
    requires reqFieldCount == RequiredBefore(fields, |fields|)
    ensures ok <==> forall k | 0 <= k < RequiredBefore(fields, |fields|) && k < MAX_REQUIRED_FIELDS :: k in seen
  {
    assert fields == [] ==> RequiredBefore(fields, |fields|) == 0;
    hide Bit, Pow2, RequiredBefore, Shr;
    var count: nat := if reqFieldCount > MAX_REQUIRED_FIELDS then MAX_REQUIRED_FIELDS else reqFieldCount;
    if count > 0 {
      var i: nat := 0;
      while i < count / 32
        invariant i <= count / 32
        invariant SeenRange(seen, 0, 32 * i)
      {
        FullWord(words[i]);
        WordRange(fields, words[..], seen, i, 32);
        if words[i] != ALL_BITS {
          return false;
        }
        i := i + 1;
      }
      if count % 32 != 0 {
        WordRange(fields, words[..], seen, count / 32, count % 32);
        PartialWord(words[count / 32], count % 32);
        if words[count / 32] != Shr(ALL_BITS, 32 - count % 32) {
          return false;
        }
      }
    }
    return true;
  }

  predicate SeenRange(seen: set<nat>, from: nat, to: nat)
  {
    forall k: nat | from <= k < to :: k in seen
  }

  /** The n low bits of word i stand for n indices, and nothing is set above the last field. */
  lemma WordRange(fields: seq<Field>, words: seq<nat>, seen: set<nat>, i: nat, n: nat)
    requires Recorded(fields, words, seen) && i < 2 && n <= 32
    ensures AllSet(words[i], n) <==> SeenRange(seen, 32 * i, 32 * i + n)
    ensures RequiredBefore(fields, |fields|) <= 32 * i + n ==> forall j: nat | n <= j < 32 :: !Bit(words[i], j)
  {
    hide Bit, RequiredBefore;
    if SeenRange(seen, 32 * i, 32 * i + n) {
      forall j: nat | j < n ensures Bit(words[i], j) { assert 32 * i + j in seen; }
    } else if AllSet(words[i], n) {
      forall k: nat | 32 * i <= k < 32 * i + n ensures k in seen { assert Bit(words[i], k - 32 * i); }
    }
  }

  lemma FullWord(word: nat)
    requires word < TWO32
    ensures word == ALL_BITS <==> AllSet(word, 32)
  {
    Pow2Values();
    hide Pow2, Bit, AllSet;
    LowBits(word, 32, 32);
  }

  lemma PartialWord(word: nat, n: nat)
    requires 0 < n < 32 && word < TWO32 && forall j: nat :: n <= j < 32 ==> !Bit(word, j)
    ensures word == Shr(ALL_BITS, 32 - n) <==> AllSet(word, n)
  {
    Pow2Values();
    hide Pow2, Bit, AllSet, Shr;
    LowBits(word, n, 32);
    AllBitsShifted(n, 32 - n);
  }
}
