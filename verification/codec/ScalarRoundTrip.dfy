/** Every value of a non-message field survives encoding and decoding, a string up to its NUL. */
module ScalarRoundTrip {
  import opened Bits
  import opened Varint
  import opened VarintLaws
  import opened Options
  import opened Schema
  import opened Encoding
  import opened Decoding

  /** What is read back for a value of a non-message field. */
  function Reread(f: Field, v: Value): Value
    requires ScalarFits(f, v)
  {
    if f.ltype.LString? then VBytes(CString(v.bytes) + [0]) else v
  }

  /** A string buffer without NUL encodes but does not decode: the decoder needs room for it. */
  predicate ScalarTerminated(f: Field, v: Value)
    requires ScalarFits(f, v)
  {
    f.ltype.LString? ==> |CString(v.bytes)| < f.dataSize
  }

  lemma TerminatedMeansNul(f: Field, v: Value)
    requires ScalarFits(f, v) && f.ltype.LString?
    ensures ScalarTerminated(f, v) <==> 0 in v.bytes
  {
    CStringLength(v.bytes);
  }

  lemma {:induction false} CStringLength(s: seq<byte>)
    ensures |CString(s)| < |s| <==> 0 in s
    ensures 0 !in CString(s) && CString(s) <= s
  {
    if s == [] || s[0] == 0 {
    } else {
      CStringLength(s[1..]);
    }
  }

  // Integers

  lemma ClampVarintInverts(size: nat, n: int)
    requires ValidWidth(size) && FitsSigned(size, n)
    ensures IsInt64(n) && AsWord64(n) < TWO64
    ensures ClampVarint(size, AsWord64(n)) == Some(VInt(n))
  {
    if size == 8 {
      assert U64(AsWord64(n)) == AsWord64(n);
    } else {
      assert Truncate(4, AsWord64(n)) == n;
    }
  }

  lemma ClampSVarintInverts(size: nat, n: int)
    requires ValidWidth(size) && FitsSigned(size, n)
    ensures IsInt64(n) && ZigZag(n) < TWO64
    ensures ClampSVarint(size, ZigZag(n)) == Some(VInt(n))
  {
    hide ZigZag, UnZigZag;
    assert IsInt64(n);
    ZigZagBijection(n, 0);
    assert U64(ZigZag(n)) == ZigZag(n);
  }

  lemma IntegerRoundTrip(f: Field, v: Value, t: seq<byte>)
    requires ScalarFits(f, v) && ValidWidth(f.dataSize)
    requires f.ltype.LVarint? || f.ltype.LUVarint? || f.ltype.LSVarint?
    ensures EncScalar(f, v).Some?
    ensures DecInteger(f, EncScalar(f, v).value + t) == Got(v, t)
  {
    hide EncVarint, ZigZag, ClampVarint, ClampSVarint, DecVarint64;
    match f.ltype {
      case LVarint =>
        ClampVarintInverts(f.dataSize, v.n);
        Varint64RoundTrip(AsWord64(v.n), t);
      case LUVarint =>
        Varint64RoundTrip(v.n, t);
      case LSVarint =>
        ClampSVarintInverts(f.dataSize, v.n);
        Varint64RoundTrip(ZigZag(v.n), t);
    }
  }

  // Fixed-width values

  function Pow256(k: nat): (p: nat)
    ensures p >= 1
  {
    if k == 0 then 1 else 0x100 * Pow256(k - 1)
  }

  lemma {:induction false} LittleEndianInverts(n: nat, k: nat)
    requires n < Pow256(k)
    ensures FromLittleEndian(LittleEndian(n, k)) == n
    decreases k
  {
    if k == 0 {
    } else {
      LittleEndianInverts(n / 0x100, k - 1);
      assert LittleEndian(n, k)[1..] == LittleEndian(n / 0x100, k - 1);
    }
  }

  lemma Pow256Values()
    ensures Pow256(4) == TWO32 && Pow256(8) == TWO64
  {
    assert Pow256(4) == 0x100 * Pow256(3) == 0x1_0000 * Pow256(2) == 0x100_0000 * Pow256(1) == TWO32;
    assert Pow256(8) == 0x100 * Pow256(7)
      == 0x1_0000 * Pow256(6) == 0x100_0000 * Pow256(5) == 0x1_0000_0000 * Pow256(4);
  }

  lemma TakeFront(b: seq<byte>, t: seq<byte>)
    ensures Take(b + t, |b|) == Got(b, t)
  {
    assert (b + t)[..|b|] == b && (b + t)[|b|..] == t;
  }

  lemma FixedRoundTrip(n: nat, k: nat, t: seq<byte>)
    requires n < Pow256(k)
    ensures DecFixed(k, LittleEndian(n, k) + t) == Got(VInt(n), t)
  {
    hide LittleEndian, FromLittleEndian, Take;
    TakeFront(LittleEndian(n, k), t);
    LittleEndianInverts(n, k);
  }

  // Length-prefixed values

  lemma PrefixedSplit(b: seq<byte>, t: seq<byte>)
    requires |b| < TWO32
    ensures DecVarint32(Prefixed(b) + t) == Got(|b|, b + t)
    ensures DecPrefixed(Prefixed(b) + t) == Got(b, t)
  {
    hide EncVarint, DecVarint32, Take;
    assert U64(|b|) == |b|;
    assert Prefixed(b) + t == EncVarint(|b|) + (b + t);
    Varint32RoundTrip(|b|, b + t);
    TakeFront(b, t);
  }

  lemma BytesRoundTrip(f: Field, b: seq<byte>, t: seq<byte>)
    requires |b| < TWO32 && f.dataSize <= PB_SIZE_MAX
    ensures |b| + BYTES_HEADER <= f.dataSize ==> DecBytes(f, Prefixed(b) + t) == Got(VBytes(b), t)
    ensures DecString(f, Prefixed(b) + t) == if |b| < f.dataSize then Got(VBytes(b + [0]), t) else Fail
    ensures |b| == f.dataSize ==> DecFixedBytes(f, Prefixed(b) + t) == Got(VBytes(b), t)
  {
    hide DecVarint32, Prefixed, Take;
    PrefixedSplit(b, t);
    TakeFront(b, t);
    if b == [] {
      assert seq<byte>(0, _ => 0) == [];
      assert b + t == t;
    }
  }

  /** Round trip of a scalar: it fails for an unterminated string and for nothing else. */
  lemma ScalarRoundTrips(f: Field, v: Value, t: seq<byte>)
    requires WellFormedField(f) && ScalarFits(f, v)
    requires EncScalar(f, v).Some? && |EncScalar(f, v).value| < TWO32
    ensures DecScalar(f, EncScalar(f, v).value + t) == if ScalarTerminated(f, v) then Got(Reread(f, v), t) else Fail
  {
    hide EncVarint, DecVarint32, DecInteger, DecBytes, DecString, DecFixedBytes, DecFixed, CString, LittleEndian,
         WellFormed, Defaults;
    match f.ltype {
      case LBool => Varint32RoundTrip(if v.flag then 1 else 0, t);
      case LVarint => IntegerRoundTrip(f, v, t);
      case LUVarint => IntegerRoundTrip(f, v, t);
      case LSVarint => IntegerRoundTrip(f, v, t);
      case LFixed32 => Pow256Values(); FixedRoundTrip(v.n, 4, t);
      case LFixed64 => Pow256Values(); FixedRoundTrip(v.n, 8, t);
      case LBytes => BytesRoundTrip(f, v.bytes, t);
      case LString => BytesRoundTrip(f, CString(v.bytes), t);
      case LFixedBytes => BytesRoundTrip(f, v.bytes, t);
    }
  }
}
