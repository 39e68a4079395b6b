/** Which required fields a decode demands, in terms of the records in its input. */
module RequiredLaws {
  import opened Bits
  import opened Varint
  import opened Schema
  import opened Decoding
  import opened RequiredBitmap

  /** The tags of the records that the decoding loop reads. */
  function TagsRead(fields: seq<Field>, st: State, s: seq<byte>): set<nat>
    decreases |s|
  {
    if s == [] || !DecTag(s).Tag? then {}
    else
      var t := DecTag(s);
      match DecRecord(fields, st, t.tag, t.wireType, t.rest)
      case Fail => {}
      case Got(st', rest) => {t.tag} + TagsRead(fields, st', rest)
  }

  /** Position i is the required field with index k among the required fields. */
  predicate RequiredAt(fields: seq<Field>, i: nat, k: nat)
    requires i < |fields|
  {
    fields[i].htype.Required? && RequiredBefore(fields, i) == k
  }

  predicate Occurs(fields: seq<Field>, tags: set<nat>, k: nat)
  {
    k < MAX_REQUIRED_FIELDS && exists i | 0 <= i < |fields| :: RequiredAt(fields, i, k) && fields[i].tag in tags
  }

  lemma RecordSees(fields: seq<Field>, st: State, tag: nat, wireType: nat, s: seq<byte>, k: nat)
    requires WellFormed(fields) && DecRecord(fields, st, tag, wireType, s).Got?
    ensures k in DecRecord(fields, st, tag, wireType, s).value.seen <==> k in st.seen || Occurs(fields, {tag}, k)
  {
    assert forall i | 0 <= i < |fields| :: fields[i].tag != 0 && !fields[i].ltype.LExtension? by {
      hide DecRecord, WellFormed, RequiredBefore;
      TagsLegal(fields);
    }
    hide DecStatic, SkipField, DecVarint32, SlotOf, RequiredBefore, WellFormedField;
    var found := Find(fields, tag);
    if found.Some? {
      assert forall i | 0 <= i < |fields| && fields[i].tag == tag :: i == found.value;
      if RequiredAt(fields, found.value, k) && k < MAX_REQUIRED_FIELDS { assert Occurs(fields, {tag}, k); }
    }
  }

  lemma TagsLegal(fields: seq<Field>)
    requires WellFormed(fields)
    ensures forall i | 0 <= i < |fields| :: fields[i].tag != 0 && !fields[i].ltype.LExtension?
  {
  }

  lemma OccursUnion(fields: seq<Field>, a: set<nat>, b: set<nat>, k: nat)
    ensures Occurs(fields, a + b, k) <==> Occurs(fields, a, k) || Occurs(fields, b, k)
  {
    hide RequiredAt;
  }

  /** What the loop has seen is what was seen before and what its records bring. */
  lemma {:induction false} SeenExactly(fields: seq<Field>, st: State, s: seq<byte>, k: nat)
    requires WellFormed(fields) && DecLoop(fields, st, s).Done?
    ensures k in DecLoop(fields, st, s).st.seen <==> k in st.seen || Occurs(fields, TagsRead(fields, st, s), k)
    decreases |s|
  {
    hide DecRecord, DecTag, WellFormed, RequiredAt;
    if s == [] || !DecTag(s).Tag? {
    } else {
      var t := DecTag(s);
      var r := DecRecord(fields, st, t.tag, t.wireType, t.rest);
      RecordSees(fields, st, t.tag, t.wireType, t.rest, k);
      SeenExactly(fields, r.value, r.rest, k);
      OccursUnion(fields, {t.tag}, TagsRead(fields, r.value, r.rest), k);
    }
  }

  /** Every index below the number of required fields belongs to a required field. */
  lemma {:induction false} IndexHasField(fields: seq<Field>, n: nat, k: nat) returns (i: nat)
    requires n <= |fields| && k < RequiredBefore(fields, n)
    ensures i < n && RequiredAt(fields, i, k)
    decreases n
  {
    if k < RequiredBefore(fields, n - 1) { i := IndexHasField(fields, n - 1, k); } else { i := n - 1; }
  }

  /** How many required fields precede position i. */
  function Rank(fields: seq<Field>, i: nat): nat
    requires i <= |fields|
  {
    |set j: nat | j < i && fields[j].htype.Required?|
  }

  lemma {:induction false} RankIsBefore(fields: seq<Field>, i: nat)
    requires i <= |fields|
    ensures Rank(fields, i) == RequiredBefore(fields, i)
  {
    var all := set j: nat | j < i && fields[j].htype.Required?;
    if i == 0 {
      assert all == {};
    } else {
      RankIsBefore(fields, i - 1);
      var fewer := set j: nat | j < i - 1 && fields[j].htype.Required?;
      assert all == if fields[i - 1].htype.Required? then fewer + {i - 1} else fewer;
    }
  }

  /** The tags of the required fields that the decoder can track: the first 64. */
  predicate AllRequiredIn(fields: seq<Field>, tags: set<nat>)
  {
    forall i | 0 <= i < |fields| && fields[i].htype.Required? && Rank(fields, i) < 64 :: fields[i].tag in tags
  }

  lemma SeenAllIffOccurring(fields: seq<Field>, st: State, tags: set<nat>)
    requires DistinctTags(fields) && forall k: nat :: k in st.seen <==> Occurs(fields, tags, k)
    ensures (forall k | 0 <= k < RequiredBefore(fields, |fields|) && k < MAX_REQUIRED_FIELDS :: k in st.seen) <==>
            AllRequiredIn(fields, tags)
  {
    hide RequiredBefore, Rank;
    forall i | 0 <= i <= |fields| ensures Rank(fields, i) == RequiredBefore(fields, i) { RankIsBefore(fields, i); }
    if AllRequiredIn(fields, tags) {
      forall k | 0 <= k < RequiredBefore(fields, |fields|) && k < MAX_REQUIRED_FIELDS ensures k in st.seen {
        var i := IndexHasField(fields, |fields|, k);
        assert Occurs(fields, tags, k);
      }
    }
    if forall k | 0 <= k < RequiredBefore(fields, |fields|) && k < MAX_REQUIRED_FIELDS :: k in st.seen {
      forall i | 0 <= i < |fields| && fields[i].htype.Required? && RequiredBefore(fields, i) < MAX_REQUIRED_FIELDS
        ensures fields[i].tag in tags
      {
        var k := RequiredBefore(fields, i);
        RequiredIncreases(fields, i, |fields|);
        assert k in st.seen && Occurs(fields, tags, k);
        var j :| 0 <= j < |fields| && RequiredAt(fields, j, k) && fields[j].tag in tags;
        if j < i { RequiredIncreases(fields, j, i); }
        if i < j { RequiredIncreases(fields, i, j); }
      }
    }
  }

  /** The required-field check is exact: when every record decodes and the fixed-count checks
      pass, decoding succeeds exactly when each of the first 64 required fields occurred. */
  lemma RequiredCheckExact(fields: seq<Field>, msg: seq<Slot>, s: seq<byte>)
    requires WellFormed(fields)
    ensures DecLoop(fields, Start(msg), s).Done? && FixedComplete(fields, DecLoop(fields, Start(msg), s).st) ==>
              (DecodeInto(fields, msg, s).Got? <==> AllRequiredIn(fields, TagsRead(fields, Start(msg), s)))
  {
    hide DecLoop, TagsRead, AllRequiredIn, Occurs, WellFormedField, RequiredBefore, FixedComplete;
    var r := DecLoop(fields, Start(msg), s);
    if r.Done? && FixedComplete(fields, r.st) {
      var tags := TagsRead(fields, Start(msg), s);
      forall k: nat ensures k in r.st.seen <==> Occurs(fields, tags, k) {
        SeenExactly(fields, Start(msg), s, k);
      }
      SeenAllIffOccurring(fields, r.st, tags);
    }
  }
}
