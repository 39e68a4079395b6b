/** Delimited and null-terminated messages inside a longer stream. */
module Framing {
  import opened Bits
  import opened Varint
  import opened Options
  import opened Schema
  import opened Encoding
  import opened Decoding
  import opened ScalarRoundTrip
  import opened RoundTrip

  /** pb_encode_delimited */
  function EncodeDelimited(fields: seq<Field>, msg: seq<Slot>): Option<seq<byte>>
  {
    var body := Encode(fields, msg);
    if body.None? then None else Some(Prefixed(body.value))
  }

  /** pb_decode_delimited */
  function DecodeDelimited(fields: seq<Field>, s: seq<byte>): (r: Parse<seq<Slot>>)
    ensures r.Got? ==> |r.rest| < |s|
  {
    match DecPrefixed(s)
    case Fail => Fail
    case Got(body, rest) =>
      match Decode(fields, body)
      case Fail => Fail
      case Got(msg, _) => Got(msg, rest)
  }

  /** A message the decoder gives back: it matches its descriptor, encodes below 2^32 bytes, and
      every encoded string is terminated. */
  predicate Transmissible(fields: seq<Field>, msg: seq<Slot>)
  {
    && WellFormed(fields) && Matches(fields, msg) && Terminated(fields, msg)
    && Encode(fields, msg).Some? && |Encode(fields, msg).value| < TWO32
  }

  /** A delimited message decodes back and leaves exactly the bytes behind it. */
  lemma DelimitedRoundTrip(fields: seq<Field>, msg: seq<Slot>, t: seq<byte>)
    requires Transmissible(fields, msg)
    ensures EncodeDelimited(fields, msg).Some?
    ensures var r := DecodeDelimited(fields, EncodeDelimited(fields, msg).value + t);
            r.Got? && r.rest == t && SameMessage(fields, r.value, msg)
  {
    hide EncMsg, DecodeInto, WellFormed, Matches, Terminated, SameMessage, Prefixed, DecPrefixed;
    var e := Encode(fields, msg).value;
    PrefixedSplit(e, t);
    MessageRoundTrips(fields, msg);
  }

  function EncodeStream(fields: seq<Field>, msgs: seq<seq<Slot>>): Option<seq<byte>>
  {
    if msgs == [] then Some([]) else Cat(EncodeDelimited(fields, msgs[0]), EncodeStream(fields, msgs[1..]))
  }

  /** Read n delimited messages. */
  function DecodeStream(fields: seq<Field>, n: nat, s: seq<byte>): Parse<seq<seq<Slot>>>
  {
    if n == 0 then Got([], s)
    else match DecodeDelimited(fields, s)
         case Fail => Fail
         case Got(msg, rest) =>
           match DecodeStream(fields, n - 1, rest)
           case Fail => Fail
           case Got(msgs, rest') => Got([msg] + msgs, rest')
  }

  /** A sequence of delimited messages decodes back, one after the other, and leaves the remainder. */
  lemma {:induction false} StreamRoundTrip(fields: seq<Field>, msgs: seq<seq<Slot>>, t: seq<byte>)
    requires forall k | 0 <= k < |msgs| :: Transmissible(fields, msgs[k])
    ensures EncodeStream(fields, msgs).Some?
    ensures var r := DecodeStream(fields, |msgs|, EncodeStream(fields, msgs).value + t);
            && r.Got? && r.rest == t && |r.value| == |msgs|
            && forall k | 0 <= k < |msgs| :: SameMessage(fields, r.value[k], msgs[k])
    decreases |msgs|
  {
    hide EncodeDelimited, DecodeDelimited, Transmissible, SameMessage;
    if msgs == [] {
      assert [] + t == t;
    } else {
      StreamRoundTrip(fields, msgs[1..], t);
      var head, tail := EncodeDelimited(fields, msgs[0]), EncodeStream(fields, msgs[1..]).value;
      DelimitedRoundTrip(fields, msgs[0], tail + t);
      assert EncodeStream(fields, msgs).value + t == head.value + (tail + t);
    }
  }

  /** A message followed by a zero byte decodes back and leaves exactly the bytes after the zero. */
  lemma NullTerminatedRoundTrip(fields: seq<Field>, msg: seq<Slot>, t: seq<byte>)
    requires Transmissible(fields, msg)
    ensures var r := Decode(fields, Encode(fields, msg).value + ([0] + t));
            r.Got? && r.rest == t && SameMessage(fields, r.value, msg)
  {
    hide SlotOf, EncMsg, Defaults, WellFormedField, SlotFits, SameSlot, SlotTerminated, RequiredBefore, DecRecord;
    StartProgress(fields, msg);
    var st' := LoopRoundTrips(fields, 0, msg, Start(Defaults(fields)), [0] + t);
    ZeroByteStops(fields, st', t);
  }

  lemma ZeroByteStops(fields: seq<Field>, st: State, t: seq<byte>)
    ensures DecLoop(fields, st, [0] + t) == Done(st, t, true)
  {
    hide Varint32Loop, DecRecord;
    assert ([0] + t)[1..] == t;
  }
}
