/** The bytes of a multipart form: what the encoders emit, and what section 5.1.1 of RFC 2046 asks. */
module MultipartShape {
  import opened Options
  import opened Bits

  const CRLF: seq<byte> := [13, 10]
  const DASHES: seq<byte> := [45, 45]

  datatype BoundaryType = InitialBoundary | EncapsulatedBoundary | FinalBoundary

  /** boundaryData(forBoundaryType:boundary:) */
  function BoundaryData(kind: BoundaryType, boundary: seq<byte>): seq<byte>
  {
    match kind
    case InitialBoundary => DASHES + boundary + CRLF
    case EncapsulatedBoundary => CRLF + DASHES + boundary + CRLF
    case FinalBoundary => CRLF + DASHES + boundary + DASHES + CRLF
  }

  datatype Header = Header(name: seq<byte>, value: seq<byte>)

  function HeaderLines(headers: seq<Header>): seq<byte>
  {
    if headers == [] then []
    else headers[0].name + [58, 32] + headers[0].value + CRLF + HeaderLines(headers[1..])
  }

  /** encodeHeaders */
  function HeaderData(headers: seq<Header>): seq<byte>
  {
    HeaderLines(headers) + CRLF
  }

  /** A body part at the moment of encoding: what its stream still holds, and its flags. */
  datatype Part = Part(headers: seq<Header>, body: seq<byte>, contentLength: nat,
                       hasInitialBoundary: bool, hasFinalBoundary: bool)

  /** The first part gets the initial flag, the last part the final flag. */
  function Marked(parts: seq<Part>): (r: seq<Part>)
    ensures |r| == |parts|
  {
    if parts == [] then []
    else
      var marked := parts[0 := parts[0].(hasInitialBoundary := true)];
      marked[|parts| - 1 := marked[|parts| - 1].(hasFinalBoundary := true)]
  }

  /** The parts after their streams have been read to the end. */
  function Drained(parts: seq<Part>): (r: seq<Part>)
    ensures |r| == |parts|
  {
    seq(|parts|, i requires 0 <= i < |parts| => parts[i].(body := []))
  }

  function EncodedPart(boundary: seq<byte>, p: Part): seq<byte>
  {
    BoundaryData(if p.hasInitialBoundary then InitialBoundary else EncapsulatedBoundary, boundary) +
    HeaderData(p.headers) + p.body +
    if p.hasFinalBoundary then BoundaryData(FinalBoundary, boundary) else []
  }

  /** The parts one after the other. */
  function Encoded(boundary: seq<byte>, parts: seq<Part>): seq<byte>
  {
    if parts == [] then [] else Encoded(boundary, parts[..|parts| - 1]) + EncodedPart(boundary, parts[|parts| - 1])
  }

  lemma EncodedNext(boundary: seq<byte>, parts: seq<Part>, i: nat)
    requires i < |parts|
    ensures Encoded(boundary, parts[..i + 1]) == Encoded(boundary, parts[..i]) + EncodedPart(boundary, parts[i])
    ensures Encoded(boundary, parts[..0]) == []
    ensures i + 1 == |parts| ==> parts[..i + 1] == parts
  {
    hide EncodedPart;
    assert parts[..i + 1][..i] == parts[..i];
  }

  predicate LengthsMatch(parts: seq<Part>)
  {
    forall i | 0 <= i < |parts| :: |parts[i].body| == parts[i].contentLength
  }

  lemma LengthsNext(parts: seq<Part>, i: nat)
    requires i < |parts|
    ensures LengthsMatch(parts[..0])
    ensures LengthsMatch(parts[..i + 1]) <==> LengthsMatch(parts[..i]) && |parts[i].body| == parts[i].contentLength
    ensures LengthsMatch(parts) ==> LengthsMatch(parts[..i + 1])
  {
  }

  lemma MarkedLengths(parts: seq<Part>)
    ensures LengthsMatch(Marked(parts)) <==> LengthsMatch(parts)
  {
    var marked := Marked(parts);
    assert forall i | 0 <= i < |parts| ::
        marked[i].body == parts[i].body && marked[i].contentLength == parts[i].contentLength;
  }

  /** What fits an output of limited capacity. */
  function Clip(bytes: seq<byte>, capacity: Option<nat>): seq<byte>
  {
    if capacity.None? || |bytes| <= capacity.value then bytes else bytes[..capacity.value]
  }

  /** The file holds the whole form exactly when it has the space, and otherwise as much as it can. */
  lemma ClipExact(bytes: seq<byte>, capacity: Option<nat>)
    ensures Clip(bytes, capacity) <= bytes
    ensures Clip(bytes, capacity) == bytes <==> (capacity.None? || |bytes| <= capacity.value)
    ensures Clip(bytes, capacity) != bytes ==> |Clip(bytes, capacity)| == capacity.value
  {
  }

  lemma ClipAppend(a: seq<byte>, b: seq<byte>, capacity: Option<nat>)
    ensures Clip(Clip(a, capacity) + b, capacity) == Clip(a + b, capacity)
  {
  }

  /** Writing a part in its four pieces. */
  lemma ClipPart(before: seq<byte>, a: seq<byte>, b: seq<byte>, c: seq<byte>, d: seq<byte>, capacity: Option<nat>)
    ensures Clip(Clip(Clip(Clip(before + a, capacity) + b, capacity) + c, capacity) + d, capacity) ==
            Clip(before + (a + b + c + d), capacity)
  {
    hide Clip;
    ClipAppend(before + a, b, capacity);
    ClipAppend(before + a + b, c, capacity);
    ClipAppend(before + a + b + c, d, capacity);
    assert before + a + b + c + d == before + (a + b + c + d);
  }

  lemma ClipStep(before: seq<byte>, done: seq<byte>, chunk: seq<byte>, capacity: Option<nat>)
    ensures Clip(Clip(before + done, capacity) + chunk, capacity) == Clip(before + (done + chunk), capacity)
  {
    hide Clip;
    ClipAppend(before + done, chunk, capacity);
    assert before + done + chunk == before + (done + chunk);
  }

  lemma ClipFits(bytes: seq<byte>, capacity: Option<nat>)
    requires capacity.Some? ==> |bytes| <= capacity.value
    ensures Clip(bytes, capacity) == bytes == Clip(bytes + [], capacity)
  {
    assert bytes + [] == bytes;
  }

  // --------------------------------------------------------------------------
  // The grammar of RFC 2046
  // --------------------------------------------------------------------------

  function DashBoundary(boundary: seq<byte>): seq<byte>
  {
    DASHES + boundary
  }

  function Delimiter(boundary: seq<byte>): seq<byte>
  {
    CRLF + DashBoundary(boundary)
  }

  function CloseDelimiter(boundary: seq<byte>): seq<byte>
  {
    Delimiter(boundary) + DASHES
  }

  function BodyPart(p: Part): seq<byte>
  {
    HeaderData(p.headers) + p.body
  }

  /** The encapsulations that follow the first body part. */
  function Encapsulations(boundary: seq<byte>, parts: seq<Part>): seq<byte>
  {
    if parts == [] then [] else Delimiter(boundary) + CRLF + BodyPart(parts[0]) + Encapsulations(boundary, parts[1..])
  }

  /** The form without its end. */
  function Opening(boundary: seq<byte>, parts: seq<Part>): seq<byte>
    requires parts != []
  {
    DashBoundary(boundary) + CRLF + BodyPart(parts[0]) + Encapsulations(boundary, parts[1..])
  }

  /** multipart-body, without preamble and epilogue text and without transport padding: one
      opening boundary, a delimiter before each further part, one closing delimiter. */
  function MultipartBody(boundary: seq<byte>, parts: seq<Part>): seq<byte>
    requires parts != []
  {
    Opening(boundary, parts) + (CloseDelimiter(boundary) + CRLF)
  }

  predicate Unmarked(parts: seq<Part>)
  {
    forall p | p in parts :: !p.hasInitialBoundary && !p.hasFinalBoundary
  }

  lemma {:induction false} EncapsulationsPush(boundary: seq<byte>, parts: seq<Part>, p: Part)
    ensures Encapsulations(boundary, parts + [p]) ==
            Encapsulations(boundary, parts) + (Delimiter(boundary) + CRLF + BodyPart(p))
  {
    hide Delimiter, BodyPart;
    if parts == [] {
      assert [p][1..] == [] && [] + [p] == [p];
    } else {
      assert (parts + [p])[1..] == parts[1..] + [p];
      EncapsulationsPush(boundary, parts[1..], p);
    }
  }

  /** Parts of which only the first has the initial flag, and none the final one. */
  predicate OpenedOnce(parts: seq<Part>)
  {
    forall i | 0 <= i < |parts| :: parts[i].hasInitialBoundary == (i == 0) && !parts[i].hasFinalBoundary
  }

  lemma FirstPart(boundary: seq<byte>, p: Part)
    requires p.hasInitialBoundary && !p.hasFinalBoundary
    ensures EncodedPart(boundary, p) == DashBoundary(boundary) + CRLF + BodyPart(p)
  {
    hide HeaderData;
  }

  lemma FurtherPart(boundary: seq<byte>, p: Part)
    requires !p.hasInitialBoundary && !p.hasFinalBoundary
    ensures EncodedPart(boundary, p) == Delimiter(boundary) + CRLF + BodyPart(p)
  {
    hide HeaderData;
  }

  lemma NoEncapsulations(boundary: seq<byte>)
    ensures Encapsulations(boundary, []) == []
  {
  }

  lemma OpeningPush(boundary: seq<byte>, parts: seq<Part>, p: Part)
    requires parts != []
    ensures Opening(boundary, parts + [p]) == Opening(boundary, parts) + (Delimiter(boundary) + CRLF + BodyPart(p))
  {
    hide DashBoundary, Delimiter, BodyPart, Encapsulations;
    assert (parts + [p])[1..] == parts[1..] + [p];
    EncapsulationsPush(boundary, parts[1..], p);
    var first, next := DashBoundary(boundary) + CRLF + BodyPart(parts[0]), Delimiter(boundary) + CRLF + BodyPart(p);
    assert first + (Encapsulations(boundary, parts[1..]) + next) == first + Encapsulations(boundary, parts[1..]) + next;
  }

  lemma {:induction false} EncodedOpening(boundary: seq<byte>, parts: seq<Part>)
    requires parts != [] && OpenedOnce(parts)
    ensures Encoded(boundary, parts) == Opening(boundary, parts)
    decreases |parts|
  {
    hide EncodedPart, DashBoundary, Delimiter, BodyPart, Encapsulations;
    assert Encapsulations(boundary, []) == [] by { NoEncapsulations(boundary); }
    var last := |parts| - 1;
    if last == 0 {
      FirstPart(boundary, parts[0]);
      assert Encoded(boundary, parts) == Encoded(boundary, []) + EncodedPart(boundary, parts[0]);
      assert parts[1..] == [];
    } else {
      FurtherPart(boundary, parts[last]);
      EncodedOpening(boundary, parts[..last]);
      OpeningPush(boundary, parts[..last], parts[last]);
      assert parts[..last] + [parts[last]] == parts;
    }
  }

  lemma FinalFlag(boundary: seq<byte>, p: Part)
    requires !p.hasFinalBoundary
    ensures EncodedPart(boundary, p.(hasFinalBoundary := true)) ==
            EncodedPart(boundary, p) + (CloseDelimiter(boundary) + CRLF)
  {
    hide HeaderData;
  }

  lemma LastFlag(boundary: seq<byte>, parts: seq<Part>)
    requires parts != [] && !parts[|parts| - 1].hasFinalBoundary
    ensures Encoded(boundary, parts[|parts| - 1 := parts[|parts| - 1].(hasFinalBoundary := true)]) ==
            Encoded(boundary, parts) + (CloseDelimiter(boundary) + CRLF)
  {
    hide EncodedPart;
    var last := |parts| - 1;
    var ended := parts[last := parts[last].(hasFinalBoundary := true)];
    assert ended[..last] == parts[..last];
    FinalFlag(boundary, parts[last]);
  }

  lemma SameContents(boundary: seq<byte>, parts: seq<Part>, marked: seq<Part>)
    requires parts != [] && marked == parts[0 := parts[0].(hasInitialBoundary := true)]
    ensures Opening(boundary, marked) == Opening(boundary, parts)
  {
    assert marked[1..] == parts[1..];
    assert BodyPart(marked[0]) == BodyPart(parts[0]);
  }

  /** A fresh non-empty form encodes to a multipart body: one opening boundary, n - 1 delimiters
      between the parts, one closing delimiter. */
  lemma FreshFormIsMultipart(boundary: seq<byte>, parts: seq<Part>)
    requires parts != [] && Unmarked(parts)
    ensures Encoded(boundary, Marked(parts)) == MultipartBody(boundary, parts)
  {
    hide Encoded, OpenedOnce, Opening, CloseDelimiter, Marked, Unmarked;
    var marked := MarkedSteps(parts);
    EncodedOpening(boundary, marked);
    LastFlag(boundary, marked);
    SameContents(boundary, parts, marked);
  }

  /** Marking sets the first part's flag, then the last one's. */
  lemma MarkedSteps(parts: seq<Part>) returns (marked: seq<Part>)
    requires parts != [] && Unmarked(parts)
    ensures marked == parts[0 := parts[0].(hasInitialBoundary := true)] && OpenedOnce(marked)
    ensures !marked[|marked| - 1].hasFinalBoundary
    ensures Marked(parts) == marked[|marked| - 1 := marked[|marked| - 1].(hasFinalBoundary := true)]
  {
    marked := parts[0 := parts[0].(hasInitialBoundary := true)];
    assert forall i | 0 <= i < |parts| :: parts[i] in parts;
  }

  // --------------------------------------------------------------------------
  // Forms that have been encoded before
  // --------------------------------------------------------------------------

  /** Only the first part can have the initial flag: parts are only ever added behind it. */
  predicate OpensFirst(parts: seq<Part>)
  {
    forall i | 0 < i < |parts| :: !parts[i].hasInitialBoundary
  }

  /** No part before the last one has kept a final flag. */
  predicate NoEarlyFinal(parts: seq<Part>)
  {
    forall i | 0 <= i < |parts| - 1 :: !parts[i].hasFinalBoundary
  }

  function Unended(parts: seq<Part>): (r: seq<Part>)
    ensures |r| == |parts|
  {
    seq(|parts|, i requires 0 <= i < |parts| => parts[i].(hasFinalBoundary := false))
  }

  function ClosingLength(boundary: seq<byte>): (n: nat)
    ensures n > 0
  {
    |CloseDelimiter(boundary) + CRLF|
  }

  /** The closing delimiters that the parts write, in bytes. */
  function Closings(boundary: seq<byte>, parts: seq<Part>): nat
  {
    if parts == [] then 0
    else Closings(boundary, parts[..|parts| - 1]) +
         if parts[|parts| - 1].hasFinalBoundary then ClosingLength(boundary) else 0
  }

  lemma {:induction false} EncodedLength(boundary: seq<byte>, parts: seq<Part>)
    ensures |Encoded(boundary, parts)| == |Encoded(boundary, Unended(parts))| + Closings(boundary, parts)
  {
    if parts == [] {
    } else {
      var last := |parts| - 1;
      assert Unended(parts)[..last] == Unended(parts[..last]);
      EncodedLength(boundary, parts[..last]);
      FinalFlag(boundary, Unended(parts)[last]);
      assert parts[last] ==
             if parts[last].hasFinalBoundary then Unended(parts)[last].(hasFinalBoundary := true)
               else Unended(parts)[last];
      hide EncodedPart, CloseDelimiter;
    }
  }

  lemma {:induction false} NoClosings(boundary: seq<byte>, parts: seq<Part>)
    ensures Closings(boundary, parts) == 0 <==> forall i | 0 <= i < |parts| :: !parts[i].hasFinalBoundary
  {
    if parts == [] {
    } else {
      NoClosings(boundary, parts[..|parts| - 1]);
      hide ClosingLength;
    }
  }

  /** Parts with the same headers and bodies. */
  predicate SameContent(a: seq<Part>, b: seq<Part>)
  {
    |a| == |b| && forall i | 0 <= i < |a| :: a[i].headers == b[i].headers && a[i].body == b[i].body
  }

  lemma {:induction false} SameEncapsulations(boundary: seq<byte>, a: seq<Part>, b: seq<Part>)
    requires SameContent(a, b)
    ensures Encapsulations(boundary, a) == Encapsulations(boundary, b)
  {
    hide HeaderData, Delimiter;
    if a == [] {
    } else {
      assert BodyPart(a[0]) == BodyPart(b[0]);
      SameEncapsulations(boundary, a[1..], b[1..]);
    }
  }

  lemma SameOpening(boundary: seq<byte>, a: seq<Part>, b: seq<Part>)
    requires a != [] && SameContent(a, b)
    ensures Opening(boundary, a) == Opening(boundary, b)
  {
    SameEncapsulations(boundary, a[1..], b[1..]);
    assert BodyPart(a[0]) == BodyPart(b[0]);
    hide BodyPart, Encapsulations, DashBoundary;
  }

  /** The length of any form's encoding, against the multipart body of its parts. */
  lemma MarkedLength(boundary: seq<byte>, parts: seq<Part>)
    requires parts != [] && OpensFirst(parts)
    ensures |Encoded(boundary, Marked(parts))| ==
            |MultipartBody(boundary, parts)| + Closings(boundary, Marked(parts)[..|parts| - 1])
  {
    hide Encoded, MultipartBody, Opening, ClosingLength, Marked, Unended, OpenedOnce, SameContent, Closings, OpensFirst;
    var marked := Marked(parts);
    MarkedUnended(parts);
    EndsMarked(boundary, marked);
    BodyLength(boundary, parts);
    EncodedLength(boundary, marked);
    EncodedOpening(boundary, Unended(marked));
    SameOpening(boundary, Unended(marked), parts);
  }

  lemma MarkedUnended(parts: seq<Part>)
    requires parts != [] && OpensFirst(parts)
    ensures OpenedOnce(Unended(Marked(parts))) && SameContent(Unended(Marked(parts)), parts)
    ensures Marked(parts)[|parts| - 1].hasFinalBoundary
  {
  }

  lemma BodyLength(boundary: seq<byte>, parts: seq<Part>)
    requires parts != []
    ensures |MultipartBody(boundary, parts)| == |Opening(boundary, parts)| + ClosingLength(boundary)
  {
    hide Opening, CloseDelimiter;
  }

  lemma EndsMarked(boundary: seq<byte>, parts: seq<Part>)
    requires parts != [] && parts[|parts| - 1].hasFinalBoundary
    ensures Closings(boundary, parts) == Closings(boundary, parts[..|parts| - 1]) + ClosingLength(boundary)
  {
    hide ClosingLength;
  }

  /** Without early final flags the marked form is that of fresh parts. */
  lemma MarkedAfresh(parts: seq<Part>)
    requires parts != [] && OpensFirst(parts) && NoEarlyFinal(parts)
    ensures Marked(parts) == Marked(Fresh(parts)) && Unmarked(Fresh(parts)) && SameContent(Fresh(parts), parts)
  {
  }

  function Fresh(parts: seq<Part>): (r: seq<Part>)
    ensures |r| == |parts|
  {
    seq(|parts|, i requires 0 <= i < |parts| => parts[i].(hasInitialBoundary := false, hasFinalBoundary := false))
  }

  /** Encoding a form, fresh or not, gives the multipart body of its parts if and only if no part
      before the last has kept its final flag from an earlier encoding. Each one that has adds a
      closing delimiter. */
  lemma MultipartExactly(boundary: seq<byte>, parts: seq<Part>)
    requires parts != [] && OpensFirst(parts)
    ensures Encoded(boundary, Marked(parts)) == MultipartBody(boundary, parts) <==> NoEarlyFinal(parts)
  {
    if NoEarlyFinal(parts) {
      hide Encoded, Opening, CloseDelimiter, Marked, Unmarked, SameContent, Fresh;
      MarkedAfresh(parts);
      FreshFormIsMultipart(boundary, Fresh(parts));
      SameOpening(boundary, Fresh(parts), parts);
    } else {
      var earlier := Marked(parts)[..|parts| - 1];
      assert forall i | 0 <= i < |parts| - 1 :: earlier[i].hasFinalBoundary == parts[i].hasFinalBoundary;
      NoClosings(boundary, earlier);
      MarkedLength(boundary, parts);
      hide Encoded, MultipartBody, Closings;
    }
  }

  /** A form encoded before, then extended by a part: its parts are as they were but drained, and
      the part that was last keeps its final flag, so that the bytes are not the multipart body of
      the parts. */
  lemma ExtendedIsNotMultipart(boundary: seq<byte>, parts: seq<Part>, p: Part)
    requires parts != [] && OpensFirst(parts) && !p.hasInitialBoundary
    ensures var extended := Drained(Marked(parts)) + [p];
            OpensFirst(extended) && Encoded(boundary, Marked(extended)) != MultipartBody(boundary, extended)
  {
    var extended := Drained(Marked(parts)) + [p];
    assert OpensFirst(extended);
    assert extended[|parts| - 1].hasFinalBoundary && !NoEarlyFinal(extended);
    hide Encoded, MultipartBody, Marked, NoEarlyFinal;
    MultipartExactly(boundary, extended);
  }

  /** Encoding it again without an extension is harmless: the multipart body of the drained parts. */
  lemma RepeatedIsMultipart(boundary: seq<byte>, parts: seq<Part>)
    requires parts != [] && OpensFirst(parts) && NoEarlyFinal(parts)
    ensures var again := Drained(Marked(parts)); Encoded(boundary, Marked(again)) == MultipartBody(boundary, again)
  {
    var again := Drained(Marked(parts));
    assert OpensFirst(again) && NoEarlyFinal(again);
    hide Encoded, MultipartBody, Marked, NoEarlyFinal;
    MultipartExactly(boundary, again);
  }
}
