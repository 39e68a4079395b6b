/** MultipartFormData: encoding in memory, and streaming to a file in chunks and partial writes. */
module MultipartFormData {
  import opened Options
  import opened Bits
  import opened MultipartShape

  /** streamBufferSize */
  const STREAM_BUFFER_SIZE: nat := 1024

  /** A foreign input stream over some bytes. It hands out any non-empty chunk up to the length
      asked for, and may fail at any read unless it is reliable. */
  class InputStream {
    const data: seq<byte>
    const reliable: bool
    var position: nat
    var streamError: bool

    ghost predicate Valid()
      reads this
    {
      position <= |data| && (reliable ==> !streamError)
    }

    ghost function Remaining(): seq<byte>
      reads this
      requires Valid()
    {
      data[position..]
    }

    constructor (data: seq<byte>, reliable: bool)
      ensures Valid() && Remaining() == data && !streamError && this.reliable == reliable
    {
      this.data, this.reliable, position, streamError := data, reliable, 0, false;
    }

    /** False only at the end; at the end it may still be true. */
    method HasBytesAvailable() returns (available: bool)
      requires Valid()
      ensures !available ==> Remaining() == []
    {
      available := *;
      if position < |data| { available := true; }
    }

    /** The number of bytes read is that of the chunk; a failed read leaves the position. */
    method Read(maxLength: nat) returns (chunk: seq<byte>)
      requires Valid() && maxLength > 0
      modifies this
      ensures Valid() && old(Remaining()) == chunk + Remaining() && |chunk| <= maxLength
      ensures old(streamError) ==> streamError
      ensures chunk == [] && !streamError ==> Remaining() == []
    {
      var fails: bool := *;
      if fails && !reliable {
        streamError := true;
        return [];
      }
      if position == |data| { return []; }
      var n: nat :| 0 < n <= maxLength && position + n <= |data|;
      chunk := data[position..position + n];
      position := position + n;
    }
  }

  /** A foreign output stream to a new file, with the space the file may take. It writes any
      positive part of what it is given, and may fail at any write unless it is reliable. */
  class OutputStream {
    const capacity: Option<nat>
    const reliable: bool
    var contents: seq<byte>
    var streamError: bool

    ghost predicate Valid()
      reads this
    {
      (capacity.Some? ==> |contents| <= capacity.value) && (reliable ==> !streamError)
    }

    constructor (capacity: Option<nat>, reliable: bool)
      ensures Valid() && contents == [] && !streamError && this.capacity == capacity && this.reliable == reliable
    {
      this.capacity, this.reliable, contents, streamError := capacity, reliable, [], false;
    }

    method HasSpaceAvailable() returns (available: bool)
      ensures available <==> capacity.None? || |contents| < capacity.value
    {
      available := capacity.None? || |contents| < capacity.value;
    }

    method Write(buffer: seq<byte>, maxLength: nat) returns (n: nat)
      requires Valid() && 0 < maxLength <= |buffer| && (capacity.None? || |contents| < capacity.value)
      modifies this
      ensures Valid() && n <= maxLength && contents == old(contents) + buffer[..n]
      ensures old(streamError) ==> streamError
      ensures !streamError ==> n > 0
    {
      var fails: bool := *;
      if fails && !reliable {
        streamError := true;
        return 0;
      }
      var written: nat :| 0 < written <= maxLength && (capacity.Some? ==> |contents| + written <= capacity.value);
      contents := contents + buffer[..written];
      n := written;
    }
  }

  class BodyPart {
    const headers: seq<Header>
    const bodyStream: InputStream
    const bodyContentLength: nat
    var hasInitialBoundary: bool
    var hasFinalBoundary: bool

    ghost function Now(): Part
      reads this, bodyStream
      requires bodyStream.Valid()
    {
      Part(headers, bodyStream.Remaining(), bodyContentLength, hasInitialBoundary, hasFinalBoundary)
    }

    constructor (headers: seq<Header>, bodyStream: InputStream, bodyContentLength: nat)
      ensures this.headers == headers && this.bodyStream == bodyStream && this.bodyContentLength == bodyContentLength
      ensures !hasInitialBoundary && !hasFinalBoundary
    {
      this.headers, this.bodyStream, this.bodyContentLength := headers, bodyStream, bodyContentLength;
      hasInitialBoundary, hasFinalBoundary := false, false;
    }
  }

  ghost function EncodedUpTo(boundary: seq<byte>, parts: seq<Part>, i: nat): seq<byte>
    requires i <= |parts|
  {
    Encoded(boundary, parts[..i])
  }

  ghost predicate LengthsUpTo(parts: seq<Part>, i: nat)
    requires i <= |parts|
  {
    LengthsMatch(parts[..i])
  }

  lemma UpToEnds(boundary: seq<byte>, parts: seq<Part>)
    ensures EncodedUpTo(boundary, parts, 0) == [] && LengthsUpTo(parts, 0)
    ensures EncodedUpTo(boundary, parts, |parts|) == Encoded(boundary, parts)
    ensures LengthsUpTo(parts, |parts|) == LengthsMatch(parts)
  {
    assert parts[..|parts|] == parts;
  }

  lemma UpToNext(boundary: seq<byte>, parts: seq<Part>, i: nat)
    requires i < |parts|
    ensures EncodedUpTo(boundary, parts, i + 1) == EncodedUpTo(boundary, parts, i) + EncodedPart(boundary, parts[i])
    ensures LengthsUpTo(parts, i + 1) <==> LengthsUpTo(parts, i) && |parts[i].body| == parts[i].contentLength
    ensures LengthsMatch(parts) ==> LengthsUpTo(parts, i + 1)
  {
    hide Encoded, EncodedPart, LengthsMatch;
    EncodedNext(boundary, parts, i);
    LengthsNext(parts, i);
  }

  lemma AllLengths(parts: seq<Part>)
    ensures LengthsMatch(parts) <==> forall j | 0 <= j < |parts| :: |parts[j].body| == parts[j].contentLength
  {
  }

  ghost function FinalData(boundary: seq<byte>, p: Part): seq<byte>
  {
    if p.hasFinalBoundary then BoundaryData(FinalBoundary, boundary) else []
  }

  lemma PartPieces(boundary: seq<byte>, p: Part)
    ensures EncodedPart(boundary, p) ==
            BoundaryData(if p.hasInitialBoundary then InitialBoundary else EncapsulatedBoundary, boundary) +
            HeaderData(p.headers) + p.body + FinalData(boundary, p)
    ensures FinalData(boundary, p) == if p.hasFinalBoundary then BoundaryData(FinalBoundary, boundary) else []
  {
  }

  /** Where writeEncodedData is to write: the file URL may be refused. */
  datatype Target = FileAlreadyExists | URLInvalid | CreationFailed | Opened(stream: OutputStream)

  ghost predicate Separate(bodyParts: seq<BodyPart>)
  {
    forall i, j | 0 <= i < j < |bodyParts| ::
      bodyParts[i] != bodyParts[j] && bodyParts[i].bodyStream != bodyParts[j].bodyStream
  }

  ghost function StreamsOf(bodyParts: seq<BodyPart>): set<InputStream>
  {
    set p | p in bodyParts :: p.bodyStream
  }

  lemma StreamIn(bodyParts: seq<BodyPart>, i: nat)
    requires i < |bodyParts|
    ensures bodyParts[i].bodyStream in StreamsOf(bodyParts)
  {
  }

  lemma OtherStreams(bodyParts: seq<BodyPart>, i: nat)
    requires Separate(bodyParts) && i < |bodyParts|
    ensures forall j | 0 <= j < |bodyParts| && j != i :: bodyParts[j].bodyStream != bodyParts[i].bodyStream
  {
  }

  class Form {
    const boundary: seq<byte>
    var bodyParts: seq<BodyPart>
    var bodyPartError: bool

    /** Parts and their streams are objects of their own, no stream has failed yet, and only the
        first part can have the initial flag. */
    ghost predicate Valid()
      reads this, bodyParts, StreamsOf(bodyParts)
    {
      && Separate(bodyParts)
      && (forall i | 0 <= i < |bodyParts| :: bodyParts[i].bodyStream.Valid() && !bodyParts[i].bodyStream.streamError)
      && OpensOnce()
    }

    ghost predicate OpensOnce()
      reads this, bodyParts
    {
      forall i | 0 < i < |bodyParts| :: !bodyParts[i].hasInitialBoundary
    }

    ghost function Now(): (parts: seq<Part>)
      reads this, bodyParts, StreamsOf(bodyParts)
      requires Valid()
      ensures |parts| == |bodyParts|
    {
      seq(|bodyParts|,
          i requires 0 <= i < |bodyParts| && Valid()
            reads this, bodyParts, StreamsOf(bodyParts)
            => bodyParts[i].Now())
    }

    constructor (boundary: seq<byte>)
      ensures Valid() && this.boundary == boundary && bodyParts == [] && !bodyPartError
    {
      this.boundary, bodyParts, bodyPartError := boundary, [], false;
    }

    /** The flags of the parts are those of a value. */
    ghost predicate FlagsAs(parts: seq<Part>)
      reads this, bodyParts
    {
      && |parts| == |bodyParts|
      && forall i | 0 <= i < |parts| ::
           && bodyParts[i].hasInitialBoundary == parts[i].hasInitialBoundary
           && bodyParts[i].hasFinalBoundary == parts[i].hasFinalBoundary
    }

    /** The streams of the first i parts have been read to the end, the others are as they were. */
    ghost predicate ReadUpTo(i: nat, parts: seq<Part>)
      reads this, bodyParts, StreamsOf(bodyParts)
    {
      && |parts| == |bodyParts|
      && (forall j | 0 <= j < |bodyParts| :: bodyParts[j].bodyStream.Valid() && !bodyParts[j].bodyStream.streamError)
      && (forall j | 0 <= j < |bodyParts| :: bodyParts[j].Now() == if j < i then parts[j].(body := []) else parts[j])
    }

    ghost predicate StreamsValid()
      reads this, bodyParts, StreamsOf(bodyParts)
    {
      forall p | p in bodyParts :: p.bodyStream.Valid()
    }

    ghost predicate NoStreamFailed()
      reads this, bodyParts, StreamsOf(bodyParts)
    {
      forall p | p in bodyParts :: !p.bodyStream.streamError
    }

    /** append(_:withLength:headers:) */
    method Append(stream: InputStream, length: nat, headers: seq<Header>)
      requires Valid() && stream.Valid() && !stream.streamError && forall p | p in bodyParts :: p.bodyStream != stream
      modifies this
      ensures Valid() && bodyPartError == old(bodyPartError)
      ensures |bodyParts| == |old(bodyParts)| + 1 && bodyParts[..|old(bodyParts)|] == old(bodyParts)
      ensures fresh(bodyParts[|old(bodyParts)|]) && bodyParts[|old(bodyParts)|].bodyStream == stream
      ensures Now() == old(Now()) + [Part(headers, stream.Remaining(), length, false, false)]
    {
      var bodyPart := new BodyPart(headers, stream, length);
      bodyParts := bodyParts + [bodyPart];
    }

    /** Sets the initial flag of the first part and the final flag of the last one. */
    method MarkBoundaries()
      requires Valid()
      modifies bodyParts
      ensures Valid() && Now() == Marked(old(Now()))
    {
      if bodyParts == [] { return; }
      bodyParts[0].hasInitialBoundary := true;
      bodyParts[|bodyParts| - 1].hasFinalBoundary := true;
    }

    /** What a valid form is before any part has been read. */
    lemma NothingRead(parts: seq<Part>)
      requires Valid() && parts == Now()
      ensures |parts| == |bodyParts| && Separate(bodyParts) && OpensOnce() && FlagsAs(parts)
      ensures ReadUpTo(0, parts) && StreamsValid() && NoStreamFailed()
    {
    }

    /** encode(): everything in memory. It fails exactly when an append was refused, a stream fails,
        or a stream does not hold the announced number of bytes. The flags it sets stay set, and on
        success the streams are used up. */
    method Encode() returns (r: Option<seq<byte>>)
      requires Valid()
      modifies bodyParts, StreamsOf(bodyParts)
      ensures StreamsValid()
      ensures r.Some? <==> !bodyPartError && LengthsMatch(old(Now())) && NoStreamFailed()
      ensures r.Some? ==> r.value == Encoded(boundary, Marked(old(Now())))
      ensures r.Some? ==> Valid() && Now() == Drained(Marked(old(Now())))
      ensures FlagsAs(if bodyPartError then old(Now()) else Marked(old(Now())))
    {
      hide Marked, Encoded, LengthsMatch, Separate, OpensOnce, ReadUpTo, FlagsAs, Valid, Now, StreamsOf, StreamsValid,
           NoStreamFailed, Drained;
      NothingRead(Now());
      if bodyPartError { return None; }
      MarkedLengths(Now());
      MarkBoundaries();
      ghost var parts := Now();
      NothingRead(parts);
      r := EncodeParts(parts);
      if r.Some? { AllRead(parts); }
    }

    /** When all parts have been read the form is drained. */
    lemma AllRead(parts: seq<Part>)
      requires Separate(bodyParts) && ReadUpTo(|bodyParts|, parts)
      requires OpensOnce()
      ensures Valid() && Now() == Drained(parts)
      ensures StreamsValid() && NoStreamFailed()
    {
      hide Separate;
    }

    /** One round of the loop of encode(). */
    method EncodeNext(i: nat, ghost parts: seq<Part>) returns (r: Option<seq<byte>>)
      requires i < |bodyParts| && Separate(bodyParts) && ReadUpTo(i, parts)
      modifies bodyParts[i].bodyStream
      ensures StreamsValid()
      ensures |parts| == |bodyParts|
      ensures r.Some? ==> |parts[i].body| == parts[i].contentLength
      ensures r.None? && |parts[i].body| == parts[i].contentLength ==> !NoStreamFailed()
      ensures r.Some? ==> r.value == EncodedPart(boundary, parts[i]) && ReadUpTo(i + 1, parts)
    {
      hide EncodedPart, Separate;
      OtherStreams(bodyParts, i);
      r := EncodePart(bodyParts[i]);
    }

    /** One round of the loop of writeEncodedData(to:). */
    method WriteNext(i: nat, ghost parts: seq<Part>, outputStream: OutputStream) returns (ok: bool)
      requires i < |bodyParts| && Separate(bodyParts) && ReadUpTo(i, parts)
      requires outputStream.Valid() && !outputStream.streamError
      modifies bodyParts[i].bodyStream, outputStream
      ensures outputStream.Valid() && StreamsValid()
      ensures |parts| == |bodyParts|
      ensures ok ==> !outputStream.streamError
      ensures !ok ==> outputStream.streamError || !NoStreamFailed()
      ensures ok ==> ReadUpTo(i + 1, parts)
      ensures ok ==> outputStream.contents ==
                     Clip(old(outputStream.contents) + EncodedPart(boundary, parts[i]), outputStream.capacity)
    {
      hide EncodedPart, Clip, Separate;
      OtherStreams(bodyParts, i);
      ok := WritePart(bodyParts[i], outputStream);
    }

    /** The loop of encode(). */
    method EncodeParts(ghost parts: seq<Part>) returns (r: Option<seq<byte>>)
      requires |parts| == |bodyParts| && Separate(bodyParts) && ReadUpTo(0, parts) && StreamsValid()
      modifies StreamsOf(bodyParts)
      ensures StreamsValid()
      ensures r.Some? ==> ReadUpTo(|bodyParts|, parts) && r.value == Encoded(boundary, parts) && LengthsMatch(parts)
      ensures r.None? ==> !LengthsMatch(parts) || !NoStreamFailed()
    {
      hide Encoded, EncodedPart, EncodedUpTo, LengthsMatch, LengthsUpTo, Separate, ReadUpTo, Valid, Now, StreamsOf,
           StreamsValid, NoStreamFailed;
      var encoded: seq<byte> := [];
      UpToEnds(boundary, parts);
      var i := 0;
      while i < |bodyParts|
        invariant 0 <= i <= |bodyParts|
        invariant ReadUpTo(i, parts) && StreamsValid()
        invariant encoded == EncodedUpTo(boundary, parts, i) && LengthsUpTo(parts, i)
      {
        UpToNext(boundary, parts, i);
        StreamIn(bodyParts, i);
        var encodedData := EncodeNext(i, parts);
        if encodedData.None? { return None; }
        encoded := encoded + encodedData.value;
        i := i + 1;
      }
      r := Some(encoded);
    }

    /** encode(_ bodyPart:) */
    method EncodePart(bodyPart: BodyPart) returns (r: Option<seq<byte>>)
      requires bodyPart.bodyStream.Valid() && !bodyPart.bodyStream.streamError
      modifies bodyPart.bodyStream
      ensures bodyPart.bodyStream.Valid()
      ensures r.Some? <==> !bodyPart.bodyStream.streamError && |old(bodyPart.Now()).body| == bodyPart.bodyContentLength
      ensures r.Some? ==> r.value == EncodedPart(boundary, old(bodyPart.Now())) && bodyPart.bodyStream.Remaining() == []
    {
      var kind := if bodyPart.hasInitialBoundary then InitialBoundary else EncapsulatedBoundary;
      var encoded := BoundaryData(kind, boundary);
      encoded := encoded + HeaderData(bodyPart.headers);
      var bodyStreamData := EncodeBodyStream(bodyPart);
      if bodyStreamData.None? { return None; }
      encoded := encoded + bodyStreamData.value;
      if bodyPart.hasFinalBoundary { encoded := encoded + BoundaryData(FinalBoundary, boundary); }
      r := Some(encoded);
    }

    /** encodeBodyStream: the chunks read are put together, whatever their sizes. */
    method EncodeBodyStream(bodyPart: BodyPart) returns (r: Option<seq<byte>>)
      requires bodyPart.bodyStream.Valid() && !bodyPart.bodyStream.streamError
      modifies bodyPart.bodyStream
      ensures bodyPart.bodyStream.Valid()
      ensures r.Some? <==>
              && !bodyPart.bodyStream.streamError
              && |old(bodyPart.bodyStream.Remaining())| == bodyPart.bodyContentLength
      ensures r.Some? ==> r.value == old(bodyPart.bodyStream.Remaining()) && bodyPart.bodyStream.Remaining() == []
    {
      var inputStream := bodyPart.bodyStream;
      var encoded: seq<byte> := [];
      while true
        invariant inputStream.Valid() && !inputStream.streamError
        invariant encoded + inputStream.Remaining() == old(inputStream.Remaining())
        decreases |inputStream.Remaining()|
      {
        var available := inputStream.HasBytesAvailable();
        if !available { break; }
        var chunk := inputStream.Read(STREAM_BUFFER_SIZE);
        if inputStream.streamError { return None; }
        if chunk == [] { break; }
        encoded := encoded + chunk;
      }
      assert encoded == old(inputStream.Remaining());
      if |encoded| != bodyPart.bodyContentLength { return None; }
      r := Some(encoded);
    }

    /** writeEncodedData(to:): the file ends up with the bytes that encode() gives, as far as it has
        space; running out of space is not an error, and neither is a wrong content length. The
        flags it sets stay set, and on success the streams are used up. */
    method WriteEncodedData(target: Target) returns (ok: bool)
      requires Valid()
      requires target.Opened? ==> target.stream.Valid() && target.stream.contents == [] && !target.stream.streamError
      modifies bodyParts, StreamsOf(bodyParts), if target.Opened? then {target.stream} else {}
      ensures StreamsValid()
      ensures target.Opened? ==> target.stream.Valid()
      ensures ok <==> !bodyPartError && target.Opened? && !target.stream.streamError && NoStreamFailed()
      ensures ok ==> target.stream.contents == Clip(Encoded(boundary, Marked(old(Now()))), target.stream.capacity)
      ensures ok ==> Valid() && Now() == Drained(Marked(old(Now())))
      ensures FlagsAs(if bodyPartError || !target.Opened? then old(Now()) else Marked(old(Now())))
    {
      hide Marked, Encoded, Clip, Separate, OpensOnce, ReadUpTo, FlagsAs, Valid, Now, StreamsOf, StreamsValid,
           NoStreamFailed, Drained;
      NothingRead(Now());
      if bodyPartError { return false; }
      if !target.Opened? { return false; }
      MarkBoundaries();
      ghost var parts := Now();
      NothingRead(parts);
      ok := WriteParts(target.stream, parts);
      if ok { AllRead(parts); }
    }

    /** The loop of writeEncodedData(to:). */
    method WriteParts(outputStream: OutputStream, ghost parts: seq<Part>) returns (ok: bool)
      requires |parts| == |bodyParts| && Separate(bodyParts) && ReadUpTo(0, parts) && StreamsValid()
      requires outputStream.Valid() && outputStream.contents == [] && !outputStream.streamError
      modifies StreamsOf(bodyParts), outputStream
      ensures outputStream.Valid() && StreamsValid()
      ensures ok ==> ReadUpTo(|bodyParts|, parts) && !outputStream.streamError
      ensures ok ==> outputStream.contents == Clip(Encoded(boundary, parts), outputStream.capacity)
      ensures !ok ==> outputStream.streamError || !NoStreamFailed()
    {
      hide Encoded, EncodedPart, EncodedUpTo, Clip, LengthsUpTo, Separate, ReadUpTo, Valid, Now, StreamsOf,
           StreamsValid, NoStreamFailed;
      UpToEnds(boundary, parts);
      ClipFits([], outputStream.capacity);
      var i := 0;
      while i < |bodyParts|
        invariant 0 <= i <= |bodyParts|
        invariant ReadUpTo(i, parts) && StreamsValid() && outputStream.Valid() && !outputStream.streamError
        invariant outputStream.contents == Clip(EncodedUpTo(boundary, parts, i), outputStream.capacity)
      {
        UpToNext(boundary, parts, i);
        ClipAppend(EncodedUpTo(boundary, parts, i), EncodedPart(boundary, parts[i]), outputStream.capacity);
        StreamIn(bodyParts, i);
        ok := WriteNext(i, parts, outputStream);
        if !ok { return; }
        i := i + 1;
      }
      ok := true;
    }

    /** write(_ bodyPart:to:) */
    method WritePart(bodyPart: BodyPart, outputStream: OutputStream) returns (ok: bool)
      requires bodyPart.bodyStream.Valid() && !bodyPart.bodyStream.streamError
      requires outputStream.Valid() && !outputStream.streamError
      modifies bodyPart.bodyStream, outputStream
      ensures bodyPart.bodyStream.Valid() && outputStream.Valid()
      ensures ok <==> !bodyPart.bodyStream.streamError && !outputStream.streamError
      ensures ok ==> outputStream.contents ==
                     Clip(old(outputStream.contents) + EncodedPart(boundary, old(bodyPart.Now())),
                       outputStream.capacity)
      ensures ok ==> bodyPart.bodyStream.Remaining() == []
    {
      ghost var part, before, capacity := bodyPart.Now(), outputStream.contents, outputStream.capacity;
      PartPieces(boundary, part);
      hide Clip, EncodedPart, BoundaryData, HeaderData, FinalData;
      var kind := if bodyPart.hasInitialBoundary then InitialBoundary else EncapsulatedBoundary;
      var initialData := BoundaryData(kind, boundary);
      ok := WriteBytes(initialData, outputStream);
      if !ok { return; }
      var headerData := HeaderData(bodyPart.headers);
      ok := WriteBytes(headerData, outputStream);
      if !ok { return; }
      ok := WriteBodyStream(bodyPart, outputStream);
      if !ok { return; }
      ClipPart(before, initialData, headerData, part.body, FinalData(boundary, part), capacity);
      if bodyPart.hasFinalBoundary {
        ok := WriteBytes(BoundaryData(FinalBoundary, boundary), outputStream);
      } else {
        ClipFits(outputStream.contents, capacity);
      }
    }

    /** writeBodyStream */
    method WriteBodyStream(bodyPart: BodyPart, outputStream: OutputStream) returns (ok: bool)
      requires bodyPart.bodyStream.Valid() && !bodyPart.bodyStream.streamError
      requires outputStream.Valid() && !outputStream.streamError
      modifies bodyPart.bodyStream, outputStream
      ensures bodyPart.bodyStream.Valid() && outputStream.Valid()
      ensures ok <==> !bodyPart.bodyStream.streamError && !outputStream.streamError
      ensures ok ==> outputStream.contents ==
                     Clip(old(outputStream.contents) + old(bodyPart.bodyStream.Remaining()), outputStream.capacity)
      ensures ok ==> bodyPart.bodyStream.Remaining() == []
    {
      hide Clip;
      var inputStream := bodyPart.bodyStream;
      ghost var done: seq<byte> := [];
      ClipFits(outputStream.contents, outputStream.capacity);
      while true
        invariant inputStream.Valid() && !inputStream.streamError && outputStream.Valid() && !outputStream.streamError
        invariant done + inputStream.Remaining() == old(inputStream.Remaining())
        invariant outputStream.contents == Clip(old(outputStream.contents) + done, outputStream.capacity)
        decreases |inputStream.Remaining()|
      {
        var available := inputStream.HasBytesAvailable();
        if !available { break; }
        var chunk := inputStream.Read(STREAM_BUFFER_SIZE);
        if inputStream.streamError { return false; }
        if chunk == [] { break; }
        ClipStep(old(outputStream.contents), done, chunk, outputStream.capacity);
        ok := WriteBytes(chunk, outputStream);
        if !ok { return; }
        done := done + chunk;
      }
      assert done == old(inputStream.Remaining());
      ok := true;
    }

    /** The partial-write loop: everything that fits is written, in order. */
    method WriteBytes(data: seq<byte>, outputStream: OutputStream) returns (ok: bool)
      requires outputStream.Valid() && !outputStream.streamError
      modifies outputStream
      ensures outputStream.Valid() && (ok <==> !outputStream.streamError)
      ensures ok ==> outputStream.contents == Clip(old(outputStream.contents) + data, outputStream.capacity)
    {
      var buffer := data;
      var bytesToWrite := |buffer|;
      while bytesToWrite > 0
        invariant bytesToWrite == |buffer| && outputStream.Valid() && !outputStream.streamError
        invariant outputStream.contents + buffer == old(outputStream.contents) + data
        decreases bytesToWrite
      {
        var hasSpace := outputStream.HasSpaceAvailable();
        if !hasSpace { break; }
        var bytesWritten := outputStream.Write(buffer, bytesToWrite);
        if outputStream.streamError { return false; }
        bytesToWrite := bytesToWrite - bytesWritten;
        if bytesToWrite > 0 { buffer := buffer[bytesWritten..]; } else { buffer := []; }
      }
      ok := true;
    }
  }

  // --------------------------------------------------------------------------
  // A second encoding of the same form
  // --------------------------------------------------------------------------

  /** A fresh part, over a stream that is not shared and does not fail. */
  ghost function FreshPart(headers: seq<Header>, body: seq<byte>): Part
  {
    Part(headers, body, |body|, false, false)
  }

  lemma FirstEncoding(boundary: seq<byte>, p: Part)
    requires !p.hasInitialBoundary && !p.hasFinalBoundary
    ensures Encoded(boundary, Marked([p])) == MultipartBody(boundary, [p])
  {
    hide Encoded, MultipartBody, Marked;
    FreshFormIsMultipart(boundary, [p]);
  }

  lemma SecondEncoding(boundary: seq<byte>, p: Part, q: Part)
    requires !p.hasInitialBoundary && !p.hasFinalBoundary && !q.hasInitialBoundary
    ensures var again := Drained(Marked([p])) + [q];
            Encoded(boundary, Marked(again)) != MultipartBody(boundary, [p.(body := []), q])
  {
    var again := Drained(Marked([p])) + [q];
    hide Encoded, Opening;
    ExtendedIsNotMultipart(boundary, [p], q);
    SameOpening(boundary, again, [p.(body := []), q]);
  }

  lemma SecondLengths(p: Part, q: Part)
    requires |q.body| == q.contentLength && |p.body| == p.contentLength
    ensures LengthsMatch(Drained(Marked([p])) + [q]) <==> p.body == []
  {
    var again := Drained(Marked([p])) + [q];
    assert again[0].body == [] && again[0].contentLength == p.contentLength && again[1] == q;
  }

  /** A form whose streams do not fail. */
  ghost predicate Reliable(form: Form)
    reads form, form.bodyParts, StreamsOf(form.bodyParts)
  {
    form.Valid() && !form.bodyPartError && forall p | p in form.bodyParts :: p.bodyStream.reliable
  }

  method AppendData(form: Form, headers: seq<Header>, body: seq<byte>)
    requires Reliable(form)
    modifies form
    ensures Reliable(form) && form.Now() == old(form.Now()) + [FreshPart(headers, body)]
    ensures forall p | p in form.bodyParts :: p in old(form.bodyParts) || (fresh(p) && fresh(p.bodyStream))
  {
    var stream := new InputStream(body, true);
    assert forall p | p in form.bodyParts :: p.bodyStream != stream;
    ghost var parts := form.bodyParts;
    form.Append(stream, |body|, headers);
    assert form.bodyParts == parts + [form.bodyParts[|parts|]];
  }

  method EncodeReliable(form: Form) returns (r: Option<seq<byte>>)
    requires Reliable(form)
    modifies form.bodyParts, StreamsOf(form.bodyParts)
    ensures r.Some? <==> LengthsMatch(old(form.Now()))
    ensures r.Some? ==> r.value == Encoded(form.boundary, Marked(old(form.Now())))
    ensures r.Some? ==> Reliable(form) && form.Now() == Drained(Marked(old(form.Now())))
  {
    hide Encoded, Marked, LengthsMatch;
    r := form.Encode();
  }

  method WriteReliable(form: Form) returns (ok: bool, file: OutputStream)
    requires Reliable(form)
    modifies form.bodyParts, StreamsOf(form.bodyParts)
    ensures ok && file.contents == Encoded(form.boundary, Marked(old(form.Now())))
    ensures Reliable(form) && form.Now() == Drained(Marked(old(form.Now())))
  {
    hide Encoded, Marked, Clip;
    file := new OutputStream(None, true);
    ClipFits(Encoded(form.boundary, Marked(form.Now())), None);
    ok := form.WriteEncodedData(Opened(file));
  }

  /** encode(), append, encode(): the first call returns the multipart body of the part. The second
      throws if that part had a body, which is used up; otherwise it returns, with a closing delimiter
      before the second part. */
  method EncodeAppendEncode(boundary: seq<byte>, headers: seq<Header>, body: seq<byte>,
                            moreHeaders: seq<Header>, moreBody: seq<byte>)
    returns (first: Option<seq<byte>>, second: Option<seq<byte>>)
    ensures first == Some(MultipartBody(boundary, [FreshPart(headers, body)]))
    ensures second.Some? <==> body == []
    ensures second.Some? ==>
              && second.value != MultipartBody(boundary, [FreshPart(headers, []), FreshPart(moreHeaders, moreBody)])
              && second.value == Encoded(boundary, Marked(Drained(Marked([FreshPart(headers, body)])) +
                                                          [FreshPart(moreHeaders, moreBody)]))
  {
    hide Encoded, MultipartBody, Marked, LengthsMatch;
    ghost var p, q := FreshPart(headers, body), FreshPart(moreHeaders, moreBody);
    var form := new Form(boundary);
    AppendData(form, headers, body);
    assert form.Now() == [p];
    AllLengths([p]);
    FirstEncoding(boundary, p);
    first := EncodeReliable(form);
    AppendData(form, moreHeaders, moreBody);
    SecondLengths(p, q);
    SecondEncoding(boundary, p, q);
    second := EncodeReliable(form);
  }

  /** The same with writeEncodedData: the second call reports success whatever the first part's body
      was, and has written neither that body nor the multipart body of the two parts. */
  method WriteAppendWrite(boundary: seq<byte>, headers: seq<Header>, body: seq<byte>,
                          moreHeaders: seq<Header>, moreBody: seq<byte>)
    returns (ok: bool, first: OutputStream, again: bool, second: OutputStream)
    ensures ok && first.contents == MultipartBody(boundary, [FreshPart(headers, body)])
    ensures again && second.contents !=
                     MultipartBody(boundary, [FreshPart(headers, body).(body := []), FreshPart(moreHeaders, moreBody)])
    ensures second.contents ==
            Encoded(boundary, Marked(Drained(Marked([FreshPart(headers, body)])) + [FreshPart(moreHeaders, moreBody)]))
  {
    hide Encoded, MultipartBody, Marked;
    ghost var p, q := FreshPart(headers, body), FreshPart(moreHeaders, moreBody);
    var form := new Form(boundary);
    AppendData(form, headers, body);
    assert form.Now() == [p];
    FirstEncoding(boundary, p);
    ok, first := WriteReliable(form);
    AppendData(form, moreHeaders, moreBody);
    SecondEncoding(boundary, p, q);
    again, second := WriteReliable(form);
  }
}
