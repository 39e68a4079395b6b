/** What a reader of multipart bodies finds in one part: header lines, an empty line, the body. */
module MultipartHeaders {
  import opened Options
  import opened Bits
  import opened MultipartShape
  import opened MultipartReader

  /** Headers and body of a part, as read. */
  datatype Content = Content(headers: seq<Header>, body: seq<byte>)

  datatype Halves = Halves(front: seq<byte>, rest: seq<byte>)

  /** What is in front of the first d, and behind it. */
  function Cut(s: seq<byte>, d: seq<byte>): (r: Option<Halves>)
    ensures r.Some? ==> |r.value.front| + |d| + |r.value.rest| == |s|
  {
    match FirstIn(s, d)
    case None => None
    case Some(k) => Some(Halves(s[..k], s[k + |d|..]))
  }

  /** The lines up to the first empty one, each split at its first colon and space; the rest is the
      body. */
  function ReadPart(s: seq<byte>): Option<Content>
    decreases |s|
  {
    match Cut(s, [13, 10])
    case None => None
    case Some(Halves(line, rest)) =>
      if line == [] then Some(Content([], rest))
      else
        match Cut(line, [58, 32])
        case None => None
        case Some(Halves(name, value)) =>
          var more := ReadPart(rest);
          if more.None? then None
          else Some(Content([Header(name, value)] + more.value.headers, more.value.body))
  }

  function Line(h: Header): seq<byte>
  {
    h.name + [58, 32] + h.value
  }

  /** A header that can be told apart: no colon and space in its name, no line break in its line. */
  predicate Clean(h: Header)
  {
    !Contains(h.name, [58, 32]) && !Contains(Line(h), [13, 10])
  }

  predicate AllClean(headers: seq<Header>)
  {
    forall h | h in headers :: Clean(h)
  }

  /** In particular when no name holds a colon or a carriage return, and no value the latter. */
  lemma PlainIsClean(h: Header)
    requires 58 !in h.name && 13 !in h.name && 13 !in h.value
    ensures Clean(h)
  {
    hide FirstIn;
    forall k: nat ensures !OccursAt(h.name, [58, 32], k) && !OccursAt(Line(h), [13, 10], k) {
      if k < |h.name| { assert h.name[k] in h.name; }
      if k < |Line(h)| { assert Line(h)[k] != 13; }
    }
  }

  lemma HeaderBytes(headers: seq<Header>, body: seq<byte>)
    ensures headers == [] ==> HeaderData(headers) + body == [13, 10] + body
    ensures headers != [] ==>
              HeaderData(headers) + body == Line(headers[0]) + [13, 10] + (HeaderData(headers[1..]) + body)
  {
    if headers != [] {
      var line, more := Line(headers[0]), HeaderLines(headers[1..]);
      assert HeaderLines(headers) == line + [13, 10] + more;
      hide HeaderLines, Line;
      assert line + [13, 10] + more + [13, 10] + body == line + [13, 10] + (more + [13, 10] + body);
    }
  }

  lemma CutBehind(x: seq<byte>, d: seq<byte>, t: seq<byte>)
    requires d != [] && d[0] !in d[1..] && !Contains(x, d)
    ensures Cut(x + d + t, d) == Some(Halves(x, t))
  {
    FirstBehind(x, d, t);
    hide FirstIn;
    var s := x + d + t;
    assert s[..|x|] == x && s[|x| + |d|..] == t;
  }

  lemma CutInside(x: seq<byte>, d: seq<byte>, t: seq<byte>)
    requires d != [] && Contains(x, d)
    ensures Cut(x + t, d).Some? && |Cut(x + t, d).value.front| + |d| <= |x|
  {
    assert FirstIn(x, d).Some?;
    FirstStays(x, t, d);
    InBounds(x, d, FirstIn(x, d).value);
    hide FirstIn;
  }

  /** The empty line ends the headers. */
  lemma ReadEmptyLine(body: seq<byte>)
    ensures ReadPart([13, 10] + body) == Some(Content([], body))
  {
    hide Cut;
    assert !Contains([], [13, 10]);
    CutBehind([], [13, 10], body);
    assert [] + [13, 10] + body == [13, 10] + body;
  }

  /** A clean header line is read as the header. */
  lemma ReadCleanLine(h: Header, rest: seq<byte>)
    requires Clean(h)
    ensures var more := ReadPart(rest);
            ReadPart(Line(h) + [13, 10] + rest) ==
            if more.None? then None else Some(Content([h] + more.value.headers, more.value.body))
  {
    hide Cut, Contains;
    CutBehind(Line(h), [13, 10], rest);
    CutBehind(h.name, [58, 32], h.value);
    assert Line(h) != [];
  }

  /** Another one is read as some other header, if as any: its line ends too early, or its name does. */
  lemma ReadUncleanLine(h: Header, rest: seq<byte>)
    requires !Clean(h)
    ensures var r := ReadPart(Line(h) + [13, 10] + rest);
            r.Some? ==> r.value.headers == [] || r.value.headers[0] != h
  {
    hide Cut, Contains;
    var s := Line(h) + [13, 10] + rest;
    if Contains(Line(h), [13, 10]) {
      assert s == Line(h) + ([13, 10] + rest);
      CutInside(Line(h), [13, 10], [13, 10] + rest);
    } else {
      CutBehind(Line(h), [13, 10], rest);
      assert Line(h) == h.name + ([58, 32] + h.value);
      CutInside(h.name, [58, 32], [58, 32] + h.value);
    }
  }

  /** Headers and body come back if and only if all headers are clean. */
  lemma {:induction false} ReadPartExactly(headers: seq<Header>, body: seq<byte>)
    ensures ReadPart(HeaderData(headers) + body) == Some(Content(headers, body)) <==> AllClean(headers)
    decreases |headers|
  {
    hide ReadPart, HeaderData, Clean, Line;
    HeaderBytes(headers, body);
    if headers == [] {
      ReadEmptyLine(body);
    } else {
      var h, rest := headers[0], HeaderData(headers[1..]) + body;
      assert headers == [h] + headers[1..];
      if Clean(h) {
        ReadPartExactly(headers[1..], body);
        ReadCleanLine(h, rest);
        assert forall x | x in headers :: x == h || x in headers[1..];
        var more := ReadPart(rest);
        if more.Some? { assert ([h] + more.value.headers)[1..] == more.value.headers; }
      } else {
        ReadUncleanLine(h, rest);
        assert h in headers;
      }
    }
  }

  // --------------------------------------------------------------------------
  // Whole forms
  // --------------------------------------------------------------------------

  function ReadEach(contents: seq<seq<byte>>): (r: Option<seq<Content>>)
    ensures r.Some? ==> |r.value| == |contents|
  {
    if contents == [] then Some([])
    else if ReadPart(contents[0]).None? || ReadEach(contents[1..]).None? then None
    else Some([ReadPart(contents[0]).value] + ReadEach(contents[1..]).value)
  }

  /** The parts of a multipart body, with headers and body told apart. */
  function ReadForm(boundary: seq<byte>, s: seq<byte>): Option<seq<Content>>
  {
    var contents := ReadMultipart(boundary, s);
    if contents.None? then None else ReadEach(contents.value)
  }

  function Given(parts: seq<Part>): (r: seq<Content>)
    ensures |r| == |parts|
  {
    if parts == [] then [] else [Content(parts[0].headers, parts[0].body)] + Given(parts[1..])
  }

  predicate CleanParts(parts: seq<Part>)
  {
    forall p | p in parts :: AllClean(p.headers)
  }

  lemma {:induction false} ReadEachExactly(parts: seq<Part>)
    ensures ReadEach(Contents(parts)) == Some(Given(parts)) <==> CleanParts(parts)
  {
    hide ReadPart, HeaderData, AllClean;
    if parts == [] {
    } else {
      var p, more := parts[0], Contents(parts[1..]);
      assert parts == [p] + parts[1..];
      assert Contents(parts)[0] == BodyPart(p) && Contents(parts)[1..] == more;
      ReadPartExactly(p.headers, p.body);
      ReadEachExactly(parts[1..]);
      assert forall q | q in parts :: q == p || q in parts[1..];
      var given := Given(parts[1..]);
      assert ([Content(p.headers, p.body)] + given)[1..] == given;
      if ReadPart(BodyPart(p)).Some? && ReadEach(more).Some? {
        assert ([ReadPart(BodyPart(p)).value] + ReadEach(more).value)[1..] == ReadEach(more).value;
      }
    }
  }

  /** When no part contains the delimiter, a reader gets back the headers and the body of every part
      of a form, fresh or encoded before, if and only if all headers are clean and no part before the
      last has kept its final flag. */
  lemma FormComesBack(boundary: seq<byte>, parts: seq<Part>)
    requires parts != [] && OpensFirst(parts) && 13 !in boundary && NoDelimiterIn(boundary, parts)
    ensures ReadForm(boundary, Encoded(boundary, Marked(parts))) == Some(Given(parts)) <==>
            NoEarlyFinal(parts) && CleanParts(parts)
  {
    hide Marked, Encoded, ReadMultipart, ReadEach, Given, Contents, NoDelimiterIn, OpensFirst, NoEarlyFinal, CleanParts,
         Visible;
    ReaderRecoversParts(boundary, parts);
    ReadEachExactly(parts);
    VisibleAll(Marked(parts));
    MarkedEarly(parts);
  }
}
