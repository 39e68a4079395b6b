/** What a reader of multipart bodies finds in an encoded form. */
module MultipartReader {
  import opened Options
  import opened Bits
  import opened MultipartShape

  predicate OccursAt(s: seq<byte>, d: seq<byte>, k: nat)
  {
    k + |d| <= |s| && s[k..k + |d|] == d
  }

  predicate Contains(s: seq<byte>, d: seq<byte>)
  {
    exists k: nat | k <= |s| :: OccursAt(s, d, k)
  }

  /** The first place where d occurs in s. */
  function FirstIn(s: seq<byte>, d: seq<byte>): (r: Option<nat>)
    ensures r.Some? ==> OccursAt(s, d, r.value) && forall k: nat | k < r.value :: !OccursAt(s, d, k)
    ensures r.Some? <==> Contains(s, d)
  {
    SearchFrom(s, d, 0)
  }

  function SearchFrom(s: seq<byte>, d: seq<byte>, from: nat): (r: Option<nat>)
    requires forall k: nat | k < from :: !OccursAt(s, d, k)
    ensures r.Some? ==> OccursAt(s, d, r.value) && forall k: nat | k < r.value :: !OccursAt(s, d, k)
    ensures r.Some? <==> Contains(s, d)
    decreases |s| - from
  {
    if OccursAt(s, d, from) then Some(from)
    else if from >= |s| then None
    else SearchFrom(s, d, from + 1)
  }

  function Mark(boundary: seq<byte>): seq<byte>
  {
    [13, 10, 45, 45] + boundary
  }

  lemma MarkIsDelimiter(boundary: seq<byte>)
    ensures Mark(boundary) == Delimiter(boundary)
  {
  }

  /** The parts from the first one's contents on: each ends at the next delimiter, a line break, two
      dashes and the boundary. Two dashes behind it close the body, and what follows is an epilogue; a
      line break starts another part. */
  function ReadParts(boundary: seq<byte>, s: seq<byte>): Option<seq<seq<byte>>>
    decreases |s|
  {
    var d := Mark(boundary);
    match FirstIn(s, d)
    case None => None
    case Some(k) =>
      var rest := s[k + |d|..];
      if |rest| < 2 then None
      else if rest[..2] == [45, 45] then Some([s[..k]])
      else if rest[..2] != [13, 10] then None
      else
        var more := ReadParts(boundary, rest[2..]);
        if more.None? then None else Some([s[..k]] + more.value)
  }

  /** A body that starts with its dash-boundary line; a preamble is not looked for. */
  function ReadMultipart(boundary: seq<byte>, s: seq<byte>): Option<seq<seq<byte>>>
  {
    var line := [45, 45] + boundary + [13, 10];
    if |s| >= |line| && s[..|line|] == line then ReadParts(boundary, s[|line|..]) else None
  }

  lemma OccursInFront(x: seq<byte>, t: seq<byte>, d: seq<byte>, k: nat)
    ensures k + |d| <= |x| ==> (OccursAt(x + t, d, k) <==> OccursAt(x, d, k))
  {
    if k + |d| <= |x| {
      assert (x + t)[k..k + |d|] == x[k..k + |d|];
    }
  }

  lemma FirstUnique(s: seq<byte>, d: seq<byte>, k: nat)
    requires OccursAt(s, d, k) && forall j: nat | j < k :: !OccursAt(s, d, j)
    ensures FirstIn(s, d) == Some(k)
  {
    InBounds(s, d, k);
    hide OccursAt, SearchFrom;
    assert Contains(s, d);
  }

  /** A delimiter in front decides where it is first found. */
  lemma FirstStays(x: seq<byte>, t: seq<byte>, d: seq<byte>)
    requires FirstIn(x, d).Some?
    ensures FirstIn(x + t, d) == FirstIn(x, d)
  {
    hide FirstIn, OccursAt, Contains;
    var k := FirstIn(x, d).value;
    assert k + |d| <= |x| by { InBounds(x, d, k); }
    OccursInFront(x, t, d, k);
    forall j: nat | j < k ensures !OccursAt(x + t, d, j) { OccursInFront(x, t, d, j); }
    FirstUnique(x + t, d, k);
  }

  lemma InBounds(s: seq<byte>, d: seq<byte>, k: nat)
    requires OccursAt(s, d, k)
    ensures k + |d| <= |s|
  {
  }

  /** Bytes without a delimiter, then a delimiter: that is where it is first found, since its first
      byte does not occur in it again. */
  lemma FirstBehind(x: seq<byte>, d: seq<byte>, t: seq<byte>)
    requires d != [] && d[0] !in d[1..] && !Contains(x, d)
    ensures FirstIn(x + d + t, d) == Some(|x|)
  {
    hide FirstIn;
    assert OccursAt(x + d + t, d, |x|);
    forall j: nat | j < |x| ensures !OccursAt(x + d + t, d, j) { NotBefore(x, d, t, j); }
    hide OccursAt;
    FirstUnique(x + d + t, d, |x|);
  }

  lemma NotBefore(x: seq<byte>, d: seq<byte>, t: seq<byte>, j: nat)
    requires d != [] && d[0] !in d[1..] && !Contains(x, d) && j < |x|
    ensures !OccursAt(x + d + t, d, j)
  {
    if j + |d| <= |x| {
      assert x + d + t == x + (d + t) && !OccursAt(x, d, j);
      OccursInFront(x, d + t, d, j);
    } else {
      var s, i := x + d + t, |x| - j;
      assert s[j..j + |d|][i] == s[|x|] == d[0];
      assert d[i] == d[1..][i - 1] != d[0];
    }
  }

  lemma DelimiterStartsOnce(boundary: seq<byte>)
    requires 13 !in boundary
    ensures Delimiter(boundary) != [] && Delimiter(boundary)[0] !in Delimiter(boundary)[1..]
  {
    assert Delimiter(boundary)[1..] == [10] + (DASHES + boundary);
  }

  // --------------------------------------------------------------------------
  // Forms
  // --------------------------------------------------------------------------

  /** The parts up to the first one that writes a closing delimiter. */
  function Visible(parts: seq<Part>): seq<Part>
  {
    if parts == [] then []
    else if parts[0].hasFinalBoundary then [parts[0]]
    else [parts[0]] + Visible(parts[1..])
  }

  /** Headers and body of each part. */
  function Contents(parts: seq<Part>): (r: seq<seq<byte>>)
    ensures |r| == |parts|
  {
    if parts == [] then [] else [BodyPart(parts[0])] + Contents(parts[1..])
  }

  predicate NoDelimiterIn(boundary: seq<byte>, parts: seq<Part>)
  {
    forall p | p in parts :: !Contains(BodyPart(p), Delimiter(boundary))
  }

  predicate Ends(parts: seq<Part>)
  {
    parts != [] && parts[|parts| - 1].hasFinalBoundary
  }

  /** What follows the contents of a part. */
  function Following(boundary: seq<byte>, p: Part, more: seq<Part>): seq<byte>
  {
    (if p.hasFinalBoundary then CloseDelimiter(boundary) + CRLF else []) + Encoded(boundary, more)
  }

  lemma {:induction false} EncodedFirst(boundary: seq<byte>, p: Part, more: seq<Part>)
    ensures Encoded(boundary, [p] + more) == EncodedPart(boundary, p) + Encoded(boundary, more)
  {
    hide EncodedPart;
    var parts := [p] + more;
    if more == [] {
      assert parts[..0] == [] && parts[|parts| - 1] == p;
      assert Encoded(boundary, []) == [];
      assert Encoded(boundary, parts) == [] + EncodedPart(boundary, p);
    } else {
      var last := |more| - 1;
      assert parts[..|parts| - 1] == [p] + more[..last] && parts[|parts| - 1] == more[last];
      EncodedFirst(boundary, p, more[..last]);
    }
  }

  lemma FlaggedPart(boundary: seq<byte>, p: Part)
    ensures EncodedPart(boundary, p) ==
            (if p.hasInitialBoundary then DashBoundary(boundary) + CRLF else Delimiter(boundary) + CRLF) +
            BodyPart(p) + (if p.hasFinalBoundary then CloseDelimiter(boundary) + CRLF else [])
  {
    hide EncodedPart, BodyPart, Delimiter, DashBoundary, CloseDelimiter;
    var plain := p.(hasFinalBoundary := false);
    if p.hasInitialBoundary { FirstPart(boundary, plain); } else { FurtherPart(boundary, plain); }
    FinalFlag(boundary, plain);
    SameBodyPart(p, plain);
    assert p == if p.hasFinalBoundary then plain.(hasFinalBoundary := true) else plain;
  }

  lemma SameBodyPart(p: Part, q: Part)
    requires p.headers == q.headers && p.body == q.body
    ensures BodyPart(p) == BodyPart(q)
  {
  }

  /** The bytes from a part on, by its contents and what follows. */
  lemma PartBytes(boundary: seq<byte>, p: Part, more: seq<Part>)
    ensures Encoded(boundary, [p] + more) ==
            (if p.hasInitialBoundary then DashBoundary(boundary) + CRLF else Delimiter(boundary) + CRLF) +
            (BodyPart(p) + Following(boundary, p, more))
  {
    hide Encoded, EncodedPart, BodyPart, Delimiter, DashBoundary, CloseDelimiter;
    EncodedFirst(boundary, p, more);
    FlaggedPart(boundary, p);
    Regroup(if p.hasInitialBoundary then DashBoundary(boundary) + CRLF else Delimiter(boundary) + CRLF,
            BodyPart(p), if p.hasFinalBoundary then CloseDelimiter(boundary) + CRLF else [],
            Encoded(boundary, more));
  }

  lemma Regroup(a: seq<byte>, b: seq<byte>, c: seq<byte>, d: seq<byte>)
    ensures a + b + c + d == a + (b + (c + d))
  {
  }

  /** Reading from the contents of a part on gives the visible parts if and only if none of them
      contains the delimiter. */
  lemma {:induction false} ReadFrom(boundary: seq<byte>, p: Part, more: seq<Part>)
    requires 13 !in boundary && Ends([p] + more) && forall q | q in more :: !q.hasInitialBoundary
    ensures ReadParts(boundary, BodyPart(p) + Following(boundary, p, more)) == Some(Contents(Visible([p] + more))) <==>
            NoDelimiterIn(boundary, Visible([p] + more))
    decreases |more|
  {
    hide Encoded, EncodedPart, BodyPart, Delimiter, DashBoundary, CloseDelimiter, FirstIn, Contains, ReadParts;
    hide Visible, NoDelimiterIn, Contents, Following;
    VisibleFirst(boundary, p, more);
    DelimiterStartsOnce(boundary);
    var d, x, y := Delimiter(boundary), BodyPart(p), Following(boundary, p, more);
    if FirstIn(x, d).Some? {
      FirstStays(x, y, d);
      ReadShort(boundary, x, y);
    } else if p.hasFinalBoundary {
      ReadLast(boundary, p, more);
      assert Contents(Visible([p] + more)) == [x];
    } else {
      var q, later := more[0], more[1..];
      assert more == [q] + later && ([p] + more)[|more|] == more[|more| - 1];
      ReadFrom(boundary, q, later);
      ReadNext(boundary, p, more);
      var read := ReadParts(boundary, BodyPart(q) + Following(boundary, q, later));
      assert read.Some? ==> ([x] + read.value)[1..] == read.value;
      var contents := Contents(Visible(more));
      assert ([x] + contents)[1..] == contents;
    }
  }

  lemma VisibleFirst(boundary: seq<byte>, p: Part, more: seq<Part>)
    ensures p.hasFinalBoundary ==> Visible([p] + more) == [p]
    ensures !p.hasFinalBoundary ==> Visible([p] + more) == [p] + Visible(more)
    ensures Contents(Visible([p] + more)) ==
            [BodyPart(p)] + if p.hasFinalBoundary then [] else Contents(Visible(more))
    ensures NoDelimiterIn(boundary, Visible([p] + more)) <==>
            && !Contains(BodyPart(p), Delimiter(boundary))
            && (p.hasFinalBoundary || NoDelimiterIn(boundary, Visible(more)))
  {
    hide BodyPart, Delimiter, Contains;
    var parts := [p] + more;
    assert parts[1..] == more;
    var rest := if p.hasFinalBoundary then [] else Visible(more);
    assert Visible(parts) == [p] + rest && ([p] + rest)[1..] == rest;
    assert forall q :: q in [p] + rest <==> q == p || q in rest;
  }

  /** Contents with a delimiter in them are cut at it. */
  lemma ReadShort(boundary: seq<byte>, x: seq<byte>, y: seq<byte>)
    requires FirstIn(x, Delimiter(boundary)).Some?
    requires FirstIn(x + y, Delimiter(boundary)) == FirstIn(x, Delimiter(boundary))
    requires Delimiter(boundary) != []
    ensures var r := ReadParts(boundary, x + y); r.Some? ==> r.value != [] && r.value[0] != x
  {
    hide Mark, Delimiter, FirstIn;
    MarkIsDelimiter(boundary);
    assert |(x + y)[..FirstIn(x, Delimiter(boundary)).value]| < |x|;
  }

  lemma Split(x: seq<byte>, d: seq<byte>, mark: seq<byte>, y: seq<byte>)
    ensures var s := x + (d + mark + y);
            && s == x + d + (mark + y) && s[..|x|] == x
            && s[|x| + |d|..] == mark + y && (mark + y)[..|mark|] == mark && (mark + y)[|mark|..] == y
  {
    assert x + (d + mark + y) == (x + d) + (mark + y);
  }

  /** Contents without the delimiter, then a delimiter with its mark. */
  lemma DelimiterFound(boundary: seq<byte>, x: seq<byte>, mark: seq<byte>, y: seq<byte>)
    requires !Contains(x, Delimiter(boundary)) && |mark| == 2
    requires Delimiter(boundary) != [] && Delimiter(boundary)[0] !in Delimiter(boundary)[1..]
    ensures ReadParts(boundary, x + (Delimiter(boundary) + mark + y)) ==
            if mark == DASHES then Some([x])
            else if mark != CRLF then None
            else if ReadParts(boundary, y).None? then None else Some([x] + ReadParts(boundary, y).value)
  {
    hide Delimiter, FirstIn, Contains, ReadParts;
    var d := Delimiter(boundary);
    Split(x, d, mark, y);
    FirstBehind(x, d, mark + y);
    ReadAt(boundary, x + (d + mark + y), |x|);
  }

  lemma ReadAt(boundary: seq<byte>, s: seq<byte>, k: nat)
    requires FirstIn(s, Delimiter(boundary)) == Some(k) && |s| >= k + |Delimiter(boundary)| + 2
    ensures var rest := s[k + |Delimiter(boundary)|..];
            ReadParts(boundary, s) ==
            if rest[..2] == DASHES then Some([s[..k]])
            else if rest[..2] != CRLF then None
            else if ReadParts(boundary, rest[2..]).None? then None
            else Some([s[..k]] + ReadParts(boundary, rest[2..]).value)
  {
    hide Mark, Delimiter, FirstIn;
    MarkIsDelimiter(boundary);
  }

  lemma ReadLast(boundary: seq<byte>, p: Part, more: seq<Part>)
    requires p.hasFinalBoundary && !Contains(BodyPart(p), Delimiter(boundary))
    requires Delimiter(boundary) != [] && Delimiter(boundary)[0] !in Delimiter(boundary)[1..]
    ensures ReadParts(boundary, BodyPart(p) + Following(boundary, p, more)) == Some([BodyPart(p)])
  {
    hide Encoded, BodyPart, Delimiter, FirstIn, Contains, ReadParts;
    var y := CRLF + Encoded(boundary, more);
    assert Following(boundary, p, more) == Delimiter(boundary) + DASHES + y;
    DelimiterFound(boundary, BodyPart(p), DASHES, y);
  }

  lemma ReadNext(boundary: seq<byte>, p: Part, more: seq<Part>)
    requires !p.hasFinalBoundary && !Contains(BodyPart(p), Delimiter(boundary))
    requires more != [] && !more[0].hasInitialBoundary
    requires Delimiter(boundary) != [] && Delimiter(boundary)[0] !in Delimiter(boundary)[1..]
    ensures var later := ReadParts(boundary, BodyPart(more[0]) + Following(boundary, more[0], more[1..]));
            ReadParts(boundary, BodyPart(p) + Following(boundary, p, more)) ==
            if later.None? then None else Some([BodyPart(p)] + later.value)
  {
    hide Encoded, BodyPart, Delimiter, DashBoundary, FirstIn, Contains, CloseDelimiter, ReadParts;
    var q, rest := more[0], more[1..];
    assert more == [q] + rest;
    PartBytes(boundary, q, rest);
    var y := BodyPart(q) + Following(boundary, q, rest);
    assert Following(boundary, p, more) == Delimiter(boundary) + CRLF + y;
    assert CRLF != DASHES;
    DelimiterFound(boundary, BodyPart(p), CRLF, y);
  }

  /** Of any form, fresh or encoded before, a reader finds the parts up to the first closing
      delimiter if and only if none of these contains the delimiter. */
  lemma ReaderFindsVisible(boundary: seq<byte>, parts: seq<Part>)
    requires parts != [] && OpensFirst(parts) && 13 !in boundary
    ensures ReadMultipart(boundary, Encoded(boundary, Marked(parts))) == Some(Contents(Visible(Marked(parts)))) <==>
            NoDelimiterIn(boundary, Visible(Marked(parts)))
  {
    var marked := Marked(parts);
    var p, more := marked[0], marked[1..];
    assert marked == [p] + more && p.hasInitialBoundary && Ends([p] + more);
    assert forall q | q in more :: !q.hasInitialBoundary;
    PartBytes(boundary, p, more);
    ReadFrom(boundary, p, more);
    assert DashBoundary(boundary) + CRLF == [45, 45] + boundary + [13, 10];
    hide Marked, Encoded, ReadParts, Following, BodyPart, DashBoundary, Visible, Contents, NoDelimiterIn;
    var line, s := DashBoundary(boundary) + CRLF, BodyPart(p) + Following(boundary, p, more);
    assert (line + s)[..|line|] == line && (line + s)[|line|..] == s;
  }

  lemma {:induction false} VisibleAll(parts: seq<Part>)
    requires parts != []
    ensures |Visible(parts)| <= |parts|
    ensures |Visible(parts)| == |parts| <==> NoEarlyFinal(parts)
    ensures NoEarlyFinal(parts) ==> Visible(parts) == parts
  {
    if |parts| == 1 {
      assert parts == [parts[0]] && Visible(parts[1..]) == [];
    } else {
      VisibleAll(parts[1..]);
      assert parts == [parts[0]] + parts[1..];
      if NoEarlyFinal(parts) {
        assert forall i | 0 <= i < |parts[1..]| - 1 :: parts[1..][i] == parts[i + 1];
      } else if !parts[0].hasFinalBoundary {
        var i :| 0 <= i < |parts| - 1 && parts[i].hasFinalBoundary;
        assert parts[1..][i - 1].hasFinalBoundary;
      }
    }
  }

  lemma {:induction false} SameContents(a: seq<Part>, b: seq<Part>)
    requires SameContent(a, b)
    ensures Contents(a) == Contents(b)
  {
    hide HeaderData;
    if a == [] {
    } else {
      assert BodyPart(a[0]) == BodyPart(b[0]);
      SameContents(a[1..], b[1..]);
    }
  }

  /** When no header or body contains the delimiter, a reader recovers all parts of a form if and only
      if none before the last has kept its final flag; otherwise it sees the parts up to it. */
  lemma ReaderRecoversParts(boundary: seq<byte>, parts: seq<Part>)
    requires parts != [] && OpensFirst(parts) && 13 !in boundary && NoDelimiterIn(boundary, parts)
    ensures ReadMultipart(boundary, Encoded(boundary, Marked(parts))) == Some(Contents(Visible(Marked(parts))))
    ensures ReadMultipart(boundary, Encoded(boundary, Marked(parts))) == Some(Contents(parts)) <==> NoEarlyFinal(parts)
  {
    var marked := Marked(parts);
    assert SameContent(marked, parts);
    assert NoEarlyFinal(marked) <==> NoEarlyFinal(parts) by { MarkedEarly(parts); }
    NoDelimiterMarked(boundary, parts);
    hide Marked, Encoded, ReadMultipart, SameContent, NoEarlyFinal, NoDelimiterIn, Visible, Contents;
    ReaderFindsVisible(boundary, parts);
    VisibleAll(marked);
    SameContents(marked, parts);
  }

  lemma MarkedEarly(parts: seq<Part>)
    requires parts != []
    ensures NoEarlyFinal(Marked(parts)) <==> NoEarlyFinal(parts)
  {
    var marked := Marked(parts);
    assert forall i | 0 <= i < |parts| - 1 :: marked[i].hasFinalBoundary == parts[i].hasFinalBoundary;
  }

  lemma {:induction false} VisibleIn(parts: seq<Part>, p: Part)
    requires p in Visible(parts)
    ensures p in parts
  {
    if parts[0].hasFinalBoundary || p == parts[0] {
    } else {
      VisibleIn(parts[1..], p);
    }
  }

  lemma NoDelimiterMarked(boundary: seq<byte>, parts: seq<Part>)
    requires NoDelimiterIn(boundary, parts)
    ensures NoDelimiterIn(boundary, Visible(Marked(parts)))
  {
    var marked := Marked(parts);
    forall p | p in Visible(marked) ensures !Contains(BodyPart(p), Delimiter(boundary)) {
      VisibleIn(marked, p);
      var i :| 0 <= i < |marked| && marked[i] == p;
      assert parts[i] in parts && BodyPart(parts[i]) == BodyPart(p);
    }
  }

  lemma {:induction false} VisibleInFront(parts: seq<Part>, more: seq<Part>)
    requires Ends(parts)
    ensures Visible(parts + more) == Visible(parts)
  {
    assert parts == [parts[0]] + parts[1..] && (parts + more)[1..] == parts[1..] + more;
    if parts[0].hasFinalBoundary {
    } else {
      assert parts[1..] != [] && parts[1..][|parts| - 2] == parts[|parts| - 1];
      VisibleInFront(parts[1..], more);
    }
  }

  lemma MarkedAgain(parts: seq<Part>, p: Part)
    requires parts != [] && OpensFirst(parts) && !p.hasInitialBoundary
    ensures var before := Drained(Marked(parts));
            && Ends(before) && OpensFirst(before + [p])
            && Marked(before + [p]) == before + [p.(hasFinalBoundary := true)]
  {
    var before := Drained(Marked(parts));
    var extended := before + [p];
    assert before[0].hasInitialBoundary && extended[0] == before[0];
    assert extended[0 := extended[0].(hasInitialBoundary := true)] == extended;
  }

  /** A form encoded, extended and encoded again: a reader sees nothing of the added part. */
  lemma AddedPartUnread(boundary: seq<byte>, parts: seq<Part>, p: Part)
    requires parts != [] && OpensFirst(parts) && !p.hasInitialBoundary && 13 !in boundary
    requires NoDelimiterIn(boundary, Drained(Marked(parts)) + [p])
    ensures ReadMultipart(boundary, Encoded(boundary, Marked(Drained(Marked(parts)) + [p]))) ==
            Some(Contents(Visible(Drained(Marked(parts)))))
  {
    hide Marked, Encoded, ReadMultipart, NoDelimiterIn, Visible, Contents, OpensFirst, Ends;
    var before := Drained(Marked(parts));
    MarkedAgain(parts, p);
    ReaderRecoversParts(boundary, before + [p]);
    VisibleInFront(before, [p.(hasFinalBoundary := true)]);
  }
}
