/** For every way to cut a serialized multipart body: when the parser gives its items back. */
module MultipartSplits {
  import opened Wrappers
  import opened Sequences
  import opened HttpText
  import opened MultipartSpec
  import opened MultipartHeaders
  import opened MultipartRoundTrip
  import opened MultipartTrail

  // ----- Looking for the first delimiter line -----

  /** Some text is lost already, and no delimiter line has been found in what came after it. */
  ghost predicate Searching(p: Parser, future: string, text: string) {
    && p.phase == InitialBoundary && p.events == [] && !p.valid
    && IsRest(text, p.buf + future) && |p.buf + future| < |text|
  }

  /** A trail that begins behind a delimiter line which is not at the start of the body. */
  ghost predicate BeginsLate(t: Trail, text: string, boundary: string, s: nat) {
    && t.text == text && t.boundary == boundary && t.spans == []
    && s > 0 && OccursAt(text, DelimiterLine(boundary), s) && t.base == s + |DelimiterLine(boundary)|
  }

  lemma LineFound(text: string, p: Parser, future: string, boundary: string) returns (t: Trail, s: nat)
    requires Searching(p, future, text) && Find(p.buf, DelimiterLine(boundary)) < |p.buf|
    ensures var k, d := Find(p.buf, DelimiterLine(boundary)), DelimiterLine(boundary);
      && k + |d| <= |p.buf| && BeginsLate(t, text, boundary, s)
      && Track(t, p.Drop(k).Drop(|d|).(phase := NewEntry), future)
  {
    hide Find, FirstFile, Collected, DelimiterLine;
    var d := DelimiterLine(boundary);
    assert d != "" by { LineNotEmpty(boundary); }
    var k := Find(p.buf, d);
    FindFits(p.buf, d);
    assert OccursAt(p.buf, d, k);
    OccursInRest(text, p.buf, future, d, k);
    RestDrop(text, p.buf, future, k + |d|);
    s := |text| - |p.buf + future| + k;
    t := Trail(text, boundary, s + |d|, []);
    SliceFrom(p.buf, k, |d|);
    assert Collected([]) == [] by { NothingCollected(); }
  }

  lemma LineNotEmpty(boundary: string)
    ensures |DelimiterLine(boundary)| == |boundary| + 4
  {}

  lemma NothingCollected()
    ensures Collected([]) == []
  {}

  /** What a search can come to: nothing, or an entry that begins late. */
  datatype Search = Nothing | Late(t: Trail, s: nat)

  ghost predicate Ends(r: Search, q: Parser, text: string, boundary: string) {
    match r
    case Nothing => Searching(q, "", text)
    case Late(t, s) =>
      && BeginsLate(t.(spans := []), text, boundary, s) && Track(t, q, "")
      && (q.phase == Body ==> |q.buf| <= |t.Needle()|)
  }

  lemma {:induction false} SearchResume(text: string, p: Parser, pieces: seq<string>, boundary: string,
                                        accept: Callbacks)
    returns (r: Search)
    requires Searching(p, Concat(pieces), text) && AcceptsAll(accept)
    ensures var (q, ok) := Resume(p, pieces, boundary, accept); ok ==> Ends(r, q, text, boundary)
    decreases |pieces|
  {
    hide Find, Track, Step, BeginsLate, DelimiterLine;
    var q := p;
    LineNotEmpty(boundary);
    if p.buf != "" {
      var k := Find(p.buf, DelimiterLine(boundary));
      SearchStep(p, boundary, accept);
      if k < |p.buf| {
        var t, s := LineFound(text, p, Concat(pieces), boundary);
        var u := ResumeTrack(t, p.Drop(k).Drop(|DelimiterLine(boundary)|).(phase := NewEntry), pieces, accept);
        LateTrail(t, u, text, boundary, s);
        return Late(u, s);
      }
      q := p.Drop(|p.buf|);
    }
    r := Nothing;
    if pieces != [] {
      Append(q.buf, pieces[0], Concat(pieces[1..]));
      r := SearchResume(text, q.(buf := q.buf + pieces[0]), pieces[1..], boundary, accept);
    }
  }

  lemma LateTrail(t: Trail, u: Trail, text: string, boundary: string, s: nat)
    requires BeginsLate(t, text, boundary, s) && Follows(u, t)
    ensures BeginsLate(u.(spans := []), text, boundary, s) && t.boundary == boundary
  {}

  lemma SearchStep(p: Parser, boundary: string, accept: Callbacks)
    requires p.phase == InitialBoundary && p.buf != ""
    ensures var k, n := Find(p.buf, DelimiterLine(boundary)), |DelimiterLine(boundary)|;
      && (k < |p.buf| ==>
            && k + n <= |p.buf|
            && Run(p, boundary, accept) == Run(p.Drop(k).Drop(n).(phase := NewEntry), boundary, accept))
      && (k == |p.buf| ==> Run(p, boundary, accept) == (p.Drop(|p.buf|), true))
  {
    LineNotEmpty(boundary);
    FindFits(p.buf, DelimiterLine(boundary));
    StepInitialBoundary(p, boundary, accept);
    hide Find, Step;
    var k, d := Find(p.buf, DelimiterLine(boundary)), DelimiterLine(boundary);
    assert d == DASH + boundary + CRLF;
    if k < |p.buf| {
      assert p.buf[k..][..|d|] == p.buf[k..k + |d|];
    } else {
      assert p.buf[|p.buf|..] == "";
    }
  }

  // ----- Where delimiters stand in a serialized body -----

  function Header(item: Item): string {
    LinesText(HeaderLines(item.file))
  }

  /** The place of the first item's content, when the text of the entries is at the given place. */
  function ContentStart(items: seq<Item>, at: nat): nat
    requires items != []
  {
    at + |Header(items[0])| + 2
  }

  function ContentEnd(items: seq<Item>, at: nat): nat
    requires items != []
  {
    ContentStart(items, at) + |items[0].content|
  }

  /** A serialized body from a certain place on. */
  ghost predicate EntriesAt(t: Trail, items: seq<Item>, at: nat) {
    && items != [] && '\r' !in t.boundary && (forall i :: 0 <= i < |items| ==> FileOk(items[i].file))
    && at <= |t.text| && t.text[at..] == Entries(items, t.boundary, CLOSE)
  }

  lemma NeedleChars(t: Trail)
    requires '\r' !in t.boundary
    ensures var d := t.Needle();
      d[0] == '\r' && d[1] == '\n' && d[2] == '-' && d[3] == '-' && forall i :: 1 <= i < |d| ==> d[i] != '\r'
  {}

  /** The first content and the delimiter behind it. */
  lemma FirstContent(t: Trail, items: seq<Item>, at: nat)
    requires EntriesAt(t, items, at)
    ensures var start, end := ContentStart(items, at), ContentEnd(items, at);
      && end + |t.Needle()| <= |t.text| && OccursAt(t.text, t.Needle(), end) && t.text[start..end] == items[0].content
      && t.text[start - 2..start] == CRLF
      && t.text[end + |t.Needle()|..] == After(items[1..], t.boundary, CLOSE)
  {
    hide FileOk, After, Header, Delimiter;
    var header, content, d := Header(items[0]), items[0].content, t.Needle();
    var after := After(items[1..], t.boundary, CLOSE);
    EntriesIs(items, t.boundary);
    assert Entries(items, t.boundary, CLOSE) == header + (CRLF + (content + (d + after)));
    hide Entries, Trail.Needle;
    Pieces4(t.text, at, header, content, d, after);
  }

  lemma EntriesIs(items: seq<Item>, boundary: string)
    requires items != []
    ensures Entries(items, boundary, CLOSE)
         == Header(items[0]) + (CRLF + (items[0].content + (Delimiter(boundary) + After(items[1..], boundary, CLOSE))))
  {
    hide LinesText, HeaderLines, After, Delimiter;
    assert LinesAndContent(HeaderLines(items[0].file), items, boundary, CLOSE)
        == Header(items[0]) + (CRLF + ContentText(items[0].content, items[1..], boundary, CLOSE));
  }

  lemma Pieces4(text: string, at: nat, header: string, content: string, d: string, after: string)
    requires at <= |text| && text[at..] == header + (CRLF + (content + (d + after)))
    ensures var start := at + |header| + 2;
      var end := start + |content|;
      && end + |d| <= |text| && text[start..end] == content && OccursAt(text, d, end) && text[end + |d|..] == after
      && text[start - 2..start] == CRLF
  {
    var start := at + |header| + 2;
    var end := start + |content|;
    Drop(text, at, header, CRLF + (content + (d + after)));
    Drop(text, at + |header|, CRLF, content + (d + after));
    Drop(text, start, content, d + after);
    Drop(text, end, d, after);
  }

  lemma Drop(text: string, at: nat, a: string, b: string)
    requires at <= |text| && text[at..] == a + b
    ensures at + |a| <= |text| && text[at + |a|..] == b && text[at..at + |a|] == a
  {
    assert (a + b)[|a|..] == b && (a + b)[..|a|] == a;
    SliceFrom(text, at, |a|);
  }

  /** No delimiter starts in a line end that a header line follows, nor in a header line. */
  lemma {:induction false} NoneInLines(lines: seq<string>, after: string, d: string)
    requires |d| > 2 && d[0] == '\r' && d[2] == '-'
    requires forall i :: 0 <= i < |lines| ==> lines[i] != "" && '\r' !in lines[i] && lines[i][0] != '-'
    ensures forall e :: 0 <= e < 2 + |LinesText(lines)| ==> !OccursAt(CRLF + (LinesText(lines) + (CRLF + after)), d, e)
    decreases |lines|
  {
    var text := CRLF + (LinesText(lines) + (CRLF + after));
    forall e | 0 <= e < 2 + |LinesText(lines)| ensures !OccursAt(text, d, e) {
      OccursChar(text, d, e, 0);
      OccursChar(text, d, e, 2);
      if lines != [] && e >= 2 {
        var line, rest := lines[0], LinesText(lines[1..]);
        var more := CRLF + (rest + (CRLF + after));
        assert text == (CRLF + line) + more;
        if e < 2 + |line| {
          assert text[e] == line[e - 2];
        } else {
          NoneInLines(lines[1..], after, d);
          Later(CRLF + line, more, d, e);
        }
      } else if lines != [] {
        assert text[2] == lines[0][0];
      }
    }
  }

  lemma Later(a: string, b: string, d: string, e: nat)
    requires e >= |a|
    ensures OccursAt(a + b, d, e) <==> OccursAt(b, d, e - |a|)
  {
    if e + |d| <= |a| + |b| { assert (a + b)[e..e + |d|] == b[e - |a|..e - |a| + |d|]; }
  }

  lemma LineChars(file: File)
    requires FileOk(file)
    ensures var lines := HeaderLines(file);
      forall i :: 0 <= i < |lines| ==> lines[i] != "" && '\r' !in lines[i] && lines[i][0] != '-'
  {
    LinesAreOk(file);
    hide FileOk;
  }

  /** The place of the second item's entry. */
  function NextAt(t: Trail, items: seq<Item>, at: nat): nat
    requires items != []
  {
    ContentEnd(items, at) + |t.Needle()| + 2
  }

  lemma NextEntries(t: Trail, items: seq<Item>, at: nat)
    requires EntriesAt(t, items, at) && |items| > 1
    ensures EntriesAt(t, items[1..], NextAt(t, items, at))
    ensures var from := ContentEnd(items, at) + |t.Needle()|;
      t.text[from..] == CRLF + Entries(items[1..], t.boundary, CLOSE)
  {
    FirstContent(t, items, at);
    hide FileOk, Entries, Header, Trail.Needle, OccursAt;
    var from := ContentEnd(items, at) + |t.Needle()|;
    Drop(t.text, from, CRLF, Entries(items[1..], t.boundary, CLOSE));
  }

  lemma InsideNeedle(t: Trail, end: nat, e: nat)
    requires '\r' !in t.boundary && OccursAt(t.text, t.Needle(), end) && end < e < end + |t.Needle()|
    ensures !OccursAt(t.text, t.Needle(), e)
  {
    NeedleChars(t);
    hide Trail.Needle, OccursAt;
    OccursChar(t.text, t.Needle(), end, e - end);
    OccursChar(t.text, t.Needle(), e, 0);
  }

  lemma NoneInHeader(text: string, from: nat, items: seq<Item>, boundary: string, d: string, e: nat)
    requires items != [] && FileOk(items[0].file) && |d| > 2 && d[0] == '\r' && d[2] == '-'
    requires from <= |text| && text[from..] == CRLF + Entries(items, boundary, CLOSE)
    requires from <= e < from + 2 + |Header(items[0])|
    ensures !OccursAt(text, d, e)
  {
    LineChars(items[0].file);
    EntriesIs(items, boundary);
    hide FileOk, Entries, HeaderLines, LinesText, OccursAt, Delimiter, After;
    var after := items[0].content + (Delimiter(boundary) + After(items[1..], boundary, CLOSE));
    NoneInLines(HeaderLines(items[0].file), after, d);
    Behind(text, from, d, e);
  }

  /** Between the end of a content and the empty line before the next one, no other delimiter starts. */
  lemma NoneBetween(t: Trail, items: seq<Item>, at: nat, e: nat)
    requires EntriesAt(t, items, at) && |items| > 1
    requires ContentEnd(items, at) < e < ContentStart(items[1..], NextAt(t, items, at)) - 2
    ensures !OccursAt(t.text, t.Needle(), e)
  {
    var next, from := items[1..], ContentEnd(items, at) + |t.Needle()|;
    assert ContentStart(next, NextAt(t, items, at)) == from + 2 + |Header(next[0])| + 2 && FileOk(next[0].file);
    assert '\r' !in t.boundary;
    hide *;
    FirstContent(t, items, at);
    NextEntries(t, items, at);
    NeedleChars(t);
    if e < from {
      InsideNeedle(t, ContentEnd(items, at), e);
    } else {
      NoneInHeader(t.text, from, next, t.boundary, t.Needle(), e);
    }
  }

  lemma Behind(text: string, from: nat, d: string, e: nat)
    requires from <= |text| && e >= from
    ensures OccursAt(text, d, e) <==> OccursAt(text[from..], d, e - from)
  {
    if e + |d| <= |text| { assert text[from..][e - from..e - from + |d|] == text[e..e + |d|]; }
  }

  /** Behind the last content stands the last delimiter, two dashes and a line end. */
  lemma LastContent(t: Trail, items: seq<Item>, at: nat)
    requires EntriesAt(t, items, at) && |items| == 1
    ensures var end, n := ContentEnd(items, at), |t.Needle()|;
      && |t.text| == end + n + 4 && t.text[end + n] == '-' && t.text[end + n + 1] == '-' && t.text[end + n + 2] == '\r'
      && forall e :: e > end ==> !OccursAt(t.text, t.Needle(), e)
  {
    FirstContent(t, items, at);
    NeedleChars(t);
    hide FileOk, Entries, Header, Trail.Needle;
    var end, d := ContentEnd(items, at), t.Needle();
    assert items[1..] == [] && t.text[end + |d|..] == CLOSE;
    assert t.text[end + |d|..][0] == t.text[end + |d|] && t.text[end + |d|..][1] == t.text[end + |d| + 1];
    assert t.text[end + |d|..][2] == t.text[end + |d| + 2];
    forall e | e > end ensures !OccursAt(t.text, d, e) {
      if e < end + |d| {
        InsideNeedle(t, end, e);
      } else {
        OccursChar(t.text, d, e, 0);
      }
    }
  }

  // ----- No content is collected behind its place -----

  ghost predicate Linked(t: Trail, spans: seq<Span>) {
    forall i :: 0 <= i < |spans| - 1 ==> t.Closed(spans[i]) && t.NextEntry(spans[i]) + 2 <= spans[i + 1].start
  }

  ghost predicate Sized(items: seq<Item>, spans: seq<Span>) {
    |items| == |spans| &&
    forall i :: 0 <= i < |spans| ==> spans[i].start <= spans[i].end == spans[i].start + |items[i].content|
  }

  /** A last content that has not met its delimiter when the input ends. */
  ghost predicate Unclosed(t: Trail, item: Item, span: Span) {
    var n := |t.Needle()|;
    && 2 <= span.start <= span.end <= |t.text| <= span.end + n
    && t.text[span.start - 2..span.start] == CRLF && item.content == t.text[span.start..span.end]
    && (span.end == span.start || |t.text| - span.end >= n)
    && forall i :: span.start <= i < span.end ==> !OccursAt(t.text, t.Needle(), i)
  }

  /** In front of an empty content no delimiter starts at the empty line. */
  lemma NoneAtEmptyLine(t: Trail, items: seq<Item>, at: nat, e: nat)
    requires EntriesAt(t, items, at) && t.boundary != "" && items[0].content == ""
    requires ContentStart(items, at) - 2 <= e < ContentEnd(items, at)
    ensures !OccursAt(t.text, t.Needle(), e)
  {
    FirstContent(t, items, at);
    NeedleChars(t);
    EndIs(items, at);
    hide *;
    var start, end, d := ContentStart(items, at), ContentEnd(items, at), t.Needle();
    OccursChar(t.text, d, e, 0);
    OccursChar(t.text, d, e, 2);
    assert t.text[start - 1] == t.text[start - 2..start][1] == '\n';
  }

  lemma LinkedFirst(t: Trail, spans: seq<Span>)
    requires Linked(t, spans) && |spans| > 1
    ensures var e, n := spans[0].end, |t.Needle()|;
      && OccursAt(t.text, t.Needle(), e) && n >= 4 && e + n + 4 <= spans[1].start
      && (e + n < |t.text| && t.text[e + n] == '-' ==> e + n + 6 <= spans[1].start)
  {
    hide OccursAt, Trail.Needle;
    assert t.Closed(spans[0]);
  }

  lemma EndIs(items: seq<Item>, at: nat)
    requires items != []
    ensures ContentEnd(items, at) == ContentStart(items, at) + |items[0].content|
  {}

  lemma AfterFirst(t: Trail, items: seq<Item>, at: nat)
    requires EntriesAt(t, items, at) && |items| > 1
    ensures EntriesAt(t, items[1..], NextAt(t, items, at))
  {
    NextEntries(t, items, at);
  }

  lemma UpToLast(t: Trail, items: seq<Item>, at: nat, e: nat)
    requires EntriesAt(t, items, at) && |items| == 1 && OccursAt(t.text, t.Needle(), e)
    ensures var end, n := ContentEnd(items, at), |t.Needle()|;
      e <= end && |t.text| == end + n + 4 && t.text[end + n] == '-'
  {
    LastContent(t, items, at);
  }

  lemma BeforeUnclosed(t: Trail, items: seq<Item>, at: nat, spans: seq<Span>)
    requires EntriesAt(t, items, at) && |items| == |spans| == 2 && t.boundary != ""
    requires Linked(t, spans) && Unclosed(t, items[1], spans[1])
    ensures spans[0].end <= ContentEnd(items, at)
  {
    assert spans[1].start <= |t.text|;
    hide *;
    var next, at1, e := items[1..], NextAt(t, items, at), spans[0].end;
    AfterFirst(t, items, at);
    LinkedFirst(t, spans);
    UpToLast(t, next, at1, e);
    if ContentEnd(items, at) < e < ContentStart(next, at1) - 2 { NoneBetween(t, items, at, e); }
    if ContentStart(next, at1) - 2 <= e < ContentEnd(next, at1) { NoneAtEmptyLine(t, next, at1, e); }
  }

  lemma SizedFirst(items: seq<Item>, spans: seq<Span>)
    requires Sized(items, spans) && spans != []
    ensures spans[0].end == spans[0].start + |items[0].content|
    ensures |spans| > 1 ==> Sized(items[1..], spans[1..])
  {}

  lemma LinkedRest(t: Trail, spans: seq<Span>)
    requires Linked(t, spans) && spans != []
    ensures Linked(t, spans[1..])
  {
    hide Trail.Closed, Trail.NextEntry;
    assert forall i :: 0 <= i < |spans| - 1 ==> spans[1..][i] == spans[i + 1];
  }

  /** The items collected from a late entry begin no later than the contents they would have to be. */
  lemma {:induction false} StartsBefore(t: Trail, items: seq<Item>, at: nat, spans: seq<Span>)
    requires EntriesAt(t, items, at) && t.boundary != "" && items != [] && |items| == |spans|
    requires Sized(items, spans) && Linked(t, spans)
    requires t.Closed(spans[|spans| - 1]) || (|spans| > 1 && Unclosed(t, items[|spans| - 1], spans[|spans| - 1]))
    ensures spans[0].start <= ContentStart(items, at)
    decreases |items|
  {
    hide FileOk, Entries, Header, Trail.Needle, OccursAt, EntriesAt, Unclosed, Linked, Sized, ContentStart, ContentEnd;
    hide NextAt, Trail.NextEntry;
    var e := spans[0].end;
    EndIs(items, at);
    SizedFirst(items, spans);
    if |items| == 1 {
      UpToLast(t, items, at, e);
    } else {
      LinkedFirst(t, spans);
      if |items| == 2 && !t.Closed(spans[1]) {
        BeforeUnclosed(t, items, at, spans);
      } else {
        AfterFirst(t, items, at);
        LinkedRest(t, spans);
        StartsBefore(t, items[1..], NextAt(t, items, at), spans[1..]);
        if ContentEnd(items, at) < e { NoneBetween(t, items, at, e); }
      }
    }
  }

  // ----- The file of the first item -----

  /** The header lines that are left give the first file. */
  lemma {:induction false} FirstFileLines(file: File, lines: seq<string>, more: string)
    requires forall i :: 0 <= i < |lines| ==> LineOk(lines[i])
    ensures FirstFile(file, LinesText(lines) + (CRLF + more)) == AfterLines(file, lines)
    decreases |lines|
  {
    hide AfterLine, Find, OccursAt;
    var text := LinesText(lines) + (CRLF + more);
    if lines == [] {
      assert text == "" + (CRLF + more);
      LineEnd("", more);
      FindIs(text, CRLF, 0);
    } else {
      var line, rest := lines[0], LinesText(lines[1..]) + (CRLF + more);
      assert text == line + (CRLF + rest);
      LineEnd(line, rest);
      FindIs(text, CRLF, |line|);
      assert text[..|line|] == line && text[|line| + 2..] == rest;
      FirstFileLines(AfterLine(file, line).0, lines[1..], more);
    }
  }

  /** A carriage return in the header lines ends one of them. */
  lemma {:induction false} LineEndsAt(lines: seq<string>, o: nat) returns (j: nat)
    requires forall i :: 0 <= i < |lines| ==> '\r' !in lines[i]
    requires o < |LinesText(lines)| && LinesText(lines)[o] == '\r'
    ensures 1 <= j <= |lines| && o + 2 <= |LinesText(lines)| && LinesText(lines)[o + 2..] == LinesText(lines[j..])
    ensures j == 1 ==> o == |lines[0]|
    decreases |lines|
  {
    var line, rest := lines[0], LinesText(lines[1..]);
    var text := LinesText(lines);
    assert text == (line + CRLF) + rest;
    hide LinesText;
    if o < |line| + 2 {
      j := 1;
      assert text[o] == (line + CRLF)[o];
      assert text[|line| + 2..] == rest;
    } else {
      assert text[o] == rest[o - |line| - 2];
      var k := LineEndsAt(lines[1..], o - |line| - 2);
      j := k + 1;
      assert lines[1..][k..] == lines[j..];
      assert text[o + 2..] == rest[o - |line|..];
    }
  }

  lemma NoDoubleDash(file: File)
    requires file.name == "" && file.filename == ""
    ensures var line := HeaderLines(file)[0]; forall i :: 0 <= i < |line| - 1 ==> line[i] != '-' || line[i + 1] != '-'
  {
    var line := HeaderLines(file)[0];
    assert line == "Content-Disposition: form-data; name=\"\"";
    assert forall i :: 0 <= i < |line| ==> line[i] == '-' ==> i == 7 || i == 25;
  }

  /** With its first lines missing, a header gives another file, unless only empty names are missing. */
  lemma RestOfHeader(file: File, j: nat)
    requires FileOk(file) && 1 <= j <= |HeaderLines(file)|
    requires AfterLines(EMPTY_FILE, HeaderLines(file)[j..]) == Some(file)
    ensures j == 1 && file.name == "" && file.filename == ""
  {
    hide AfterLine, DispositionLine, ContentTypeLine;
    var lines := HeaderLines(file);
    if j == |lines| {
      assert lines[j..] == [];
    } else {
      assert lines[1..] == [ContentTypeLine(file)] && lines[1..][1..] == [];
      ContentTypeReads(EMPTY_FILE, file.contentType);
      SameTypeLine(file);
    }
  }

  /** A delimiter line that is not the first one and ends inside the first header stands behind the first line. */
  lemma LateLine(text: string, boundary: string, s: nat)
    requires '\r' !in boundary && OccursAt(text, DelimiterLine(boundary), 0)
    requires s > 0 && OccursAt(text, DelimiterLine(boundary), s)
    ensures var n := |DelimiterLine(boundary)|;
      && s >= n && text[s] == '-' && text[s + 1] == '-' && text[s + n - 2] == '\r'
      && forall i :: s <= i < s + n - 2 ==> text[i] != '\r'
  {
    var d := DelimiterLine(boundary);
    var n := |d|;
    assert d[0] == '-' && d[1] == '-' && d[n - 2] == '\r' && d[n - 1] == '\n';
    assert forall i :: 0 <= i < n - 2 ==> d[i] != '\r';
    hide OccursAt, DelimiterLine;
    OccursChar(text, d, 0, n - 2);
    OccursChar(text, d, 0, n - 1);
    OccursChar(text, d, s, 0);
    OccursChar(text, d, s, 1);
    OccursChar(text, d, s, n - 2);
    if s <= n - 2 { OccursChar(text, d, s, n - 2 - s); }
    forall i | s <= i < s + n - 2 ensures text[i] != '\r' { OccursChar(text, d, s, i - s); }
  }

  /** What stands behind the first header and its empty line. */
  function BehindHeader(items: seq<Item>, boundary: string): string
    requires items != []
  {
    items[0].content + (Delimiter(boundary) + After(items[1..], boundary, CLOSE))
  }

  lemma LateHeader(t: Trail, items: seq<Item>, s: nat)
    requires EntriesAt(t, items, |DelimiterLine(t.boundary)|) && OccursAt(t.text, DelimiterLine(t.boundary), 0)
    requires s > 0 && OccursAt(t.text, DelimiterLine(t.boundary), s) && t.base == s + |DelimiterLine(t.boundary)|
    requires t.base + 2 <= ContentStart(items, |DelimiterLine(t.boundary)|)
    ensures var n, header := |DelimiterLine(t.boundary)|, LinesText(HeaderLines(items[0].file));
      && 4 <= n <= s <= |header| && n <= |t.text| && t.text[n..] == header + (CRLF + BehindHeader(items, t.boundary))
      && header[s - 2] == '\r' && header[s - n] == '-' && header[s - n + 1] == '-'
  {
    var n, header := |DelimiterLine(t.boundary)|, LinesText(HeaderLines(items[0].file));
    hide LinesText, HeaderLines, Delimiter, After, FileOk, DelimiterLine, OccursAt;
    EntriesIs(items, t.boundary);
    assert t.text[n..] == header + (CRLF + BehindHeader(items, t.boundary)) && n + |header| + 2 >= t.base + 2;
    assert '\r' !in t.boundary;
    hide *;
    LateLine(t.text, t.boundary, s);
    LineNotEmpty(t.boundary);
    Drop(t.text, n, header, CRLF + BehindHeader(items, t.boundary));
    InHeader(t.text, n, header, s);
  }

  /** Such an entry begins with the last header lines. */
  lemma LateRest(t: Trail, items: seq<Item>, s: nat) returns (j: nat, more: string)
    requires EntriesAt(t, items, |DelimiterLine(t.boundary)|) && OccursAt(t.text, DelimiterLine(t.boundary), 0)
    requires s > 0 && OccursAt(t.text, DelimiterLine(t.boundary), s) && t.base == s + |DelimiterLine(t.boundary)|
    requires t.base + 2 <= ContentStart(items, |DelimiterLine(t.boundary)|)
    ensures var lines := HeaderLines(items[0].file);
      && 1 <= j <= |lines| && t.base <= |t.text| && t.text[t.base..] == LinesText(lines[j..]) + (CRLF + more)
      && (j == 1 ==> exists i :: 0 <= i < |lines[0]| - 1 && lines[0][i] == '-' && lines[0][i + 1] == '-')
  {
    var n, lines := |DelimiterLine(t.boundary)|, HeaderLines(items[0].file);
    more := BehindHeader(items, t.boundary);
    LateHeader(t, items, s);
    LineCr(items[0].file);
    hide *;
    j := LineEndsAt(lines, s - 2);
    TailOf(t.text, n, LinesText(lines), CRLF + more, s);
    if j == 1 { FirstLineChars(lines, s - n); }
  }

  /** An entry that begins inside the first header gives another first file. */
  lemma LateFile(t: Trail, items: seq<Item>, s: nat)
    requires EntriesAt(t, items, |DelimiterLine(t.boundary)|) && OccursAt(t.text, DelimiterLine(t.boundary), 0)
    requires s > 0 && OccursAt(t.text, DelimiterLine(t.boundary), s) && t.base == s + |DelimiterLine(t.boundary)|
    requires t.base + 2 <= ContentStart(items, |DelimiterLine(t.boundary)|)
    ensures t.base <= |t.text| && FirstFile(EMPTY_FILE, t.text[t.base..]) != Some(items[0].file)
  {
    var file := items[0].file;
    var j, more := LateRest(t, items, s);
    HeadersReadBack(file);
    hide OccursAt, DelimiterLine, Entries, HeaderLines, LinesText, FileOk, AfterLines, FirstFile, LineOk;
    FirstFileLines(EMPTY_FILE, HeaderLines(file)[j..], more);
    if AfterLines(EMPTY_FILE, HeaderLines(file)[j..]) == Some(file) {
      RestOfHeader(file, j);
      NoDoubleDash(file);
    }
  }

  lemma LineCr(file: File)
    requires FileOk(file)
    ensures forall i :: 0 <= i < |HeaderLines(file)| ==> '\r' !in HeaderLines(file)[i]
  {
    LineChars(file);
  }

  lemma InHeader(text: string, n: nat, header: string, s: nat)
    requires n >= 4 && s >= n && s <= |header| && n + |header| <= |text| && text[n..n + |header|] == header
    requires text[s + n - 2] == '\r' && text[s] == '-' && text[s + 1] == '-'
    ensures header[s - 2] == '\r' && header[s - n] == '-' && header[s - n + 1] == '-'
  {
    var slice := text[n..n + |header|];
    assert slice[s - 2] == text[s + n - 2] && slice[s - n] == text[s] && slice[s - n + 1] == text[s + 1];
  }

  lemma TailOf(text: string, n: nat, header: string, more: string, s: nat)
    requires n <= |text| && text[n..] == header + more && s <= |header|
    ensures text[n + s..] == header[s..] + more
  {
    assert (header + more)[s..] == header[s..] + more;
    SliceFrom(text, n, s);
  }

  lemma FirstLineChars(lines: seq<string>, i: nat)
    requires lines != [] && i + 1 < |lines[0]|
    ensures LinesText(lines)[i] == lines[0][i] && LinesText(lines)[i + 1] == lines[0][i + 1]
  {}

  // ----- When the items come back -----

  /** The first piece that is not empty. */
  function Opening(pieces: seq<string>): string {
    if pieces == [] then "" else if pieces[0] != "" then pieces[0] else Opening(pieces[1..])
  }

  ghost predicate Succeeds(items: seq<Item>, boundary: string, pieces: seq<string>, accept: Callbacks) {
    var (q, ok) := FeedAll(Start(), pieces, boundary, accept);
    ok && q.valid && Collected(q.events) == items
  }

  /** The spans of the trail lie as the contents of the items do, one behind the other. */
  ghost predicate Placed(t: Trail, items: seq<Item>) {
    && t.spans != [] && Sized(items, t.spans) && Linked(t, t.spans) && t.base + 2 <= t.spans[0].start
    && (t.Closed(t.Last()) || (|t.spans| > 1 && Unclosed(t, items[|items| - 1], t.Last())))
  }

  lemma TrackEnds(t: Trail, q: Parser, items: seq<Item>)
    requires Track(t, q, "") && q.valid && Collected(q.events) == items && (q.phase == Body ==> |q.buf| <= |t.Needle()|)
    ensures Placed(t, items)
    ensures items != [] && t.base <= |t.text| && FirstFile(EMPTY_FILE, t.text[t.base..]) == Some(items[0].file)
  {
    assert q.buf + "" == q.buf;
    assert PhaseFits(t, q.phase, q.buf) && t.HoldsAll(items) && t.spans != [];
    hide Collected, FirstFile, OccursAt, Trail.Needle, Trail.NextEntry, Trail.Dashed;
    SpansSized(t, items);
    LastPlaced(t, q, items);
  }

  lemma LastPlaced(t: Trail, q: Parser, items: seq<Item>)
    requires IsRest(t.text, q.buf) && PhaseFits(t, q.phase, q.buf) && t.HoldsAll(items) && t.spans != []
    requires q.phase == Body ==> |q.buf| <= |t.Needle()| && |t.spans| > 1
    ensures t.Closed(t.Last()) || (|t.spans| > 1 && Unclosed(t, items[|items| - 1], t.Last()))
  {
    hide OccursAt, Trail.Needle;
    assert t.Holds(t.Last(), items[|items| - 1]);
  }

  lemma SpansSized(t: Trail, items: seq<Item>)
    requires t.HoldsAll(items)
    ensures Sized(items, t.spans)
  {
    forall i | 0 <= i < |t.spans| ensures t.spans[i].end == t.spans[i].start + |items[i].content| {
      assert t.Holds(t.spans[i], items[i]);
    }
  }

  /** The places of the items do not follow an entry that begins late. */
  lemma LateFails(t: Trail, items: seq<Item>, boundary: string, s: nat)
    requires items != [] && '\r' !in boundary && boundary != ""
    requires forall i :: 0 <= i < |items| ==> FileOk(items[i].file)
    requires BeginsLate(t.(spans := []), Serialized(items, boundary), boundary, s)
    requires t.base <= |t.text| && FirstFile(EMPTY_FILE, t.text[t.base..]) == Some(items[0].file)
    ensures !Placed(t, items)
  {
    SerializedShape(items, boundary);
    var line := DelimiterLine(boundary);
    hide Serialized, Entries, FileOk, FirstFile, DelimiterLine, OccursAt, Unclosed, Trail.Needle;
    Drop(t.text, 0, line, Entries(items, boundary, CLOSE));
    assert OccursAt(t.text, line, 0);
    if Placed(t, items) {
      StartsBefore(t, items, |line|, t.spans);
      LateFile(t, items, s);
    }
  }

  /** When the first piece with any text is shorter than the delimiter line, the items never come back. */
  lemma ShortOpeningFails(items: seq<Item>, boundary: string, pieces: seq<string>, accept: Callbacks)
    requires items != [] && '\r' !in boundary && boundary != ""
    requires forall i :: 0 <= i < |items| ==> FileOk(items[i].file)
    requires AcceptsAll(accept) && Concat(pieces) == Serialized(items, boundary)
    requires pieces != [] && 0 < |pieces[0]| < |DelimiterLine(boundary)|
    ensures !Succeeds(items, boundary, pieces, accept)
  {
    hide Serialized, FileOk, Track, Collected, DelimiterLine, Run, BeginsLate;
    var text, rest := Serialized(items, boundary), pieces[1..];
    ShortFirstPieceIsLost(pieces[0], boundary, accept);
    assert "" + Concat(rest) == Concat(rest) && text[|pieces[0]|..] == Concat(rest);
    NothingRuns(boundary, accept);
    var r := SearchResume(text, Start(), rest, boundary, accept);
    var (q, ok) := Resume(Start(), rest, boundary, accept);
    if ok {
      match r
      case Nothing => NothingCollected();
      case Late(t, s) =>
        if q.valid && Collected(q.events) == items {
          TrackEnds(t, q, items);
          LateFails(t, items, boundary, s);
        }
    }
  }

  lemma NothingRuns(boundary: string, accept: Callbacks)
    ensures Run(Start(), boundary, accept) == (Start(), true)
  {}

  /** Empty pieces in front change nothing. */
  lemma {:induction false} EmptyPieces(pieces: seq<string>, boundary: string, accept: Callbacks)
    returns (rest: seq<string>)
    ensures Concat(rest) == Concat(pieces) && (rest != [] ==> rest[0] == Opening(pieces) != "")
    ensures rest == [] ==> Opening(pieces) == ""
    ensures FeedAll(Start(), rest, boundary, accept) == FeedAll(Start(), pieces, boundary, accept)
    decreases |pieces|
  {
    rest := pieces;
    if pieces != [] && pieces[0] == "" {
      LineNotEmpty(boundary);
      ShortFirstPieceIsLost("", boundary, accept);
      assert "" + Concat(pieces[1..]) == Concat(pieces[1..]);
      rest := EmptyPieces(pieces[1..], boundary, accept);
    }
  }

  /** However a serialized body is cut, its items come back exactly when no content holds the delimiter and the first
      piece that is not empty holds the whole first delimiter line. */
  lemma RoundTripIff(items: seq<Item>, boundary: string, pieces: seq<string>, accept: Callbacks)
    requires items != [] && '\r' !in boundary && boundary != ""
    requires forall i :: 0 <= i < |items| ==> FileOk(items[i].file)
    requires AcceptsAll(accept) && Concat(pieces) == Serialized(items, boundary)
    ensures Succeeds(items, boundary, pieces, accept) <==>
      && |DelimiterLine(boundary)| <= |Opening(pieces)|
      && forall i :: 0 <= i < |items| ==> !Occurs(items[i].content, Delimiter(boundary))
  {
    var rest := EmptyPieces(pieces, boundary, accept);
    assert Serialized(items, boundary) != "";
    hide Serialized, FileOk, FeedAll, Occurs, Delimiter, DelimiterLine, Collected;
    assert rest != [];
    assert Succeeds(items, boundary, rest, accept) == Succeeds(items, boundary, pieces, accept);
    if |DelimiterLine(boundary)| <= |Opening(pieces)| {
      RoundTripIffNoDelimiter(items, boundary, rest, accept);
    } else {
      ShortOpeningFails(items, boundary, rest, accept);
    }
  }
}
