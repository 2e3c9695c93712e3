/** Feeding a serialized body to the parser, in any pieces whose first holds the first delimiter line,
    delivers exactly the items (section 5.1.1 of RFC 2046, section 4 of RFC 7578). */
module MultipartRoundTrip {
  import opened Sequences
  import opened Wrappers
  import opened HttpText
  import opened MultipartSpec
  import opened MultipartHeaders

  // ----- What can be serialized -----

  /** The text that ends a content. */
  function Delimiter(boundary: string): string {
    CRLF + DASH + boundary
  }

  ghost predicate Occurs(s: string, p: string) {
    exists i :: 0 <= i <= |s| && OccursAt(s, p, i)
  }

  ghost predicate ItemOk(item: Item, boundary: string) {
    FileOk(item.file) && !Occurs(item.content, Delimiter(boundary))
  }

  ghost predicate ItemsOk(items: seq<Item>, boundary: string) {
    '\r' !in boundary && forall i :: 0 <= i < |items| ==> ItemOk(items[i], boundary)
  }

  // ----- The serialized body as the parser meets it -----

  function LinesText(lines: seq<string>): string {
    if lines == [] then "" else lines[0] + (CRLF + LinesText(lines[1..]))
  }

  /** What follows the delimiter after an item; `tail` is what follows the last one. */
  function After(items: seq<Item>, boundary: string, tail: string): string
    decreases |items|, 2
  {
    if items == [] then tail else CRLF + Entries(items, boundary, tail)
  }

  function ContentText(rest: string, items: seq<Item>, boundary: string, tail: string): string
    decreases |items|, 3
  {
    rest + (Delimiter(boundary) + After(items, boundary, tail))
  }

  function LinesAndContent(lines: seq<string>, items: seq<Item>, boundary: string, tail: string): string
    requires items != []
    decreases |items|, 0
  {
    LinesText(lines) + (CRLF + ContentText(items[0].content, items[1..], boundary, tail))
  }

  /** What follows a whole delimiter line. */
  function Entries(items: seq<Item>, boundary: string, tail: string): string
    requires items != []
    decreases |items|, 1
  {
    LinesAndContent(HeaderLines(items[0].file), items, boundary, tail)
  }

  const CLOSE := "--\r\n"

  lemma LinesTextOf(file: File)
    ensures LinesText(HeaderLines(file)) ==
      DispositionLine(file) + CRLF + if file.contentType == "" then "" else ContentTypeLine(file) + CRLF
  {
    hide DispositionLine, ContentTypeLine;
    var lines := HeaderLines(file);
    if file.contentType == "" {
      assert lines[1..] == [] && CRLF + "" == CRLF;
    } else {
      assert lines[1..] == [ContentTypeLine(file)] && lines[1..][1..] == [];
      assert LinesText(lines[1..]) == ContentTypeLine(file) + (CRLF + "");
    }
  }

  lemma DelimiterThenLine(boundary: string, rest: string)
    ensures CRLF + (DelimiterLine(boundary) + rest) == Delimiter(boundary) + (CRLF + rest)
    ensures CRLF + Finish(boundary) == Delimiter(boundary) + CLOSE
  {}

  /** The body is the first delimiter line and then the entries. */
  lemma {:induction false} SerializedShape(items: seq<Item>, boundary: string)
    requires items != []
    ensures Serialized(items, boundary) == DelimiterLine(boundary) + Entries(items, boundary, CLOSE)
    decreases |items|
  {
    hide Finish, DelimiterLine, Delimiter, DispositionLine, ContentTypeLine, LinesText, HeaderLines;
    var file, content, rest := items[0].file, items[0].content, items[1..];
    var lines := LinesText(HeaderLines(file));
    var tail := ItemsText(rest, boundary) + Finish(boundary);
    if rest == [] {
      DelimiterThenLine(boundary, "");
      assert tail == Finish(boundary);
    } else {
      SerializedShape(rest, boundary);
      DelimiterThenLine(boundary, Entries(rest, boundary, CLOSE));
      assert tail == DelimiterLine(boundary) + Entries(rest, boundary, CLOSE);
    }
    assert CRLF + tail == Delimiter(boundary) + After(rest, boundary, CLOSE);
    var line := DelimiterLine(boundary);
    SerializedUnfold(items, boundary);
    assert Serialized(items, boundary) == (line + lines + CRLF) + (content + CRLF) + tail;
    Reassociate(line, lines, content, tail);
    assert ContentText(content, rest, boundary, CLOSE) == content + (CRLF + tail);
    assert LinesAndContent(HeaderLines(file), items, boundary, CLOSE) == lines + (CRLF + (content + (CRLF + tail)));
  }

  lemma SerializedUnfold(items: seq<Item>, boundary: string)
    requires items != []
    ensures var line, file := DelimiterLine(boundary), items[0].file;
      Serialized(items, boundary) ==
        (line + LinesText(HeaderLines(file)) + CRLF) + (items[0].content + CRLF) +
        (ItemsText(items[1..], boundary) + Finish(boundary))
  {
    hide Finish, DelimiterLine, DispositionLine, ContentTypeLine, LinesText, HeaderLines;
    var file := items[0].file;
    LinesTextOf(file);
    assert ItemBegin(file, boundary) == DelimiterLine(boundary) + LinesText(HeaderLines(file)) + CRLF;
  }

  lemma Reassociate(line: string, lines: string, content: string, tail: string)
    ensures (line + lines + CRLF) + (content + CRLF) + tail == line + (lines + (CRLF + (content + (CRLF + tail))))
  {}

  // ----- Where the parser stands in the body -----

  datatype Place =
    | AtEntry(todo: seq<Item>)
    | AtLine(lines: seq<string>, todo: seq<Item>)
    | AtContent(rest: string, todo: seq<Item>)
    | AtDelimiter(todo: seq<Item>)

  /** Everything the parser has not consumed, fed or not. */
  function Unread(place: Place, boundary: string, tail: string): string
    requires !place.AtDelimiter? ==> place.todo != []
  {
    match place
    case AtEntry(todo) => Entries(todo, boundary, tail)
    case AtLine(lines, todo) => LinesAndContent(lines, todo, boundary, tail)
    case AtContent(rest, todo) => ContentText(rest, todo[1..], boundary, tail)
    case AtDelimiter(todo) => After(todo, boundary, tail)
  }

  /** No delimiter starts inside the content, not even one that runs on into the real delimiter. */
  ghost predicate Clean(rest: string, boundary: string) {
    forall i :: 0 <= i < |rest| ==> !OccursAt(rest + Delimiter(boundary), Delimiter(boundary), i)
  }

  /** The body whose items the parser is reading, and the callbacks, which take everything. */
  datatype Message = Message(items: seq<Item>, boundary: string, tail: string, accept: Callbacks) {
    ghost predicate Ok() {
      ItemsOk(items, boundary) && forall events :: accept(events)
    }
  }

  ghost predicate At(place: Place, p: Parser, future: string, b: Message) {
    && !p.valid
    && (!place.AtDelimiter? ==> place.todo != [])
    && p.buf + future == Unread(place, b.boundary, b.tail)
    && (place.AtEntry? ==> p.phase == NewEntry && Collected(p.events) + place.todo == b.items)
    && (place.AtLine? ==>
          && p.phase == Headers && Collected(p.events) + place.todo == b.items
          && (forall i :: 0 <= i < |place.lines| ==> LineOk(place.lines[i]))
          && AfterLines(p.file, place.lines) == Some(place.todo[0].file))
    && (place.AtContent? ==> p.phase == Body && Clean(place.rest, b.boundary) && DeliveredIs(p.events, place, b.items))
    && (place.AtDelimiter? ==> p.phase == Boundary && Collected(p.events) + place.todo == b.items)
  }

  /** The current item has its content up to the unread rest. */
  ghost predicate DeliveredIs(events: seq<Event>, place: Place, items: seq<Item>)
    requires place.AtContent? && place.todo != []
  {
    var got, item := Collected(events), place.todo[0];
    && got != [] && got[..|got| - 1] + place.todo == items
    && got[|got| - 1].file == item.file && got[|got| - 1].content + place.rest == item.content
  }

  // ----- Finding in a buffer that holds a prefix -----

  lemma FindInPrefix(buf: string, future: string, needle: string, k: nat)
    requires needle != ""
    requires OccursAt(buf + future, needle, k)
    requires forall i :: 0 <= i < k ==> !OccursAt(buf + future, needle, i)
    ensures Find(buf, needle) == if k + |needle| <= |buf| then k else |buf|
  {
    var all := buf + future;
    forall i: nat | i + |needle| <= |buf|
      ensures OccursAt(buf, needle, i) <==> OccursAt(all, needle, i)
    {
      assert all[i..i + |needle|] == buf[i..i + |needle|];
    }
    FindIs(buf, needle, if k + |needle| <= |buf| then k else |buf|);
  }

  lemma OccursChar(s: string, p: string, i: nat, j: nat)
    requires j < |p|
    ensures OccursAt(s, p, i) ==> s[i + j] == p[j]
  {
    if i + |p| <= |s| { assert s[i..i + |p|][j] == s[i + j]; }
  }

  lemma LineEnd(line: string, rest: string)
    requires '\r' !in line
    ensures OccursAt(line + (CRLF + rest), CRLF, |line|)
    ensures forall i :: 0 <= i < |line| ==> !OccursAt(line + (CRLF + rest), CRLF, i)
  {
    var s := line + (CRLF + rest);
    forall i | 0 <= i < |line|
      ensures !OccursAt(s, CRLF, i)
    {
      assert s[i] == line[i];
      OccursChar(s, CRLF, i, 0);
    }
    assert s[|line|..|line| + 2] == CRLF;
  }

  lemma ContentEnd(rest: string, after: string, boundary: string)
    requires Clean(rest, boundary)
    ensures var d := Delimiter(boundary); var s := rest + (d + after);
      OccursAt(s, d, |rest|) && forall i :: 0 <= i < |rest| ==> !OccursAt(s, d, i)
  {
    var d := Delimiter(boundary);
    var s := rest + (d + after);
    assert s[|rest|..|rest| + |d|] == d;
    forall i | 0 <= i < |rest|
      ensures !OccursAt(s, d, i)
    {
      assert !OccursAt(rest + d, d, i);
      assert (rest + d)[i..i + |d|] == s[i..i + |d|];
    }
  }

  /** The delimiter holds its only carriage return in front, so it cannot overlap itself. */
  lemma CleanContent(content: string, boundary: string)
    requires '\r' !in boundary && !Occurs(content, Delimiter(boundary))
    ensures Clean(content, boundary)
  {
    var d := Delimiter(boundary);
    var s := content + d;
    forall i | 0 <= i < |content|
      ensures !OccursAt(s, d, i)
    {
      if i + |d| <= |content| {
        assert s[i..i + |d|] == content[i..i + |d|];
        assert !OccursAt(content, d, i);
      } else {
        var j := |content| - i;
        assert s[i + j] == d[0] == '\r';
        assert d[1] == '\n' && d[2] == '-' && d[3] == '-' && (j >= 4 ==> d[j] == boundary[j - 4]);
        OccursChar(s, d, i, j);
      }
    }
  }

  lemma CleanSuffix(rest: string, n: nat, boundary: string)
    requires Clean(rest, boundary) && n <= |rest|
    ensures Clean(rest[n..], boundary)
  {
    var d := Delimiter(boundary);
    forall i | 0 <= i < |rest[n..]|
      ensures !OccursAt(rest[n..] + d, d, i)
    {
      assert !OccursAt(rest + d, d, i + n);
      assert (rest[n..] + d) == (rest + d)[n..];
      assert (rest + d)[n..][i..i + |d|] == (rest + d)[i + n..i + n + |d|];
    }
  }

  // ----- One round of the parser at each place -----

  lemma TodoOk(done: seq<Item>, todo: seq<Item>, b: Message)
    requires b.Ok() && done + todo == b.items && todo != []
    ensures ItemOk(todo[0], b.boundary)
  {
    assert b.items[|done|] == todo[0];
  }

  lemma CollectedAfter(events: seq<Event>, e: Event)
    ensures Collected(events + [e]) == Record(Collected(events), e)
  {
    var all := events + [e];
    assert all[..|all| - 1] == events && all[|all| - 1] == e;
  }

  lemma EntryStep(p: Parser, future: string, todo: seq<Item>, b: Message)
    requires b.Ok() && p.buf != "" && At(AtEntry(todo), p, future, b)
    ensures Step(p, b.boundary, b.accept).Continue?
    ensures At(AtLine(HeaderLines(todo[0].file), todo), Step(p, b.boundary, b.accept).p, future, b)
  {
    hide AfterLines, HeaderLines, FileOk, LineOk, LinesText, ContentText, Delimiter;
    TodoOk(Collected(p.events), todo, b);
    HeadersReadBack(todo[0].file);
  }

  lemma DropFromBoth(buf: string, future: string, head: string, tail: string)
    requires buf + future == head + tail && |head| <= |buf|
    ensures buf[..|head|] == head && buf[|head|..] + future == tail
  {
    assert (buf + future)[..|head|] == head && (buf + future)[|head|..] == tail;
  }

  lemma NextLine(lines: seq<string>, todo: seq<Item>, b: Message)
    requires lines != [] && todo != []
    ensures LinesAndContent(lines, todo, b.boundary, b.tail)
         == lines[0] + (CRLF + LinesAndContent(lines[1..], todo, b.boundary, b.tail))
  {
    var content := CRLF + ContentText(todo[0].content, todo[1..], b.boundary, b.tail);
    Append(lines[0], CRLF + LinesText(lines[1..]), content);
    Append(CRLF, LinesText(lines[1..]), content);
  }

  /** The first line end in what is unread of the header. */
  lemma HeaderFind(p: Parser, future: string, lines: seq<string>, todo: seq<Item>, b: Message)
    requires At(AtLine(lines, todo), p, future, b)
    ensures var k := if lines == [] then 0 else |lines[0]|;
      && todo != [] && k < HEADER_MAX_LENGTH && k + 2 <= |p.buf| + |future|
      && Find(p.buf, CRLF) == if k + 2 <= |p.buf| then k else |p.buf|
  {
    hide LineOk, AfterLines, Clean, Collected, ContentText;
    if lines == [] {
      LineEnd("", ContentText(todo[0].content, todo[1..], b.boundary, b.tail));
      FindInPrefix(p.buf, future, CRLF, 0);
    } else {
      LineIs(lines[0]);
      NextLine(lines, todo, b);
      LineEnd(lines[0], LinesAndContent(lines[1..], todo, b.boundary, b.tail));
      FindInPrefix(p.buf, future, CRLF, |lines[0]|);
    }
  }

  lemma LineIs(line: string)
    ensures LineOk(line) <==> line != "" && '\r' !in line && |line| < HEADER_MAX_LENGTH
  {}

  lemma EmptyLine(p: Parser, future: string, todo: seq<Item>, b: Message)
    requires b.Ok() && At(AtLine([], todo), p, future, b) && 2 <= |p.buf|
    ensures At(AtContent(todo[0].content, todo), p.Emit(Header(p.file)).Drop(2).(phase := Body), future, b)
  {
    hide FileOk, ContentText, Occurs, Clean;
    var done := Collected(p.events);
    TodoOk(done, todo, b);
    CleanContent(todo[0].content, b.boundary);
    CollectedAfter(p.events, Header(p.file));
    DropFromBoth(p.buf, future, CRLF, ContentText(todo[0].content, todo[1..], b.boundary, b.tail));
    assert "" + todo[0].content == todo[0].content;
    assert (done + [Item(p.file, "")])[..|done|] == done;
  }

  lemma OneLine(p: Parser, future: string, lines: seq<string>, todo: seq<Item>, b: Message)
    requires lines != [] && At(AtLine(lines, todo), p, future, b)
    requires |lines[0]| + 2 <= |p.buf|
    ensures lines[0] != "" && p.buf[..|lines[0]|] == lines[0] && AfterLine(p.file, lines[0]).1
    ensures At(AtLine(lines[1..], todo), p.(file := AfterLine(p.file, lines[0]).0).Drop(|lines[0]| + 2), future, b)
  {
    hide LineOk, Collected, AfterLine, ContentText, LinesText;
    NextLine(lines, todo, b);
    LineIs(lines[0]);
    var line, rest := lines[0], LinesAndContent(lines[1..], todo, b.boundary, b.tail);
    hide LinesAndContent;
    Append(line, CRLF, rest);
    DropFromBoth(p.buf, future, line + CRLF, rest);
    assert p.buf[..|line| + 2][..|line|] == p.buf[..|line|];
  }

  lemma {:induction false} LineSteps(p: Parser, future: string, lines: seq<string>, todo: seq<Item>, b: Message)
    returns (place: Place)
    requires b.Ok() && At(AtLine(lines, todo), p, future, b)
    ensures var o := HeaderLoop(p, b.accept);
      At(place, o.p, future, b) && (o.Return? ==> o.ok && future != "" && !place.AtDelimiter?)
    decreases |p.buf|
  {
    hide At, ItemsOk, AfterLine, Collected, Find;
    HeaderFind(p, future, lines, todo, b);
    place := AtLine(lines, todo);
    if lines == [] {
      if 2 <= |p.buf| {
        EmptyLine(p, future, todo, b);
        place := AtContent(todo[0].content, todo);
      }
    } else if |lines[0]| + 2 <= |p.buf| {
      OneLine(p, future, lines, todo, b);
      place := LineSteps(p.(file := AfterLine(p.file, lines[0]).0).Drop(|lines[0]| + 2), future, lines[1..], todo, b);
    }
  }

  lemma ContentFind(p: Parser, future: string, rest: string, todo: seq<Item>, b: Message)
    requires At(AtContent(rest, todo), p, future, b)
    ensures var d := Delimiter(b.boundary);
      && p.buf + future == rest + (d + After(todo[1..], b.boundary, b.tail))
      && |p.buf| + |future| >= |rest| + |d|
      && Find(p.buf, d) == if |rest| + |d| <= |p.buf| then |rest| else |p.buf|
  {
    hide Clean, Collected, Find, DeliveredIs;
    var d, after := Delimiter(b.boundary), After(todo[1..], b.boundary, b.tail);
    hide After, Delimiter;
    DelimiterIs(b.boundary);
    ContentEnd(rest, after, b.boundary);
    FindInPrefix(p.buf, future, d, |rest|);
  }

  lemma WholeContent(p: Parser, future: string, rest: string, todo: seq<Item>, b: Message)
    requires At(AtContent(rest, todo), p, future, b)
    requires |rest| + |Delimiter(b.boundary)| <= |p.buf|
    ensures At(AtDelimiter(todo[1..]),
               p.Emit(Content(p.buf[..|rest|])).Drop(|rest| + |Delimiter(b.boundary)|).(phase := Boundary), future, b)
  {
    hide Clean, Collected, Find, DeliveredIs, After, Delimiter;
    var d, after := Delimiter(b.boundary), After(todo[1..], b.boundary, b.tail);
    Append(rest, d, after);
    DropFromBoth(p.buf, future, rest + d, after);
    assert p.buf[..|rest| + |d|][..|rest|] == p.buf[..|rest|];
    DeliverAll(p.events, rest, todo, b.items);
  }

  lemma PartOfContent(p: Parser, future: string, rest: string, todo: seq<Item>, b: Message, len: nat)
    requires At(AtContent(rest, todo), p, future, b)
    requires len <= |rest| && len <= |p.buf|
    ensures At(AtContent(rest[len..], todo), p.Emit(Content(p.buf[..len])).Drop(len), future, b)
  {
    hide Clean, Collected, Find, DeliveredIs, After, Delimiter;
    var after := Delimiter(b.boundary) + After(todo[1..], b.boundary, b.tail);
    Append(rest[..len], rest[len..], after);
    assert rest == rest[..len] + rest[len..];
    DropFromBoth(p.buf, future, rest[..len], rest[len..] + after);
    CleanSuffix(rest, len, b.boundary);
    DeliverPart(p.events, rest, len, todo, b.items);
  }

  lemma DelimiterIs(boundary: string)
    ensures Delimiter(boundary) == CRLF + DASH + boundary != ""
  {}

  lemma DeliverAll(events: seq<Event>, rest: string, todo: seq<Item>, items: seq<Item>)
    requires todo != [] && DeliveredIs(events, AtContent(rest, todo), items)
    ensures Collected(events + [Content(rest)]) + todo[1..] == items
  {
    hide Collected;
    CollectedAfter(events, Content(rest));
    var got := Collected(events);
    var done := got[..|got| - 1];
    assert todo == [todo[0]] + todo[1..];
    assert done + [todo[0]] + todo[1..] == done + todo;
  }

  lemma DeliverPart(events: seq<Event>, rest: string, len: nat, todo: seq<Item>, items: seq<Item>)
    requires todo != [] && len <= |rest| && DeliveredIs(events, AtContent(rest, todo), items)
    ensures DeliveredIs(events + [Content(rest[..len])], AtContent(rest[len..], todo), items)
  {
    hide Collected;
    CollectedAfter(events, Content(rest[..len]));
    var got := Collected(events);
    var last := got[|got| - 1];
    assert rest == rest[..len] + rest[len..];
    Append(last.content, rest[..len], rest[len..]);
    assert (got[..|got| - 1] + [Item(last.file, last.content + rest[..len])])[..|got| - 1] == got[..|got| - 1];
  }

  lemma ContentPlace(p: Parser, future: string, rest: string, todo: seq<Item>, b: Message)
    requires b.Ok() && At(AtContent(rest, todo), p, future, b)
    ensures p.phase == Body && todo != [] && forall events :: b.accept(events)
  {}

  lemma ContentStep(p: Parser, future: string, rest: string, todo: seq<Item>, b: Message) returns (place: Place)
    requires b.Ok() && p.buf != "" && At(AtContent(rest, todo), p, future, b)
    ensures var o := Step(p, b.boundary, b.accept);
      At(place, o.p, future, b) && (o.Return? ==> o.ok && future != "" && !place.AtDelimiter?)
  {
    hide *;
    var d := |Delimiter(b.boundary)|;
    DelimiterIs(b.boundary);
    ContentPlace(p, future, rest, todo, b);
    ContentFind(p, future, rest, todo, b);
    StepBody(p, b.boundary, b.accept);
    if |rest| + d <= |p.buf| {
      WholeContent(p, future, rest, todo, b);
      place := AtDelimiter(todo[1..]);
    } else if d < |p.buf| {
      PartOfContent(p, future, rest, todo, b, |p.buf| - d);
      place := AtContent(rest[|p.buf| - d..], todo);
    } else {
      place := AtContent(rest, todo);
    }
  }

  lemma DelimiterStep(p: Parser, future: string, todo: seq<Item>, b: Message) returns (place: Place)
    requires p.buf != "" && todo != [] && At(AtDelimiter(todo), p, future, b)
    ensures var o := Step(p, b.boundary, b.accept);
      At(place, o.p, future, b) && (o.Return? ==> o.ok && future != "" && place.todo != [])
  {
    hide Collected, Entries, Step;
    StepBoundary(p, b.boundary, b.accept);
    if 2 > |p.buf| {
      assert |p.buf + future| >= 2;
      place := AtDelimiter(todo);
    } else {
      DropFromBoth(p.buf, future, CRLF, Entries(todo, b.boundary, b.tail));
      place := AtEntry(todo);
    }
  }

  // ----- Up to the delimiter after the last item -----

  lemma UnreadNotEmpty(place: Place, boundary: string, tail: string)
    requires place.todo != []
    ensures Unread(place, boundary, tail) != ""
  {
    hide LinesText, HeaderLines;
    match place
    case AtEntry(todo) => assert LinesAndContent(HeaderLines(todo[0].file), todo, boundary, tail) != "";
    case AtLine(lines, todo) =>
    case AtContent(rest, todo) =>
    case AtDelimiter(todo) =>
  }

  lemma PlaceStep(place0: Place, p: Parser, future: string, b: Message) returns (place: Place)
    requires b.Ok() && p.buf != "" && place0.todo != [] && At(place0, p, future, b)
    ensures var o := Step(p, b.boundary, b.accept);
      At(place, o.p, future, b) && (o.Return? ==> o.ok && future != "" && place.todo != [])
  {
    match place0
    case AtEntry(todo) =>
      EntryStep(p, future, todo, b);
      place := AtLine(HeaderLines(todo[0].file), todo);
    case AtLine(lines, todo) =>
      HeaderFind(p, future, lines, todo, b);
      place := LineSteps(p, future, lines, todo, b);
    case AtContent(rest, todo) =>
      place := ContentStep(p, future, rest, todo, b);
    case AtDelimiter(todo) =>
      place := DelimiterStep(p, future, todo, b);
  }

  /** The loop either reaches the last delimiter or stops for want of text. */
  lemma {:induction false} Advance(place0: Place, p: Parser, future: string, b: Message)
    returns (place: Place, r: Parser)
    requires b.Ok() && At(place0, p, future, b)
    ensures At(place, r, future, b)
    ensures if place == AtDelimiter([]) then Run(p, b.boundary, b.accept) == Run(r, b.boundary, b.accept)
            else future != "" && Run(p, b.boundary, b.accept) == (r, true)
    decreases Fuel(p)
  {
    place, r := place0, p;
    if place0.todo == [] {
    } else if p.buf == "" {
      UnreadNotEmpty(place0, b.boundary, b.tail);
      assert p.buf + future == future;
    } else {
      place := PlaceStep(place0, p, future, b);
      hide At, ItemsOk, Step;
      match Step(p, b.boundary, b.accept) {
        case Continue(q) => place, r := Advance(place, q, future, b);
        case Return(q, ok) => r := q;
      }
    }
  }

  /** The rest of a feed, from the middle of a parse call. */
  function Resume(p: Parser, pieces: seq<string>, boundary: string, accept: Callbacks): (Parser, bool) {
    var (q, ok) := Run(p, boundary, accept);
    if ok then FeedAll(q, pieces, boundary, accept) else (q, false)
  }

  /** Whatever the pieces, the feed comes to the delimiter after the last item with all items delivered. */
  lemma {:induction false} ToLastDelimiter(place0: Place, p: Parser, pieces: seq<string>, b: Message)
    returns (r: Parser, rest: seq<string>)
    requires b.Ok() && At(place0, p, Concat(pieces), b)
    ensures At(AtDelimiter([]), r, Concat(rest), b)
    ensures Resume(p, pieces, b.boundary, b.accept) == Resume(r, rest, b.boundary, b.accept)
    decreases |pieces|
  {
    var place, q := Advance(place0, p, Concat(pieces), b);
    if place == AtDelimiter([]) {
      r, rest := q, pieces;
    } else {
      FedAt(place, q, pieces, b);
      hide At, ItemsOk, Run, FeedAll;
      r, rest := ToLastDelimiter(place, q.(buf := q.buf + pieces[0]), pieces[1..], b);
    }
  }

  lemma FedAt(place: Place, p: Parser, pieces: seq<string>, b: Message)
    requires pieces != [] && At(place, p, Concat(pieces), b)
    ensures At(place, p.(buf := p.buf + pieces[0]), Concat(pieces[1..]), b)
  {
    hide Unread, Collected, AfterLines, LineOk, Clean;
    Append(p.buf, pieces[0], Concat(pieces[1..]));
  }

  /** The first piece holds the first delimiter line, so the parser is at the first entry. */
  lemma FirstPiece(pieces: seq<string>, b: Message) returns (p: Parser)
    requires b.items != [] && pieces != [] && |DelimiterLine(b.boundary)| <= |pieces[0]|
    requires Concat(pieces) == DelimiterLine(b.boundary) + Entries(b.items, b.boundary, b.tail)
    ensures At(AtEntry(b.items), p, Concat(pieces[1..]), b)
    ensures FeedAll(Start(), pieces, b.boundary, b.accept) == Resume(p, pieces[1..], b.boundary, b.accept)
  {
    hide Entries, HeaderLoop;
    var line, entries, future := DelimiterLine(b.boundary), Entries(b.items, b.boundary, b.tail), Concat(pieces[1..]);
    var fed := Start().(buf := pieces[0]);
    assert "" + pieces[0] == pieces[0];
    DropFromBoth(pieces[0], future, line, entries);
    assert OccursAt(pieces[0], line, 0);
    assert Find(pieces[0], line) == 0 && pieces[0][0..] == pieces[0];
    p := fed.Drop(|line|).(phase := NewEntry);
    assert Step(fed, b.boundary, b.accept) == Continue(p);
    assert [] + b.items == b.items;
    assert Run(fed, b.boundary, b.accept) == Run(p, b.boundary, b.accept);
  }

  // ----- Past the last item of a well-formed body -----

  ghost predicate Finishing(p: Parser, future: string, items: seq<Item>) {
    && Collected(p.events) == items
    && match p.phase
       case Boundary =>
         (p.buf + future == CLOSE && !p.valid) || (p.valid && p.buf + future in [CRLF, "\n", ""])
       case NewEntry => p.valid && p.buf == "" && future == ""
       case _ => false
  }

  lemma Tails(a: string, b: string)
    requires |a| >= 2 && a + b == CLOSE
    ensures a[..2] == DASH && b in [CRLF, "\n", ""]
  {
    assert a[..2] == (a + b)[..2] && b == CLOSE[|a|..];
    if |a| == 3 { assert b == "\n"; } else if |a| == 2 { assert b == CRLF; }
  }

  lemma {:induction false} FinishingRun(p: Parser, future: string, items: seq<Item>, boundary: string,
                                        accept: Callbacks)
    requires Finishing(p, future, items)
    ensures var (q, ok) := Run(p, boundary, accept); ok && Finishing(q, future, items) && (future == "" ==> q.valid)
    decreases Fuel(p)
  {
    hide Collected;
    if p.buf == "" {
      assert "" + future == future;
    } else if p.valid {
      if |p.buf| == 2 {
        assert |p.buf + future| == 2 + |future| && future == "";
        assert p.buf + "" == p.buf && p.buf[..2] == p.buf && p.buf[2..] == "";
        FinishingRun(p.Drop(2).(phase := NewEntry), future, items, boundary, accept);
      }
    } else if |p.buf| >= 2 {
      Tails(p.buf, future);
      assert "" + future == future;
      FinishingRun(p.(valid := true, buf := ""), future, items, boundary, accept);
    } else {
      assert |p.buf + future| == 1 + |future|;
    }
  }

  lemma {:induction false} FinishingResume(p: Parser, pieces: seq<string>, items: seq<Item>, boundary: string,
                                           accept: Callbacks)
    requires Finishing(p, Concat(pieces), items)
    ensures var (q, ok) := Resume(p, pieces, boundary, accept); ok && q.valid && Collected(q.events) == items
    decreases |pieces|
  {
    hide Run, Collected;
    FinishingRun(p, Concat(pieces), items, boundary, accept);
    if pieces != [] {
      var (q, ok) := Run(p, boundary, accept);
      Append(q.buf, pieces[0], Concat(pieces[1..]));
      assert Concat(pieces) == "" ==> pieces[0] == "" && Concat(pieces[1..]) == "";
      FinishingResume(q.(buf := q.buf + pieces[0]), pieces[1..], items, boundary, accept);
    }
  }

  /** The serialized items come back, in order and whole, for every way to cut the body. */
  lemma RoundTrip(items: seq<Item>, boundary: string, pieces: seq<string>, accept: Callbacks)
    requires items != [] && ItemsOk(items, boundary) && forall events :: accept(events)
    requires pieces != [] && |DelimiterLine(boundary)| <= |pieces[0]| && Concat(pieces) == Serialized(items, boundary)
    ensures var (q, ok) := FeedAll(Start(), pieces, boundary, accept); ok && q.valid && Collected(q.events) == items
  {
    hide ItemsOk, Entries, Serialized, FeedAll, Run;
    var b := Message(items, boundary, CLOSE, accept);
    SerializedShape(items, boundary);
    var p := FirstPiece(pieces, b);
    var r, rest := ToLastDelimiter(AtEntry(items), p, pieces[1..], b);
    assert Collected(r.events) + [] == Collected(r.events);
    assert Finishing(r, Concat(rest), items);
    FinishingResume(r, rest, items, boundary, accept);
  }

  // ----- A content that holds the delimiter is cut there for good -----

  /** The items collected first no longer change. */
  ghost predicate Frozen(p: Parser, first: seq<Item>) {
    first <= Collected(p.events) && (p.phase == Body ==> |first| < |Collected(p.events)|)
  }

  lemma FrozenEmit(p: Parser, first: seq<Item>, e: Event)
    requires Frozen(p, first) && (e.Content? ==> p.phase == Body)
    ensures first <= Collected(p.Emit(e).events)
    ensures |Collected(p.Emit(e).events)| == |Collected(p.events)| + if e.Header? then 1 else 0
  {
    hide Collected;
    CollectedAfter(p.events, e);
  }

  lemma {:induction false} FrozenHeaderLoop(p: Parser, first: seq<Item>, accept: Callbacks)
    requires Frozen(p, first) && p.phase == Headers
    ensures Frozen(HeaderLoop(p, accept).p, first)
    decreases |p.buf|
  {
    hide Collected, AfterLine, Find;
    var pos := Find(p.buf, CRLF);
    if pos == 0 {
      FrozenEmit(p, first, Header(p.file));
    } else if pos < |p.buf| {
      var (file, ok) := AfterLine(p.file, p.buf[..pos]);
      if ok { FrozenHeaderLoop(p.(file := file).Drop(pos + 2), first, accept); }
    }
  }

  lemma FrozenStep(p: Parser, first: seq<Item>, boundary: string, accept: Callbacks)
    requires Frozen(p, first) && p.buf != ""
    ensures Frozen(Step(p, boundary, accept).p, first)
  {
    hide Collected, HeaderLoop, Find;
    match p.phase
    case Headers => FrozenHeaderLoop(p, first, accept);
    case Body =>
      var pos := Find(p.buf, CRLF + DASH + boundary);
      FrozenEmit(p, first, Content(p.buf[..pos]));
      var len := |p.buf| - |CRLF + DASH + boundary|;
      if len >= 0 { FrozenEmit(p, first, Content(p.buf[..len])); }
    case _ =>
  }

  lemma {:induction false} FrozenRun(p: Parser, first: seq<Item>, boundary: string, accept: Callbacks)
    requires Frozen(p, first)
    ensures Frozen(Run(p, boundary, accept).0, first)
    decreases Fuel(p)
  {
    hide Step, Frozen;
    if p.buf != "" {
      FrozenStep(p, first, boundary, accept);
      match Step(p, boundary, accept)
      case Continue(q) => FrozenRun(q, first, boundary, accept);
      case Return(q, ok) =>
    }
  }

  lemma {:induction false} FrozenResume(p: Parser, pieces: seq<string>, first: seq<Item>, boundary: string,
                                        accept: Callbacks)
    requires Frozen(p, first)
    ensures Frozen(Resume(p, pieces, boundary, accept).0, first)
    decreases |pieces|
  {
    hide Run;
    FrozenRun(p, first, boundary, accept);
    var (q, ok) := Run(p, boundary, accept);
    if ok && pieces != [] {
      FrozenResume(q.(buf := q.buf + pieces[0]), pieces[1..], first, boundary, accept);
    }
  }

  /** The body of items whose j-th content holds the delimiter is also the body of the items before it and
      the cut item, with some other text behind. */
  lemma {:induction false} CutBody(items: seq<Item>, boundary: string, j: nat, k: nat) returns (tail: string)
    requires j < |items| && OccursAt(items[j].content, Delimiter(boundary), k)
    ensures Entries(items, boundary, CLOSE)
         == Entries(items[..j] + [Item(items[j].file, items[j].content[..k])], boundary, tail)
    decreases j
  {
    hide LinesText, HeaderLines, Delimiter;
    var d := Delimiter(boundary);
    var first, rest := items[0], items[1..];
    if j == 0 {
      var more := first.content[k + |d|..];
      tail := more + (d + After(rest, boundary, CLOSE));
      var cut := [Item(first.file, first.content[..k])];
      assert items[..0] + cut == cut && cut[1..] == [];
      assert first.content == first.content[..k] + (d + more);
      assert ContentText(first.content, rest, boundary, CLOSE) == ContentText(first.content[..k], [], boundary, tail);
      assert LinesAndContent(HeaderLines(first.file), items, boundary, CLOSE)
          == LinesAndContent(HeaderLines(first.file), cut, boundary, tail);
    } else {
      tail := CutBody(rest, boundary, j - 1, k);
      var cut := items[..j] + [Item(items[j].file, items[j].content[..k])];
      assert cut[1..] == rest[..j - 1] + [Item(rest[j - 1].file, rest[j - 1].content[..k])] && cut[0] == first;
      assert After(rest, boundary, CLOSE) == After(cut[1..], boundary, tail);
      assert ContentText(first.content, rest, boundary, CLOSE) == ContentText(first.content, cut[1..], boundary, tail);
      assert LinesAndContent(HeaderLines(first.file), items, boundary, CLOSE)
          == LinesAndContent(HeaderLines(first.file), cut, boundary, tail);
    }
  }

  lemma FirstBadItem(items: seq<Item>, boundary: string) returns (j: nat, k: nat)
    requires exists i :: 0 <= i < |items| && Occurs(items[i].content, Delimiter(boundary))
    ensures j < |items| && OccursAt(items[j].content, Delimiter(boundary), k) && k < |items[j].content|
    ensures forall i :: 0 <= i < j ==> !Occurs(items[i].content, Delimiter(boundary))
    ensures !Occurs(items[j].content[..k], Delimiter(boundary))
  {
    j := 0;
    while !Occurs(items[j].content, Delimiter(boundary))
      invariant j < |items|
      invariant forall i :: 0 <= i < j ==> !Occurs(items[i].content, Delimiter(boundary))
      invariant exists i :: j <= i < |items| && Occurs(items[i].content, Delimiter(boundary))
      decreases |items| - j
    {
      j := j + 1;
    }
    var content, d := items[j].content, Delimiter(boundary);
    hide Delimiter;
    DelimiterIs(boundary);
    k := Find(content, d);
    assert OccursAt(content, d, k) by {
      var i :| 0 <= i <= |content| && OccursAt(content, d, i);
      assert i >= k;
    }
    forall i | 0 <= i <= k
      ensures !OccursAt(content[..k], d, i)
    {
      if i + |d| <= k {
        assert !OccursAt(content, d, i);
        assert content[..k][i..i + |d|] == content[i..i + |d|];
      }
    }
  }

  lemma DelimiterCutsContent(items: seq<Item>, boundary: string, pieces: seq<string>, accept: Callbacks)
    requires items != [] && '\r' !in boundary && (forall i :: 0 <= i < |items| ==> FileOk(items[i].file))
    requires forall events :: accept(events)
    requires pieces != [] && |DelimiterLine(boundary)| <= |pieces[0]| && Concat(pieces) == Serialized(items, boundary)
    requires exists i :: 0 <= i < |items| && Occurs(items[i].content, Delimiter(boundary))
    ensures Collected(FeedAll(Start(), pieces, boundary, accept).0.events) != items
  {
    hide FileOk, Entries, Serialized, FeedAll, Run, OccursAt, Occurs, Delimiter;
    var j, k := FirstBadItem(items, boundary);
    var tail := CutBody(items, boundary, j, k);
    var cut := items[..j] + [Item(items[j].file, items[j].content[..k])];
    var b := Message(cut, boundary, tail, accept);
    SerializedShape(items, boundary);
    var p := FirstPiece(pieces, b);
    var r, rest := ToLastDelimiter(AtEntry(cut), p, pieces[1..], b);
    assert Collected(r.events) + [] == Collected(r.events);
    FrozenResume(r, rest, cut, boundary, accept);
    assert cut[j].content != items[j].content;
  }

  /** For names, types and a boundary the format allows: the items come back exactly when no content holds
      the delimiter. */
  lemma RoundTripIffNoDelimiter(items: seq<Item>, boundary: string, pieces: seq<string>, accept: Callbacks)
    requires items != [] && '\r' !in boundary && (forall i :: 0 <= i < |items| ==> FileOk(items[i].file))
    requires forall events :: accept(events)
    requires pieces != [] && |DelimiterLine(boundary)| <= |pieces[0]| && Concat(pieces) == Serialized(items, boundary)
    ensures var (q, ok) := FeedAll(Start(), pieces, boundary, accept);
      (ok && q.valid && Collected(q.events) == items) <==>
      forall i :: 0 <= i < |items| ==> !Occurs(items[i].content, Delimiter(boundary))
  {
    hide FileOk, Serialized, FeedAll, Collected, Occurs, Delimiter, Concat;
    if forall i :: 0 <= i < |items| ==> !Occurs(items[i].content, Delimiter(boundary)) {
      RoundTrip(items, boundary, pieces, accept);
    } else {
      DelimiterCutsContent(items, boundary, pieces, accept);
    }
  }

  /** Why the first piece must hold the first delimiter line: a shorter one is thrown away without a word. */
  lemma ShortFirstPieceIsLost(piece: string, boundary: string, accept: Callbacks)
    requires |piece| < |DelimiterLine(boundary)|
    ensures Feed(Start(), piece, boundary, accept) == (Start(), true)
  {
    var fed := Start().(buf := piece);
    assert "" + piece == piece;
    assert Find(piece, DelimiterLine(boundary)) == |piece| && piece[|piece|..] == "";
  }
}
