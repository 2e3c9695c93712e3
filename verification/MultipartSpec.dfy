/** multipart/form-data of deps/httplib.h: the serializer, and the incremental parser as a step function
    on the unread text of its buffer. */
module MultipartSpec {
  import opened Wrappers
  import opened HttpText
  import opened HeaderFields
  import UrlCodec

  /** MultipartFormData without its content, the parser's file_. */
  datatype File = File(name: string, filename: string, contentType: string)

  datatype Item = Item(file: File, content: string)

  // ----- The serializer -----

  function DelimiterLine(boundary: string): string {
    DASH + boundary + CRLF
  }

  function DispositionLine(file: File): string {
    "Content-Disposition: form-data; name=\"" + file.name + "\"" +
    if file.filename == "" then "" else "; filename=\"" + file.filename + "\""
  }

  function ContentTypeLine(file: File): string {
    "Content-Type: " + file.contentType
  }

  function ItemBegin(file: File, boundary: string): string {
    DelimiterLine(boundary) + DispositionLine(file) + CRLF +
    (if file.contentType == "" then "" else ContentTypeLine(file) + CRLF) + CRLF
  }

  function ItemEnd(): string {
    CRLF
  }

  function Finish(boundary: string): string {
    DASH + boundary + DASH + CRLF
  }

  function ItemsText(items: seq<Item>, boundary: string): string {
    if items == [] then ""
    else ItemBegin(items[0].file, boundary) + (items[0].content + ItemEnd()) + ItemsText(items[1..], boundary)
  }

  function Serialized(items: seq<Item>, boundary: string): string {
    ItemsText(items, boundary) + Finish(boundary)
  }

  // ----- Header lines -----

  /** ^Content-Disposition:\s*form-data;\s*(.*)$ ignoring case; the dot stops at line ends. */
  function DispositionParams(line: string): Option<string> {
    var prefix, kind := "Content-Disposition:", "form-data;";
    if !StartsWithIgnoringCase(line, prefix) then None
    else
      var s := UrlCodec.SkipSpace(line[|prefix|..]);
      if !StartsWithIgnoringCase(s, kind) then None
      else
        var params := UrlCodec.SkipSpace(s[|kind|..]);
        if '\r' in params || '\n' in params then None else Some(params)
  }

  /** The first token is the key and the last of the others the value. */
  function KeyValue(kv: string): (string, string) {
    var tokens := Tokens(kv, '=');
    (if tokens == [] then "" else tokens[0], if |tokens| <= 1 then "" else tokens[|tokens| - 1])
  }

  /** parse_disposition_params, in the order the parameters are added. */
  function ParamsOf(tokens: seq<string>, cache: set<string>): seq<(string, string)> {
    if tokens == [] then []
    else if tokens[0] in cache then ParamsOf(tokens[1..], cache)
    else
      var (key, value) := KeyValue(tokens[0]);
      (if key == "" then [] else [(TrimQuotes(key), TrimQuotes(value))]) + ParamsOf(tokens[1..], cache + {tokens[0]})
  }

  function Lookup(params: seq<(string, string)>, key: string): Option<string> {
    if params == [] then None
    else if params[0].0 == key then Some(params[0].1)
    else Lookup(params[1..], key)
  }

  /** ^UTF-8''(.+?)$ ignoring case */
  function ExtendedFilename(value: string): Option<string> {
    var prefix := "UTF-8''";
    if StartsWithIgnoringCase(value, prefix) && |value| > |prefix| &&
       '\r' !in value[|prefix|..] && '\n' !in value[|prefix|..]
    then Some(UrlCodec.Decode(value[|prefix|..], false))
    else None
  }

  /** What one header line does to file_, and whether the parser goes on. */
  function AfterLine(file: File, line: string): (File, bool) {
    if !IsHeader(line) then (file, false)
    else if StartsWithIgnoringCase(line, "Content-Type:") then
      (file.(contentType := Trim(line[|"Content-Type:"|..])), true)
    else
      match DispositionParams(line)
      case None => (file, true)
      case Some(text) =>
        var params := ParamsOf(Tokens(text, ';'), {});
        match Lookup(params, "name")
        case None => (file, false)
        case Some(name) =>
          var filename := Lookup(params, "filename");
          var named := File(name, if filename.Some? then filename.value else file.filename, file.contentType);
          match Lookup(params, "filename*")
          case None => (named, true)
          case Some(extended) =>
            match ExtendedFilename(extended)
            case None => (named, false)
            case Some(f) => (named.(filename := f), true)
  }

  // ----- The parser -----

  /** state_, 0 to 4 */
  datatype Phase = InitialBoundary | NewEntry | Headers | Body | Boundary

  /** A call of the header callback or of the content callback. */
  datatype Event = Header(file: File) | Content(data: string)

  /** `buf` is the unread part of the buffer and `events` the callbacks made so far. */
  datatype Parser = Parser(phase: Phase, valid: bool, file: File, buf: string, events: seq<Event>) {
    function Emit(e: Event): Parser {
      this.(events := events + [e])
    }

    function Drop(n: nat): Parser
      requires n <= |buf|
    {
      this.(buf := buf[n..])
    }
  }

  const EMPTY_FILE := File("", "", "")

  function Start(): Parser {
    Parser(InitialBoundary, false, EMPTY_FILE, "", [])
  }

  /** Whether a callback, given all calls so far with its own last, returns true. */
  type Callbacks = seq<Event> -> bool

  datatype Outcome = Continue(p: Parser) | Return(p: Parser, ok: bool)

  predicate StartsWith(s: string, p: string) {
    |p| <= |s| && s[..|p|] == p
  }

  /** The inner loop over header lines. */
  function HeaderLoop(p: Parser, accept: Callbacks): (o: Outcome)
    ensures o.Continue? ==> |o.p.buf| < |p.buf|
    decreases |p.buf|
  {
    var pos := Find(p.buf, CRLF);
    if pos == |p.buf| then Return(p, true)
    else if pos == 0 then
      var q := p.Emit(Header(p.file));
      if accept(q.events) then Continue(q.Drop(2).(phase := Body)) else Return(q.(valid := false), false)
    else
      var (file, ok) := AfterLine(p.file, p.buf[..pos]);
      if ok then HeaderLoop(p.(file := file).Drop(pos + 2), accept)
      else Return(p.(file := file, valid := false), false)
  }

  /** One round of the parse loop. */
  function Step(p: Parser, boundary: string, accept: Callbacks): (o: Outcome)
    requires p.buf != ""
    ensures o.Continue? ==> Fuel(o.p) < Fuel(p)
  {
    match p.phase
    case InitialBoundary =>
      var delimiter := DelimiterLine(boundary);
      var q := p.Drop(Find(p.buf, delimiter));
      if |delimiter| > |q.buf| then Return(q, true)
      else if !StartsWith(q.buf, delimiter) then Return(q, false)
      else Continue(q.Drop(|delimiter|).(phase := NewEntry))
    case NewEntry =>
      Continue(p.(file := EMPTY_FILE, phase := Headers))
    case Headers =>
      if Find(p.buf, CRLF) > HEADER_MAX_LENGTH then Return(p, false) else HeaderLoop(p, accept)
    case Body =>
      var delimiter := CRLF + DASH + boundary;
      if |delimiter| > |p.buf| then Return(p, true)
      else
        var pos := Find(p.buf, delimiter);
        if pos < |p.buf| then
          var q := p.Emit(Content(p.buf[..pos]));
          if accept(q.events) then Continue(q.Drop(pos + |delimiter|).(phase := Boundary))
          else Return(q.(valid := false), false)
        else
          var len := |p.buf| - |delimiter|;
          if len == 0 then Return(p, true)
          else
            var q := p.Emit(Content(p.buf[..len]));
            if accept(q.events) then Return(q.Drop(len), true) else Return(q.(valid := false), false)
    case Boundary =>
      if 2 > |p.buf| then Return(p, true)
      else if StartsWith(p.buf, CRLF) then Continue(p.Drop(2).(phase := NewEntry))
      else if StartsWith(p.buf, DASH) then Continue(p.(valid := true, buf := ""))
      else Return(p, true)
  }

  // One round in each state.

  lemma StepNewEntry(p: Parser, boundary: string, accept: Callbacks)
    requires p.buf != "" && p.phase == NewEntry
    ensures Step(p, boundary, accept) == Continue(p.(file := EMPTY_FILE, phase := Headers))
  {}

  lemma StepInitialBoundary(p: Parser, boundary: string, accept: Callbacks)
    requires p.buf != "" && p.phase == InitialBoundary
    ensures DASH + boundary + CRLF != ""
    ensures var delimiter := DASH + boundary + CRLF;
      var q := p.Drop(Find(p.buf, delimiter));
      Step(p, boundary, accept) ==
        if |delimiter| > |q.buf| then Return(q, true)
        else if !OccursAt(q.buf, delimiter, 0) then Return(q, false)
        else Continue(q.Drop(|delimiter|).(phase := NewEntry))
  {
    hide Find;
  }

  lemma StepBody(p: Parser, boundary: string, accept: Callbacks)
    requires p.buf != "" && p.phase == Body
    ensures CRLF + DASH + boundary != ""
    ensures var delimiter := CRLF + DASH + boundary;
      var pos, len := Find(p.buf, delimiter), |p.buf| - |delimiter|;
      Step(p, boundary, accept) ==
        if len < 0 then Return(p, true)
        else if pos < |p.buf| then
          var q := p.Emit(Content(p.buf[..pos]));
          if accept(q.events) then Continue(q.Drop(pos + |delimiter|).(phase := Boundary))
          else Return(q.(valid := false), false)
        else if len == 0 then Return(p, true)
        else
          var q := p.Emit(Content(p.buf[..len]));
          if accept(q.events) then Return(q.Drop(len), true) else Return(q.(valid := false), false)
  {
    hide Find;
  }

  lemma StepBoundary(p: Parser, boundary: string, accept: Callbacks)
    requires p.buf != "" && p.phase == Boundary
    ensures Step(p, boundary, accept) ==
      if 2 > |p.buf| then Return(p, true)
      else if OccursAt(p.buf, CRLF, 0) then Continue(p.Drop(2).(phase := NewEntry))
      else if OccursAt(p.buf, DASH, 0) then Continue(p.(valid := true, buf := ""))
      else Return(p, true)
  {
    hide Find, HeaderLoop;
  }

  lemma StepHeaders(p: Parser, boundary: string, accept: Callbacks)
    requires p.buf != "" && p.phase == Headers
    ensures Step(p, boundary, accept) ==
      if Find(p.buf, CRLF) > HEADER_MAX_LENGTH then Return(p, false) else HeaderLoop(p, accept)
  {}

  /** The parse loop terminates: every round consumes text, except the one that starts an entry. */
  function Fuel(p: Parser): nat {
    2 * |p.buf| + if p.phase == NewEntry then 1 else 0
  }

  function Run(p: Parser, boundary: string, accept: Callbacks): (Parser, bool)
    decreases Fuel(p)
  {
    if p.buf == "" then (p, true)
    else
      match Step(p, boundary, accept)
      case Continue(q) => Run(q, boundary, accept)
      case Return(q, ok) => (q, ok)
  }

  /** parse: one piece of the body. */
  function Feed(p: Parser, piece: string, boundary: string, accept: Callbacks): (Parser, bool) {
    Run(p.(buf := p.buf + piece), boundary, accept)
  }

  /** All the pieces, until one is refused. */
  function FeedAll(p: Parser, pieces: seq<string>, boundary: string, accept: Callbacks): (Parser, bool)
    decreases |pieces|
  {
    if pieces == [] then (p, true)
    else
      var (q, ok) := Feed(p, pieces[0], boundary, accept);
      if ok then FeedAll(q, pieces[1..], boundary, accept) else (q, false)
  }

  /** A header starts an item and content is added to the last one. */
  function Record(items: seq<Item>, e: Event): seq<Item> {
    match e
    case Header(file) => items + [Item(file, "")]
    case Content(data) =>
      if items == [] then []
      else
        var last := items[|items| - 1];
        items[..|items| - 1] + [Item(last.file, last.content + data)]
  }

  /** The items the callbacks describe. */
  function Collected(events: seq<Event>): seq<Item> {
    if events == [] then [] else Record(Collected(events[..|events| - 1]), events[|events| - 1])
  }
}
