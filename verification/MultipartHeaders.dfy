/** The header lines the multipart serializer writes, read back by the parser's line handler. */
module MultipartHeaders {
  import opened Sequences
  import opened Wrappers
  import opened HttpText
  import opened HeaderFields
  import opened MultipartSpec
  import UrlCodec

  /** Names are quoted, so quotes and blanks are harmless; a semicolon, an equals sign or a line end is not. */
  predicate NameOk(name: string) {
    forall i :: 0 <= i < |name| ==> name[i] !in ";=\r\n"
  }

  predicate NoOuterBlanks(s: string) {
    s != "" ==> !Blank(s[0]) && !Blank(s[|s| - 1])
  }

  predicate TypeOk(contentType: string) {
    (forall i :: 0 <= i < |contentType| ==> contentType[i] !in "\r\n") && NoOuterBlanks(contentType)
  }

  predicate FileOk(file: File) {
    && NameOk(file.name) && NameOk(file.filename) && TypeOk(file.contentType)
    && |DispositionLine(file)| < HEADER_MAX_LENGTH && |ContentTypeLine(file)| < HEADER_MAX_LENGTH
  }

  function HeaderLines(file: File): seq<string> {
    [DispositionLine(file)] + if file.contentType == "" then [] else [ContentTypeLine(file)]
  }

  predicate LineOk(line: string) {
    line != "" && '\r' !in line && |line| < HEADER_MAX_LENGTH
  }

  /** file_ after the remaining header lines, if the parser accepts them all. */
  function AfterLines(file: File, lines: seq<string>): Option<File>
    decreases |lines|
  {
    if lines == [] then Some(file)
    else
      var (next, ok) := AfterLine(file, lines[0]);
      if ok then AfterLines(next, lines[1..]) else None
  }

  // ----- Line shapes -----

  lemma StartsWithSelf(p: string, rest: string)
    ensures StartsWithIgnoringCase(p + rest, p)
    ensures (p + rest)[|p|..] == rest
  {}

  lemma {:induction false} TrimLeftKeepsLast(s: string)
    requires s != "" && !Blank(s[|s| - 1])
    ensures TrimLeft(s) != ""
  {
    if Blank(s[0]) { TrimLeftKeepsLast(s[1..]); }
  }

  /** A line with a name, a colon and no blank at its end is a header. */
  lemma LineIsHeader(line: string, colon: nat)
    requires 0 < colon < |line| - 1 && line[colon] == ':' && line[0] != ':'
    requires !Blank(line[|line| - 1])
    ensures IsHeader(line)
  {
    hide Blank, TrimRight, TrimLeft;
    TrimRightAt(line, |line|);
    assert line[..|line|] == line;
    var i := IndexOf(line, ':');
    assert 0 < i <= colon;
    var value := line[i + 1..];
    assert value[|value| - 1] == line[|line| - 1];
    TrimLeftKeepsLast(value);
  }

  lemma SkipOneSpace(s: string)
    requires s != "" && !UrlCodec.IsSpace(s[0])
    ensures UrlCodec.SkipSpace(" " + s) == s
  {
    assert (" " + s)[1..] == s;
  }

  // ----- Content-Type -----

  lemma ContentTypeReads(file: File, contentType: string)
    requires contentType != "" && NoOuterBlanks(contentType)
    ensures AfterLine(file, ContentTypeLine(File("", "", contentType))) == (file.(contentType := contentType), true)
  {
    hide IsHeader, StartsWithIgnoringCase, Trim, Blank;
    var prefix := "Content-Type:";
    var line := "Content-Type: " + contentType;
    assert line == prefix + (" " + contentType);
    assert line[12] == ':' && line[0] == 'C';
    assert line[|line| - 1] == contentType[|contentType| - 1];
    LineIsHeader(line, 12);
    StartsWithSelf(prefix, " " + contentType);
    TrimKeeps(contentType);
  }

  // ----- Content-Disposition -----

  function Quoted(key: string, value: string): string {
    key + "=\"" + value + "\""
  }

  /** The text after form-data; */
  function ParamsText(file: File): string {
    if file.filename == "" then Quoted("name", file.name)
    else Quoted("name", file.name) + [';'] + (" " + Quoted("filename", file.filename))
  }

  lemma DispositionStart()
    ensures "Content-Disposition: form-data; name=\""
         == "Content-Disposition:" + (" " + ("form-data;" + (" " + "name=\"")))
    ensures "; filename=\"" == [';'] + (" " + "filename=\"")
    ensures "name" + "=\"" == "name=\"" && "filename" + "=\"" == "filename=\""
  {}

  lemma RegroupFile(before: string, semicolon: string, blank: string, key: string, name: string, quote: string)
    ensures before + ((semicolon + (blank + key)) + name + quote)
         == (before + semicolon) + (blank + (key + name + quote))
  {
    Append(semicolon, blank + key, name);
    Append(semicolon, (blank + key) + name, quote);
    Append(blank, key, name);
    Append(blank, key + name, quote);
    Append(before, semicolon, blank + (key + name + quote));
  }

  lemma DispositionShape(file: File)
    ensures DispositionLine(file) == "Content-Disposition:" + (" " + ("form-data;" + (" " + ParamsText(file))))
    ensures var params := ParamsText(file); params != "" && params[|params| - 1] == '"'
  {
    DispositionStart();
    var rest := if file.filename == "" then "" else "; filename=\"" + file.filename + "\"";
    if file.filename == "" {
      assert Quoted("name", file.name) + "" == Quoted("name", file.name);
    } else {
      RegroupFile(Quoted("name", file.name), [';'], " ", "filename=\"", file.filename, "\"");
    }
  }

  lemma DispositionPrefix(rest: string)
    ensures var line := "Content-Disposition:" + rest;
      line[0] == 'C' && line[8] == 'D' && line[19] == ':' && "Content-Type:"[8] == 'T'
  {}

  lemma DispositionIsHeader(file: File)
    ensures IsHeader(DispositionLine(file))
    ensures !StartsWithIgnoringCase(DispositionLine(file), "Content-Type:")
  {
    hide DispositionLine, ParamsText, IsHeader;
    var line, rest := DispositionLine(file), " " + ("form-data;" + (" " + ParamsText(file)));
    DispositionShape(file);
    DispositionPrefix(rest);
    assert line[|line| - 1] == rest[|rest| - 1] == '"';
    LineIsHeader(line, 19);
    assert Lower('D') != Lower('T');
  }

  predicate OneLine(s: string) {
    '\r' !in s && '\n' !in s
  }

  lemma DispositionParamsReads(file: File)
    ensures DispositionParams(DispositionLine(file)) ==
      if OneLine(file.name) && OneLine(file.filename) then Some(ParamsText(file)) else None
  {
    hide StartsWithIgnoringCase, UrlCodec.SkipSpace;
    var params := ParamsText(file);
    var kind := "form-data;";
    DispositionShape(file);
    StartsWithSelf("Content-Disposition:", " " + (kind + (" " + params)));
    assert (kind + (" " + params))[0] == 'f' && params[0] == 'n';
    SkipOneSpace(kind + (" " + params));
    StartsWithSelf(kind, " " + params);
    SkipOneSpace(params);
    ParamsOneLine(file);
  }

  lemma ParamsOneLine(file: File)
    ensures OneLine(ParamsText(file)) <==> OneLine(file.name) && OneLine(file.filename)
  {
    QuotedOneLine("name", file.name);
    QuotedOneLine("filename", file.filename);
  }

  lemma QuotedOneLine(key: string, value: string)
    requires OneLine(key)
    ensures OneLine(Quoted(key, value)) <==> OneLine(value)
  {}

  lemma QuotedToken(key: string, value: string)
    requires key in ["name", "filename"] && NameOk(value)
    ensures var kv := Quoted(key, value);
      && ';' !in kv && kv != "" && Token(kv) == [kv] == Token(" " + kv)
      && KeyValue(kv) == (key, "\"" + value + "\"")
      && TrimQuotes("\"" + value + "\"") == value && TrimQuotes(key) == key
  {
    hide Trim, TrimRight, TrimLeft, Token, Tokens;
    var kv, quoted := Quoted(key, value), "\"" + value + "\"";
    TrimKeeps(kv);
    TrimKeeps(quoted);
    TrimKeeps(key);
    TokenIs(kv);
    TokenIs(" " + kv);
    TokenIs(quoted);
    TokenIs(key);
    assert kv == key + ['='] + quoted;
    TokensAt(key, '=', quoted);
    TokensSingle(quoted, '=');
  }

  lemma ParamsRead(file: File)
    requires NameOk(file.name) && NameOk(file.filename)
    ensures var params := ParamsOf(Tokens(ParamsText(file), ';'), {});
      && Lookup(params, "name") == Some(file.name) && Lookup(params, "filename*") == None
      && Lookup(params, "filename") == if file.filename == "" then None else Some(file.filename)
  {
    hide Tokens, Token, TrimQuotes, KeyValue;
    assert |"name"| == 4 && |"filename"| == 8 && |"filename*"| == 9;
    var first := Quoted("name", file.name);
    QuotedToken("name", file.name);
    if file.filename == "" {
      TokensSingle(first, ';');
      OneParam(first, {});
    } else {
      var second := Quoted("filename", file.filename);
      QuotedToken("filename", file.filename);
      assert ';' !in " " + second;
      TokensAt(first, ';', " " + second);
      TokensSingle(" " + second, ';');
      assert first[0] == 'n' && second[0] == 'f';
      assert [first] + [second] == [first, second];
      TwoParams(first, second);
      var params := [("name", file.name), ("filename", file.filename)];
      assert ParamsOf([first, second], {}) == params;
      assert params[1..] == [("filename", file.filename)] && params[1..][1..] == [];
      assert Lookup(params[1..], "filename*") == None;
    }
  }

  lemma OneParam(kv: string, cache: set<string>)
    requires kv !in cache
    ensures ParamsOf([kv], cache) ==
      if KeyValue(kv).0 == "" then [] else [(TrimQuotes(KeyValue(kv).0), TrimQuotes(KeyValue(kv).1))]
  {
    assert ParamsOf([kv][1..], cache + {kv}) == [];
  }

  lemma TwoParams(first: string, second: string)
    requires first != second && KeyValue(first).0 != "" && KeyValue(second).0 != ""
    ensures ParamsOf([first, second], {}) ==
      [(TrimQuotes(KeyValue(first).0), TrimQuotes(KeyValue(first).1)),
       (TrimQuotes(KeyValue(second).0), TrimQuotes(KeyValue(second).1))]
  {
    hide KeyValue, TrimQuotes;
    assert [first, second][1..] == [second];
    OneParam(second, {} + {first});
  }

  lemma DispositionReads(file: File)
    requires NameOk(file.name) && NameOk(file.filename)
    ensures AfterLine(EMPTY_FILE, DispositionLine(file)) == (File(file.name, file.filename, ""), true)
  {
    hide IsHeader, StartsWithIgnoringCase, DispositionParams, Tokens, ParamsOf, Lookup, DispositionLine;
    DispositionIsHeader(file);
    DispositionParamsReads(file);
    ParamsRead(file);
  }

  // ----- What does not come back -----

  lemma TrimQuotesIs(s: string)
    ensures |TrimQuotes(s)| <= |s| && (|TrimQuotes(s)| == |s| ==> TrimQuotes(s) == s)
  {}

  lemma KeyValueIs(key: string, rest: string)
    requires key in ["name", "filename"]
    ensures KeyValue(key + "=" + rest).0 == key
    ensures var tokens := Tokens(rest, '=');
      KeyValue(key + "=" + rest).1 == if tokens == [] then "" else tokens[|tokens| - 1]
  {
    hide Tokens, Token, Trim;
    assert "=" == ['='];
    TokensAt(key, '=', rest);
    TrimKeeps(key);
    TokenIs(key);
    assert [key] + Tokens(rest, '=') != [];
  }

  /** A semicolon in a value ends its token early. */
  lemma ValueCut(key: string, value: string, k: nat) returns (t: string)
    requires key in ["name", "filename"] && k < |value| && value[k] == ';' && ';' !in value[..k]
    ensures Token(key + "=\"" + value[..k]) == [t] && t != "" && t[0] == key[0]
    ensures KeyValue(t).0 == key && TrimQuotes(KeyValue(t).1) != value
  {
    hide Tokens, Token, Trim, TrimQuotes, KeyValue, Blank;
    var y := "\"" + value[..k];
    var x := key + "=" + y;
    var a, b := TrimIs(x);
    NoBlanks();
    assert x[0] == key[0] && x[|key| + 1] == '"';
    var r := y[..b - |key| - 1];
    t := x[a..b];
    TokenIs(x);
    assert x == key + "=\"" + value[..k] && t == key + "=" + r;
    KeyValueIs(key, r);
    TokensInside(r, '=');
    TrimQuotesIs(KeyValue(t).1);
    assert y[k] == if k == 0 then '"' else value[k - 1];
    assert value != y;
  }

  lemma NoBlanks()
    ensures !Blank('n') && !Blank('f') && !Blank('"')
  {}

  /** Of a value with an equals sign only what follows the last one is read. */
  lemma ValueSplit(key: string, value: string)
    requires key in ["name", "filename"] && '=' in value
    ensures KeyValue(Quoted(key, value)).0 == key && TrimQuotes(KeyValue(Quoted(key, value)).1) != value
  {
    hide Tokens, Token, Trim, TrimQuotes, KeyValue, Blank;
    var k := LastIndex(value, '=');
    var front, rest := "\"" + value[..k], value[k + 1..] + "\"";
    assert Quoted(key, value) == key + "=" + (front + ['='] + rest);
    KeyValueIs(key, front + ['='] + rest);
    TokensBoth(front, '=', rest);
    TokensSingle(rest, '=');
    TokenIs(rest);
    var a, b := TrimIs(rest);
    NoBlanks();
    assert rest[|rest| - 1] == '"';
    TrimQuotesIs(rest[a..b]);
    assert '=' !in rest && value != rest;
  }

  lemma {:induction false} LastIndex(s: string, c: char) returns (k: nat)
    requires c in s
    ensures k < |s| && s[k] == c && c !in s[k + 1..]
    decreases |s|
  {
    var i := IndexOf(s, c);
    var rest := s[i + 1..];
    k := i;
    if c in rest {
      var j := LastIndex(rest, c);
      k := i + 1 + j;
      SliceFrom(s, i + 1, j + 1);
    }
  }

  /** The first token of a quoted value that is not plain, and what other tokens its text leaves. */
  lemma ValueLost(key: string, value: string, more: string) returns (t: string, tail: seq<string>)
    requires key in ["name", "filename"] && (';' in value || '=' in value) && (more == "" || more[0] == ';')
    ensures Tokens(Quoted(key, value) + more, ';') == [t] + tail && t != "" && t[0] == key[0]
    ensures KeyValue(t).0 == key && TrimQuotes(KeyValue(t).1) != value
    ensures more == "" ==> forall x :: x in tail ==> |x| <= |value|
  {
    hide Tokens, Token, Trim, TrimQuotes, KeyValue, Blank;
    var kv := Quoted(key, value);
    if ';' in value {
      var k := IndexOf(value, ';');
      var rest := value[k + 1..] + "\"" + more;
      t := ValueCut(key, value, k);
      tail := Tokens(rest, ';');
      assert kv + more == (key + "=\"" + value[..k]) + [';'] + rest;
      TokensAt(key + "=\"" + value[..k], ';', rest);
      TokensInside(rest, ';');
    } else {
      t := kv;
      ValueSplit(key, value);
      NoBlanks();
      TrimKeeps(kv);
      TokenIs(kv);
      if more == "" {
        tail := [];
        assert kv + more == kv;
        TokensSingle(kv, ';');
      } else {
        tail := Tokens(more[1..], ';');
        assert kv + more == kv + [';'] + more[1..];
        TokensAt(kv, ';', more[1..]);
      }
    }
  }

  lemma FirstParam(t: string, tail: seq<string>, cache: set<string>)
    requires t !in cache && KeyValue(t).0 in ["name", "filename"]
    ensures ParamsOf([t] + tail, cache) == [(KeyValue(t).0, TrimQuotes(KeyValue(t).1))] + ParamsOf(tail, cache + {t})
  {
    hide KeyValue;
    assert ([t] + tail)[1..] == tail;
  }

  lemma {:induction false} ParamsShort(tokens: seq<string>, cache: set<string>, key: string, n: nat)
    requires forall x :: x in tokens ==> |x| <= n
    ensures var found := Lookup(ParamsOf(tokens, cache), key); found.Some? ==> |found.value| <= n
  {
    hide Tokens, TrimQuotes;
    if tokens != [] {
      var kv := tokens[0];
      assert kv in tokens && forall x :: x in tokens[1..] ==> x in tokens;
      TokensInside(kv, '=');
      TrimQuotesIs(KeyValue(kv).1);
      ParamsShort(tokens[1..], cache, key, n);
      ParamsShort(tokens[1..], cache + {kv}, key, n);
      LookupFirst(TrimQuotes(KeyValue(kv).0), TrimQuotes(KeyValue(kv).1), ParamsOf(tokens[1..], cache + {kv}), key);
    }
  }

  lemma LookupFirst(name: string, value: string, params: seq<(string, string)>, key: string)
    ensures Lookup([(name, value)] + params, key) == if name == key then Some(value) else Lookup(params, key)
    ensures [] + params == params
  {
    assert ([(name, value)] + params)[1..] == params;
  }

  lemma NameLost(file: File)
    requires ';' in file.name || '=' in file.name
    ensures Lookup(ParamsOf(Tokens(ParamsText(file), ';'), {}), "name").Some?
    ensures Lookup(ParamsOf(Tokens(ParamsText(file), ';'), {}), "name") != Some(file.name)
  {
    hide Tokens, KeyValue, TrimQuotes, Quoted, Lookup, ParamsOf;
    var more := if file.filename == "" then "" else [';'] + (" " + Quoted("filename", file.filename));
    var t, tail := ValueLost("name", file.name, more);
    assert ParamsText(file) == Quoted("name", file.name) + more;
    FirstParam(t, tail, {});
    LookupFirst("name", TrimQuotes(KeyValue(t).1), ParamsOf(tail, {} + {t}), "name");
  }

  /** The name is read, another file name, and no extended one that could be the file name. */
  lemma FilenameLost(file: File)
    requires NameOk(file.name) && (';' in file.filename || '=' in file.filename)
    ensures var params := ParamsOf(Tokens(ParamsText(file), ';'), {});
      && Lookup(params, "name").Some? && Lookup(params, "filename").Some?
      && Lookup(params, "filename") != Some(file.filename)
      && (Lookup(params, "filename*").Some? ==> |Lookup(params, "filename*").value| <= |file.filename|)
  {
    hide Tokens, Token, KeyValue, TrimQuotes, Quoted, Lookup, ParamsOf;
    var first, text := Quoted("name", file.name), Quoted("filename", file.filename);
    QuotedToken("name", file.name);
    TokensAt(first, ';', " " + text);
    TokensBehindBlank(text, ';');
    var t, tail := ValueLost("filename", file.filename, "");
    assert text + "" == text && [first] + ([t] + tail) == [first] + Tokens(text, ';');
    assert first[0] == 'n' by { FirstIsN(file.name); }
    FirstParam(first, [t] + tail, {});
    FirstParam(t, tail, {} + {first});
    var value, rest := TrimQuotes(KeyValue(t).1), ParamsOf(tail, {} + {first} + {t});
    assert |"name"| == 4 && |"filename"| == 8 && |"filename*"| == 9;
    forall key ensures Lookup(ParamsOf(Tokens(ParamsText(file), ';'), {}), key) ==
      if key == "name" then Some(file.name) else if key == "filename" then Some(value) else Lookup(rest, key)
    {
      LookupFirst("name", file.name, [("filename", value)] + rest, key);
      LookupFirst("filename", value, rest, key);
    }
    ParamsShort(tail, {} + {first} + {t}, "filename*", |file.filename|);
  }

  lemma FirstIsN(name: string)
    ensures Quoted("name", name)[0] == 'n'
  {}

  lemma ExtendedIsShorter(value: string)
    ensures var f := ExtendedFilename(value); f.Some? ==> |f.value| < |value|
  {
    var prefix := "UTF-8''";
    if |value| > |prefix| { UrlCodec.DecodeNoLonger(value[|prefix|..], false); }
  }

  lemma DispositionLost(file: File)
    requires !(NameOk(file.name) && NameOk(file.filename))
    ensures var (f, ok) := AfterLine(EMPTY_FILE, DispositionLine(file));
      ok ==> f.name != file.name || f.filename != file.filename
  {
    hide IsHeader, StartsWithIgnoringCase, DispositionParams, DispositionLine, ParamsText, ParamsOf, Tokens, Lookup;
    hide ExtendedFilename;
    DispositionIsHeader(file);
    DispositionParamsReads(file);
    if OneLine(file.name) && OneLine(file.filename) {
      if ';' in file.name || '=' in file.name {
        NameLost(file);
      } else {
        FilenameLost(file);
      }
      forall value { ExtendedIsShorter(value); }
    }
  }

  lemma TypeLineLost(file: File, contentType: string)
    requires !NoOuterBlanks(contentType)
    ensures var (f, ok) := AfterLine(file, ContentTypeLine(File("", "", contentType)));
      ok ==> f.contentType != contentType
  {
    hide IsHeader, Trim, Blank;
    var prefix, rest := "Content-Type:", " " + contentType;
    assert ContentTypeLine(File("", "", contentType)) == prefix + rest;
    StartsWithSelf(prefix, rest);
    var a, b := TrimIs(rest);
  }

  /** The header lines of a file, read from an empty one, give it back exactly when its name and file name have no
      semicolon, no equals sign and no line end, and its content type no blanks around it. */
  lemma HeadersReadBackIff(file: File)
    ensures AfterLines(EMPTY_FILE, HeaderLines(file)) == Some(file) <==>
      NameOk(file.name) && NameOk(file.filename) && NoOuterBlanks(file.contentType)
  {
    hide AfterLine, DispositionLine, ContentTypeLine, NameOk, NoOuterBlanks;
    var lines := HeaderLines(file);
    var (named, ok) := AfterLine(EMPTY_FILE, lines[0]);
    assert AfterLines(EMPTY_FILE, lines) == if ok then AfterLines(named, lines[1..]) else None;
    if NameOk(file.name) && NameOk(file.filename) { DispositionReads(file); } else { DispositionLost(file); }
    if file.contentType == "" {
      assert lines[1..] == [];
      NoTypeNoBlanks(file);
    } else {
      assert lines[1..] == [ContentTypeLine(file)] && lines[1..][1..] == [];
      SameTypeLine(file);
      var (f, read) := AfterLine(named, ContentTypeLine(file));
      assert AfterLines(named, lines[1..]) == if read then Some(f) else None;
      TypeLineKeepsNames(named, file.contentType);
      if NoOuterBlanks(file.contentType) {
        ContentTypeReads(named, file.contentType);
      } else {
        TypeLineLost(named, file.contentType);
      }
    }
  }

  lemma NoTypeNoBlanks(file: File)
    ensures file.contentType == "" ==> NoOuterBlanks(file.contentType)
    ensures var (f, ok) := AfterLine(EMPTY_FILE, DispositionLine(file)); f.contentType == ""
  {
    hide IsHeader, StartsWithIgnoringCase, DispositionParams, DispositionLine, ParamsOf, Tokens, Lookup;
    hide ExtendedFilename;
    DispositionIsHeader(file);
  }

  lemma TypeLineKeepsNames(file: File, contentType: string)
    ensures var (f, ok) := AfterLine(file, ContentTypeLine(File("", "", contentType)));
      f.name == file.name && f.filename == file.filename
  {
    hide IsHeader, Trim;
    StartsWithSelf("Content-Type:", " " + contentType);
    assert ContentTypeLine(File("", "", contentType)) == "Content-Type:" + (" " + contentType);
  }

  /** The header lines of a file, read from an empty one, give the file back. */
  lemma HeadersReadBack(file: File)
    requires FileOk(file)
    ensures AfterLines(EMPTY_FILE, HeaderLines(file)) == Some(file)
    ensures forall i :: 0 <= i < |HeaderLines(file)| ==> LineOk(HeaderLines(file)[i])
  {
    hide AfterLines, DispositionLine, ContentTypeLine;
    HeadersReadBackIff(file);
    LinesAreOk(file);
  }

  lemma SameTypeLine(file: File)
    ensures ContentTypeLine(file) == ContentTypeLine(File("", "", file.contentType))
  {}

  lemma LinesAreOk(file: File)
    requires FileOk(file)
    ensures LineOk(DispositionLine(file)) && LineOk(ContentTypeLine(file))
  {
    var line := DispositionLine(file);
    assert '\r' !in "Content-Disposition: form-data; name=\"" && '\r' !in "; filename=\"" && '\r' !in "Content-Type: ";
    assert '\r' !in file.name && '\r' !in file.filename && '\r' !in file.contentType;
    assert line[0] == 'C';
  }
}
