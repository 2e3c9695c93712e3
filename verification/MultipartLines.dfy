/** How deps/httplib.h writes a multipart body and reads one of its header lines: the loops behind the meaning
    given in MultipartSpec. */
module MultipartLines {
  import opened Sequences
  import opened Wrappers
  import opened HttpText
  import opened HeaderFields
  import opened MultipartSpec

  lemma ItemsFrom(items: seq<Item>, i: nat, boundary: string)
    requires i <= |items|
    ensures i < |items| ==>
      var rest := ItemsText(items[i + 1..], boundary);
      ItemsText(items[i..], boundary) == ItemBegin(items[i].file, boundary) + (items[i].content + ItemEnd()) + rest
    ensures i == |items| ==> ItemsText(items[i..], boundary) == ""
  {
    hide ItemBegin, ItemEnd;
    if i < |items| { assert items[i..][0] == items[i] && items[i..][1..] == items[i + 1..]; }
  }

  /** serialize_multipart_formdata */
  method SerializeMultipartFormdata(items: seq<Item>, boundary: string, finish: bool) returns (body: string)
    ensures body == if finish then Serialized(items, boundary) else ItemsText(items, boundary)
  {
    hide ItemBegin, ItemEnd, ItemsText, Finish;
    body := "";
    assert items[0..] == items && body + ItemsText(items, boundary) == ItemsText(items, boundary);
    for i := 0 to |items|
      invariant body + ItemsText(items[i..], boundary) == ItemsText(items, boundary)
    {
      var begin, end := ItemBegin(items[i].file, boundary), items[i].content + ItemEnd();
      ItemsFrom(items, i, boundary);
      Append(body, begin + end, ItemsText(items[i + 1..], boundary));
      Append(body, begin, end);
      body := body + begin;
      body := body + end;
    }
    ItemsFrom(items, |items|, boundary);
    assert body + "" == body;
    if finish { body := body + Finish(boundary); }
  }

  /** parse_disposition_params */
  method ParseDispositionParams(s: string) returns (params: seq<(string, string)>)
    ensures params == ParamsOf(Tokens(s, ';'), {})
  {
    hide Tokens, KeyValue, TrimQuotes;
    params := [];
    var pieces := Split(s, ';');
    var cache: set<string> := {};
    assert pieces[0..] == pieces;
    for i := 0 to |pieces|
      invariant params + ParamsOf(pieces[i..], cache) == ParamsOf(pieces, {})
    {
      var kv := pieces[i];
      assert pieces[i..][0] == kv && pieces[i..][1..] == pieces[i + 1..];
      if kv !in cache {
        ghost var rest := ParamsOf(pieces[i + 1..], cache + {kv});
        cache := cache + {kv};
        var key, val := SplitKeyValue(kv);
        OneParamMore(params, (TrimQuotes(key), TrimQuotes(val)), rest);
        if key != "" { params := params + [(TrimQuotes(key), TrimQuotes(val))]; }
      }
    }
    assert pieces[|pieces|..] == [] && params + [] == params;
  }

  lemma OneParamMore(params: seq<(string, string)>, param: (string, string), rest: seq<(string, string)>)
    ensures params + ([param] + rest) == (params + [param]) + rest && params + ([] + rest) == params + rest
  {}

  /** The inner split: the first token is the key, each later one overwrites the value. */
  method SplitKeyValue(kv: string) returns (key: string, val: string)
    ensures (key, val) == KeyValue(kv)
  {
    hide Tokens;
    key, val := "", "";
    var parts := Split(kv, '=');
    TokensInside(kv, '=');
    for j := 0 to |parts|
      invariant key == (if j == 0 then "" else parts[0]) && val == (if j <= 1 then "" else parts[j - 1])
    {
      assert parts[j] in parts && parts[0] in parts;
      if key == "" { key := parts[j]; } else { val := parts[j]; }
    }
  }

  /** What the parser does with one header line that is not empty. */
  method HandleLine(file0: File, line: string) returns (file: File, ok: bool)
    ensures (file, ok) == AfterLine(file0, line)
  {
    hide IsHeader, Trim, DispositionParams, ParamsOf, Tokens, Lookup, ExtendedFilename, StartsWithIgnoringCase;
    file := file0;
    var header := ParseHeader(line);
    if header.None? { return file, false; }
    if StartsWithIgnoringCase(line, "Content-Type:") {
      PrefixFits(line, "Content-Type:");
      var contentType := TrimCopy(line[|"Content-Type:"|..]);
      return file.(contentType := contentType), true;
    }
    var text := DispositionParams(line);
    if text.Some? {
      var params := ParseDispositionParams(text.value);
      var name := Lookup(params, "name");
      if name.None? { return file, false; }
      file := file.(name := name.value);
      var filename := Lookup(params, "filename");
      if filename.Some? { file := file.(filename := filename.value); }
      var extended := Lookup(params, "filename*");
      if extended.Some? {
        var decoded := ExtendedFilename(extended.value);
        if decoded.None? { return file, false; }
        file := file.(filename := decoded.value);
      }
    }
    return file, true;
  }

  lemma PrefixFits(s: string, p: string)
    requires StartsWithIgnoringCase(s, p)
    ensures |p| <= |s|
  {}
}
