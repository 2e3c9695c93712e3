/** How header lines may be spelled: in any case, with any blanks, with parameters in any order. */
module HeaderSpelling {
  import opened Sequences
  import opened Wrappers
  import opened HttpText
  import opened HeaderFields
  import opened MultipartSpec
  import opened MultipartHeaders
  import UrlCodec

  // ----- Case -----

  /** An upper-case letter of ASCII and its lower-case one. */
  predicate IsPair(upper: char, lower: char) {
    'A' <= upper <= 'Z' && lower as int == upper as int + 32
  }

  /** The same text but for the case of its letters. */
  ghost predicate Respelled(a: string, b: string) {
    |a| == |b| && forall i :: 0 <= i < |a| ==> a[i] == b[i] || IsPair(a[i], b[i]) || IsPair(b[i], a[i])
  }

  lemma LowerIff(a: char, b: char)
    ensures Lower(a) == Lower(b) <==> a == b || IsPair(a, b) || IsPair(b, a)
  {}

  lemma StartsWithIff(s: string, p: string)
    ensures StartsWithIgnoringCase(s, p) <==> |p| <= |s| && Respelled(s[..|p|], p)
  {
    hide Lower, IsPair;
    forall a, b {
      LowerIff(a, b);
    }
  }

  lemma SameIff(a: string, b: string)
    ensures SameIgnoringCase(a, b) <==> Respelled(a, b)
  {
    StartsWithIff(a, b);
    assert |a| == |b| ==> a[..|b|] == a;
  }

  // ----- A field -----

  /** A field is read with its value decoded, unless its name spells Location in any case. */
  lemma LocationIsKept(name: string, value: string)
    requires IsField(name, value)
    ensures HeaderOf(name + ": " + value) ==
      Some((name, if Respelled(name, "Location") then value else UrlCodec.Decode(value, false)))
  {
    hide HeaderOf, IsField, UrlCodec.Decode, SameIgnoringCase;
    FieldReadsBack(name, value);
    SameIff(name, "Location");
  }

  ghost predicate Blanks(s: string) {
    forall i :: 0 <= i < |s| ==> s[i] in " \t"
  }

  /** Any blanks may surround the value. */
  lemma BlanksAreDropped(name: string, left: string, value: string, right: string)
    requires IsField(name, value) && Blanks(left) && Blanks(right)
    ensures HeaderOf(name + ":" + left + value + right) == HeaderOf(name + ": " + value)
  {
    FieldReadsBack(name, value);
    TrimmedField(name, left, value, right);
    hide TrimLeft, TrimRight, IndexOf, ValueOf, IsField;
    var t := name + ":" + (left + value);
    assert t[..|name|] == name && t[|name| + 1..] == left + value;
    TrimmedValue(left, value);
  }

  lemma TrimmedField(name: string, left: string, value: string, right: string)
    requires IsField(name, value) && Blanks(right)
    ensures var t := name + ":" + (left + value);
      TrimRight(name + ":" + left + value + right) == t && IndexOf(t, ':') == |name| < |t|
  {
    var t := name + ":" + (left + value);
    var line := t + right;
    assert line == name + ":" + left + value + right;
    assert t[|t| - 1] == value[|value| - 1] && line[..|t|] == t;
    TrimRightAt(line, |t|);
    assert forall j :: 0 <= j < |name| ==> t[j] == name[j];
    IndexOfIs(t, ':', |name|);
  }

  lemma TrimmedValue(left: string, value: string)
    requires Blanks(left) && value != "" && !Blank(value[0])
    ensures TrimLeft(left + value) == value
  {
    TrimLeftAt(left + value, |left|);
    assert (left + value)[|left|..] == value;
  }

  /** Without a colon, without a name, or with blanks alone behind the colon, a line is no field. */
  lemma NoField(line: string, name: string, blanks: string)
    requires Blanks(blanks)
    ensures ':' !in line ==> HeaderOf(line) == None
    ensures HeaderOf(":" + line) == None
    ensures ':' !in name ==> HeaderOf(name + ":" + blanks) == None
  {
    if ':' !in line { NoColon(line); }
    NoName(line);
    if ':' !in name { NoValue(name, blanks); }
  }

  lemma NoColon(line: string)
    requires ':' !in line
    ensures HeaderOf(line) == None
  {
    TrimRightIs(line);
    hide TrimRight, TrimLeft;
    IndexOfIs(TrimRight(line), ':', |TrimRight(line)|);
  }

  lemma NoName(line: string)
    ensures HeaderOf(":" + line) == None
  {
    TrimRightIs(":" + line);
    hide TrimRight, TrimLeft;
    var t := TrimRight(":" + line);
    if t != "" { assert t[0] == (":" + line)[0]; }
  }

  lemma NoValue(name: string, blanks: string)
    requires ':' !in name && Blanks(blanks)
    ensures HeaderOf(name + ":" + blanks) == None
  {
    var line, t := name + ":" + blanks, name + ":";
    assert line[..|t|] == t;
    TrimRightAt(line, |t|);
    hide TrimRight, TrimLeft, IndexOf;
    assert forall j :: 0 <= j < |name| ==> t[j] == name[j];
    IndexOfIs(t, ':', |name|);
    TrimLeftAt("", 0);
    assert t[|name| + 1..] == "";
  }

  /** Trimming drops blanks and tabs on both sides and nothing else. */
  lemma TrimExactly(left: string, text: string, right: string)
    requires Blanks(left) && Blanks(right) && (text != "" ==> text[0] !in " \t" && text[|text| - 1] !in " \t")
    ensures Trim(left + text + right) == text
  {
    var s := left + text + right;
    if text == "" {
      assert s == left + right;
      assert forall i :: 0 <= i < |s| ==> Blank(s[i]);
      TrimBlank(s);
    } else {
      TrimmedAround(left, text, right);
    }
  }

  // ----- The header lines of a part -----

  /** A content type is read whatever the case of the field's name, without the blanks around it; a blank one is
      refused. */
  lemma TypeLineIs(file: File, name: string, text: string)
    requires Respelled(name, "Content-Type:")
    ensures AfterLine(file, name + text) ==
      if Trim(text) == "" then (file, false) else (file.(contentType := Trim(text)), true)
  {
    var line := name + text;
    assert line[..|name|] == name && line[|name|..] == text;
    StartsWithIff(line, "Content-Type:");
    RespelledColon(name, "Content-Type:");
    assert line == name[..|name| - 1] + ":" + text;
    hide Trim, Respelled, StartsWithIgnoringCase, IsHeader;
    HeaderIff(name[..|name| - 1], text);
  }

  lemma RespelledColon(a: string, b: string)
    requires Respelled(a, b) && b != "" && b[|b| - 1] == ':' && ':' !in b[..|b| - 1]
    ensures a != "" && a[|a| - 1] == ':' && ':' !in a[..|a| - 1]
  {
    assert forall i :: 0 <= i < |b| - 1 ==> b[..|b| - 1][i] == b[i] != ':' && a[..|a| - 1][i] == a[i];
  }

  lemma HeaderIff(name: string, text: string)
    requires name != "" && ':' !in name
    ensures IsHeader(name + ":" + text) <==> Trim(text) != ""
  {
    var a, b := TrimIs(text);
    HeaderIsField(name + ":" + text);
    hide IsHeader, HeaderOf, Trim;
    if a == b {
      assert forall j :: 0 <= j < |text| ==> Blank(text[j]);
      NoValue(name, text);
    } else {
      var left, value, right := text[..a], text[a..b], text[b..];
      hide Blank;
      assert text == left + value + right && name + ":" + text == name + ":" + left + value + right;
      BlanksAreDropped(name, left, value, right);
      FieldReadsBack(name, value);
    }
  }

  lemma HeaderIsField(line: string)
    ensures HeaderOf(line).Some? <==> IsHeader(line)
  {
    hide IsHeader;
  }

  /** The parameters of a disposition are found whatever the case of its words and the spaces between them. */
  lemma DispositionIs(name: string, before: string, kind: string, behind: string, text: string)
    requires Respelled(name, "Content-Disposition:") && Respelled(kind, "form-data;")
    requires UrlCodec.Spaces(before) && UrlCodec.Spaces(behind)
    requires text != "" ==> text[0] != ' ' && !(9 <= text[0] as int <= 13)
    ensures DispositionParams(name + (before + (kind + (behind + text)))) ==
      if '\r' in text || '\n' in text then None else Some(text)
  {
    assert kind[0] == 'f' || kind[0] == 'F';
    hide UrlCodec.SkipSpace, StartsWithIgnoringCase;
    var rest := kind + (behind + text);
    PrefixIs(name, "Content-Disposition:", before + rest);
    assert rest[0] == kind[0];
    UrlCodec.SpacesAreSkipped(before, rest);
    PrefixIs(kind, "form-data;", behind + text);
    UrlCodec.SpacesAreSkipped(behind, text);
  }

  lemma PrefixIs(a: string, p: string, rest: string)
    requires Respelled(a, p)
    ensures StartsWithIgnoringCase(a + rest, p) && (a + rest)[|p|..] == rest
  {
    StartsWithIff(a + rest, p);
    assert (a + rest)[..|p|] == a;
  }

  /** Such a line is no content type but a header line. */
  lemma DispositionIsRead(name: string, before: string, kind: string, rest: string)
    requires Respelled(name, "Content-Disposition:") && Respelled(kind, "form-data;")
    ensures var line := name + (before + (kind + rest));
      IsHeader(line) && !StartsWithIgnoringCase(line, "Content-Type:")
  {
    var text := before + (kind + rest);
    var line := name + text;
    StartsWithIff(line, "Content-Type:");
    assert |"Content-Disposition:"| == 20 && name[8] == line[8] == line[..|"Content-Type:"|][8];
    RespelledColon(name, "Content-Disposition:");
    assert kind[0] == 'f' || kind[0] == 'F';
    assert text[|before|] == kind[0];
    assert line == name[..|name| - 1] + ":" + text;
    NotBlank(text, |before|);
    hide IsHeader, Trim, Respelled;
    HeaderIff(name[..|name| - 1], text);
  }

  lemma NotBlank(s: string, i: nat)
    requires i < |s| && s[i] !in " \t"
    ensures Trim(s) != ""
  {
    var a, b := TrimIs(s);
  }

  /** A name is required; a file name is optional; an extended one, decoded, takes its place, and one that is not
      spelled as such is refused. */
  lemma DispositionReads(file: File, name: string, before: string, kind: string, behind: string, text: string)
    requires Respelled(name, "Content-Disposition:") && Respelled(kind, "form-data;")
    requires UrlCodec.Spaces(before) && UrlCodec.Spaces(behind)
    requires text != "" ==> text[0] != ' ' && !(9 <= text[0] as int <= 13)
    requires '\r' !in text && '\n' !in text
    ensures var params := ParamsOf(Tokens(text, ';'), {});
      var (found, plain, extended) := (Lookup(params, "name"), Lookup(params, "filename"), Lookup(params, "filename*"));
      var (next, ok) := AfterLine(file, name + (before + (kind + (behind + text))));
      && (found.None? ==> (next, ok) == (file, false))
      && (found.Some? ==> next.name == found.value && next.contentType == file.contentType)
      && (found.Some? && extended.None? ==>
            ok && next.filename == if plain.Some? then plain.value else file.filename)
      && (found.Some? && extended.Some? ==> forall prefix, coded ::
            Respelled(prefix, "UTF-8''") && extended.value == prefix + coded ==>
              && ok == (coded != "" && '\r' !in coded && '\n' !in coded)
              && (ok ==> next.filename == UrlCodec.Decode(coded, false)))
      && (found.Some? && extended.Some? && ok ==> exists prefix, coded ::
            Respelled(prefix, "UTF-8''") && extended.value == prefix + coded)
  {
    DispositionIs(name, before, kind, behind, text);
    DispositionIsRead(name, before, kind, behind + text);
    hide IsHeader, StartsWithIgnoringCase, DispositionParams, ParamsOf, Tokens, Lookup, ExtendedFilename, Respelled;
    var extended := Lookup(ParamsOf(Tokens(text, ';'), {}), "filename*");
    if extended.Some? { ExtendedIs(extended.value); }
  }

  lemma ExtendedIs(value: string)
    ensures forall prefix, coded :: Respelled(prefix, "UTF-8''") && value == prefix + coded ==>
      ExtendedFilename(value) ==
        if coded != "" && '\r' !in coded && '\n' !in coded then Some(UrlCodec.Decode(coded, false)) else None
    ensures ExtendedFilename(value).Some? ==>
      exists prefix, coded :: Respelled(prefix, "UTF-8''") && value == prefix + coded
  {
    hide UrlCodec.Decode, StartsWithIgnoringCase, Respelled;
    forall prefix, coded | Respelled(prefix, "UTF-8''") && value == prefix + coded
      ensures ExtendedFilename(value) ==
        if coded != "" && '\r' !in coded && '\n' !in coded then Some(UrlCodec.Decode(coded, false)) else None
    {
      PrefixIs(prefix, "UTF-8''", coded);
    }
    if ExtendedFilename(value).Some? {
      StartsWithIff(value, "UTF-8''");
      assert value == value[..7] + value[7..] && |"UTF-8''"| == 7;
    }
  }

  // ----- Parameters -----

  /** What stands on the two sides of the equals sign of a parameter. */
  ghost predicate IsParam(key: string, value: string) {
    && key != "" && ';' !in key && '=' !in key && ';' !in value && '=' !in value
    && NoOuterBlanks(key) && NoOuterBlanks(value)
  }

  lemma ParamToken(left: string, key: string, value: string, right: string)
    requires IsParam(key, value) && Blanks(left) && Blanks(right)
    ensures var kv := key + "=" + value;
      && ';' !in left + kv + right && Token(left + kv + right) == [kv] && KeyValue(kv) == (key, value)
  {
    var kv := key + "=" + value;
    assert kv[0] == key[0] && kv[|kv| - 1] == if value == "" then '=' else value[|value| - 1];
    TrimmedAround(left, kv, right);
    TokenIs(left + kv + right);
    KeyToken(key, value);
  }

  lemma TrimmedAround(left: string, text: string, right: string)
    requires Blanks(left) && Blanks(right) && text != "" && !Blank(text[0]) && !Blank(text[|text| - 1])
    ensures Trim(left + text + right) == text
  {
    var s := left + text + right;
    assert s[|left|..|left| + |text|] == text && s[0..|s|] == s;
    assert s[|left|] == text[0] && s[|left| + |text| - 1] == text[|text| - 1];
    TrimSlice(s, 0, |s|, |left|, |left| + |text|);
  }

  lemma KeyToken(key: string, value: string)
    requires key != "" && '=' !in key && '=' !in value && NoOuterBlanks(key) && NoOuterBlanks(value)
    ensures KeyValue(key + "=" + value) == (key, value)
  {
    hide Token, Tokens, Trim;
    assert "=" == ['='];
    TokensAt(key, '=', value);
    TokensSingle(value, '=');
    TrimKeeps(key);
    if value != "" { TrimKeeps(value); }
    TokenIs(key);
    TokenIs(value);
  }

  /** A parameter with blanks around it adds its key and its value without quotes, unless it is spelled as an earlier
      one. */
  lemma ParamAdds(text: string, left: string, key: string, value: string, right: string)
    requires IsParam(key, value) && Blanks(left) && Blanks(right)
    ensures var (kv, tokens) := (key + "=" + value, Tokens(text, ';'));
      ParamsOf(Tokens(text + [';'] + (left + kv + right), ';'), {}) ==
        ParamsOf(tokens, {}) + if kv in tokens then [] else [(TrimQuotes(key), TrimQuotes(value))]
    ensures ParamsOf(Tokens(left + (key + "=" + value) + right, ';'), {}) == [(TrimQuotes(key), TrimQuotes(value))]
  {
    var kv := key + "=" + value;
    ParamToken(left, key, value, right);
    hide Tokens, Token, TrimQuotes, IsParam;
    assert kv != "" && key != "" by { hide *; ParamNotEmpty(key, value); }
    TokensBoth(text, ';', left + kv + right);
    TokensSingle(left + kv + right, ';');
    ParamLast(Tokens(text, ';'), kv, {});
    ParamLast([], kv, {});
    assert [] + [kv] == [kv];
  }

  lemma ParamNotEmpty(key: string, value: string)
    requires IsParam(key, value)
    ensures key + "=" + value != "" && key != ""
  {}

  lemma {:induction false} ParamLast(tokens: seq<string>, kv: string, cache: set<string>)
    requires KeyValue(kv).0 != ""
    ensures ParamsOf(tokens + [kv], cache) == ParamsOf(tokens, cache) +
      if kv in tokens || kv in cache then [] else [(TrimQuotes(KeyValue(kv).0), TrimQuotes(KeyValue(kv).1))]
    decreases |tokens|
  {
    hide KeyValue, TrimQuotes;
    if tokens == [] {
      assert [] + [kv] == [kv] && [kv][1..] == [];
    } else {
      assert (tokens + [kv])[1..] == tokens[1..] + [kv] && tokens == [tokens[0]] + tokens[1..];
      ParamLast(tokens[1..], kv, cache);
      ParamLast(tokens[1..], kv, cache + {tokens[0]});
    }
  }

  /** Quotes are dropped when there is one on either side, and otherwise stay. */
  lemma QuotesAre(s: string)
    ensures TrimQuotes("\"" + s + "\"") == s
    ensures (s == "" || s == "\"" || s[0] != '"' || s[|s| - 1] != '"') ==> TrimQuotes(s) == s
  {}

  /** The first parameter of a key is taken. */
  lemma {:induction false} LookupIff(params: seq<(string, string)>, key: string, value: string)
    ensures Lookup(params, key) == Some(value) <==>
      exists i :: 0 <= i < |params| && params[i] == (key, value) && forall j :: 0 <= j < i ==> params[j].0 != key
  {
    if params != [] {
      LookupIff(params[1..], key, value);
      assert forall i :: 1 <= i < |params| ==> params[i] == params[1..][i - 1];
      if params[0].0 != key && Lookup(params, key) == Some(value) {
        var i :| 0 <= i < |params[1..]| && params[1..][i] == (key, value)
          && forall j :: 0 <= j < i ==> params[1..][j].0 != key;
        assert params[i + 1] == (key, value);
      }
      if i :| 0 <= i < |params| && params[i] == (key, value) && forall j :: 0 <= j < i ==> params[j].0 != key {
        if i > 0 {
          assert params[0].0 != key && params[1..][i - 1] == (key, value);
          assert forall j :: 0 <= j < i - 1 ==> params[1..][j].0 == params[j + 1].0;
        }
      }
    }
  }

  /** Any other header line of a part is skipped, and what is no header line is refused. */
  lemma OtherLines(file: File, name: string, text: string, line: string)
    requires name != "" && ':' !in name && NoOuterBlanks(text)
    ensures !Respelled(name, "Content-Type") && !Respelled(name, "Content-Disposition") && text != "" ==>
      AfterLine(file, name + ":" + text) == (file, true)
    ensures text == "" || ':' !in line ==> AfterLine(file, if text == "" then name + ":" else line) == (file, false)
  {
    if text != "" {
      TrimKeeps(text);
      hide Trim, IsHeader, Respelled, StartsWithIgnoringCase;
      HeaderIff(name, text);
      WordOfField(name, text, "Content-Type");
      WordOfField(name, text, "Content-Disposition");
      assert "Content-Type" + ":" == "Content-Type:" && "Content-Disposition" + ":" == "Content-Disposition:";
    } else {
      NoValue(name, "");
      assert name + ":" + "" == name + ":";
    }
    if ':' !in line { NoColon(line); }
  }

  lemma WordOfField(name: string, text: string, word: string)
    requires ':' !in name && ':' !in word
    ensures StartsWithIgnoringCase(name + ":" + text, word + ":") ==> Respelled(name, word)
  {
    var line, p := name + ":" + text, word + ":";
    StartsWithIff(line, p);
    if StartsWithIgnoringCase(line, p) {
      var front := line[..|p|];
      assert p[..|p| - 1] == word;
      RespelledColon(front, p);
      assert forall i :: 0 <= i < |word| ==> front[..|p| - 1][i] == line[i];
      IndexOfIs(line, ':', |word|);
      IndexOfIs(line, ':', |name|);
      assert forall i :: 0 <= i < |word| ==> front[i] == name[i] && p[i] == word[i];
    }
  }
}
