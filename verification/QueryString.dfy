/** params_to_query_str and parse_query_text of deps/httplib.h, over a multimap of parameters. */
module QueryString {
  import opened Sequences
  import opened HttpText
  import UrlCodec

  /** A std::multimap in iteration order: sorted by key, equal keys in the order they were added. */
  type Params = seq<(string, string)>

  /** std::less on byte strings */
  predicate Less(a: string, b: string) {
    if b == "" then false
    else if a == "" then true
    else a[0] < b[0] || (a[0] == b[0] && Less(a[1..], b[1..]))
  }

  function Emplace(params: Params, key: string, value: string): Params {
    if params == [] || Less(key, params[0].0) then [(key, value)] + params
    else [params[0]] + Emplace(params[1..], key, value)
  }

  ghost predicate Sorted(params: Params) {
    forall i, j :: 0 <= i < j < |params| ==> !Less(params[j].0, params[i].0)
  }

  // ----- Printing -----

  function PairText(pair: (string, string)): string
    requires UrlCodec.IsBytes(pair.1)
  {
    pair.0 + "=" + UrlCodec.Encode(pair.1)
  }

  ghost predicate ByteValues(params: Params) {
    forall i :: 0 <= i < |params| ==> UrlCodec.IsBytes(params[i].1)
  }

  function Query(params: Params): string
    requires ByteValues(params)
  {
    if params == [] then ""
    else if |params| == 1 then PairText(params[0])
    else PairText(params[0]) + "&" + Query(params[1..])
  }

  /** The query printed so far, as the loop builds it. */
  function QueryUpTo(params: Params, n: nat): string
    requires n <= |params| && ByteValues(params)
  {
    if n == 0 then "" else (if n == 1 then "" else QueryUpTo(params, n - 1) + "&") + PairText(params[n - 1])
  }

  method ParamsToQueryStr(params: Params) returns (query: string)
    requires ByteValues(params)
    ensures query == Query(params)
  {
    hide Query, PairText, UrlCodec.Encode;
    query := "";
    for i := 0 to |params|
      invariant query == QueryUpTo(params, i)
    {
      if i != 0 { query := query + "&"; }
      var encoded := UrlCodec.EncodeQueryParam(params[i].1);
      Glue(query, params[i]);
      query := query + params[i].0;
      query := query + "=";
      query := query + encoded;
    }
    QueryUpToAll(params, |params|);
  }

  lemma Glue(query: string, pair: (string, string))
    requires UrlCodec.IsBytes(pair.1)
    ensures query + pair.0 + "=" + UrlCodec.Encode(pair.1) == query + PairText(pair)
    ensures "" + PairText(pair) == PairText(pair)
  {
    hide UrlCodec.Encode;
  }

  lemma {:induction false} QueryUpToAll(params: Params, n: nat)
    requires n <= |params| && ByteValues(params)
    ensures Query(params[..n]) == QueryUpTo(params, n)
    ensures params[..|params|] == params
  {
    hide PairText;
    if n > 1 {
      QueryUpToAll(params, n - 1);
      QueryAppend(params[..n - 1], params[n - 1]);
      assert params[..n] == params[..n - 1] + [params[n - 1]];
    } else if n == 1 {
      assert "" + PairText(params[0]) == PairText(params[0]);
    }
  }

  lemma {:induction false} QueryAppend(params: Params, last: (string, string))
    requires params != [] && ByteValues(params) && UrlCodec.IsBytes(last.1)
    ensures ByteValues(params + [last])
    ensures Query(params + [last]) == Query(params) + "&" + PairText(last)
  {
    hide PairText;
    var all := params + [last];
    assert all[1..] == params[1..] + [last];
    if |params| == 1 {
      assert all[1..] == [last];
    } else {
      QueryAppend(params[1..], last);
      var first, rest, more := PairText(params[0]), Query(params[1..]), "&" + PairText(last);
      Append(first + "&", rest, more);
      Append(rest, "&", PairText(last));
      Append(first + "&" + rest, "&", PairText(last));
    }
  }

  // ----- Parsing -----

  /** divide at the first equals sign, if any */
  function KeyOf(kv: string): string {
    kv[..IndexOf(kv, '=')]
  }

  function ValueOf(kv: string): string {
    var i := IndexOf(kv, '=');
    if i == |kv| then "" else kv[i + 1..]
  }

  function AddPair(params: Params, kv: string): Params {
    if KeyOf(kv) == "" then params
    else Emplace(params, UrlCodec.Decode(KeyOf(kv), true), UrlCodec.Decode(ValueOf(kv), true))
  }

  /** A text seen before is skipped. */
  function Parsed(tokens: seq<string>, cache: set<string>, params: Params): Params {
    if tokens == [] then params
    else if tokens[0] in cache then Parsed(tokens[1..], cache, params)
    else Parsed(tokens[1..], cache + {tokens[0]}, AddPair(params, tokens[0]))
  }

  method ParseQueryText(s: string, params: Params) returns (result: Params)
    ensures result == Parsed(Tokens(s, '&'), {}, params)
  {
    hide Tokens, Emplace, UrlCodec.Decode;
    result := params;
    var tokens := Split(s, '&');
    var cache: set<string> := {};
    for i := 0 to |tokens|
      invariant Parsed(tokens[i..], cache, result) == Parsed(tokens, {}, params)
    {
      var kv := tokens[i];
      assert tokens[i..][0] == kv && tokens[i..][1..] == tokens[i + 1..];
      if kv !in cache {
        cache := cache + {kv};
        var found := IndexOf(kv, '=');
        var key := kv[..found];
        var val := if found == |kv| then "" else kv[found + 1..];
        if key != "" {
          var decodedKey := UrlCodec.DecodeUrl(key, true);
          var decodedVal := UrlCodec.DecodeUrl(val, true);
          result := Emplace(result, decodedKey, decodedVal);
        }
      }
    }
    assert tokens[|tokens|..] == [];
  }

  // ----- What one piece adds -----

  /** Lexicographic order of the characters. */
  lemma {:induction false} LessIs(a: string, b: string)
    ensures Less(a, b) <==> exists n :: 0 <= n <= |a| && n < |b| && a[..n] == b[..n] && (n == |a| || a[n] < b[n])
  {
    if b != "" && a != "" {
      LessIs(a[1..], b[1..]);
      if a[0] == b[0] {
        if Less(a, b) {
          var n :| 0 <= n <= |a[1..]| && n < |b[1..]| && a[1..][..n] == b[1..][..n]
            && (n == |a[1..]| || a[1..][n] < b[1..][n]);
          assert a[..n + 1] == [a[0]] + a[1..][..n] && b[..n + 1] == [b[0]] + b[1..][..n];
        }
        if n :| 0 <= n <= |a| && n < |b| && a[..n] == b[..n] && (n == |a| || a[n] < b[n]) {
          assert n > 0;
          assert a[1..][..n - 1] == a[..n][1..] && b[1..][..n - 1] == b[..n][1..];
        }
      } else {
        assert a[..0] == b[..0];
        if n :| 0 <= n <= |a| && n < |b| && a[..n] == b[..n] && (n == |a| || a[n] < b[n]) {
          if n > 0 { assert a[..n][0] == b[..n][0]; }
        }
      }
    } else if b != "" {
      assert a[..0] == b[..0];
    }
  }

  /** A pair is added behind those with a smaller or the same key and in front of the others. */
  lemma {:induction false} EmplaceIs(params: Params, key: string, value: string) returns (i: nat)
    requires Sorted(params)
    ensures i <= |params| && Emplace(params, key, value) == params[..i] + [(key, value)] + params[i..]
    ensures forall j :: 0 <= j < i ==> !Less(key, params[j].0)
    ensures forall j :: i <= j < |params| ==> Less(key, params[j].0)
  {
    if params == [] {
      i := 0;
    } else if Less(key, params[0].0) {
      i := 0;
      assert params[..0] == [] && params[0..] == params;
      forall j | 0 <= j < |params| ensures Less(key, params[j].0) {
        if j > 0 { LessSpreads(key, params[0].0, params[j].0); }
      }
    } else {
      var k := EmplaceIs(params[1..], key, value);
      i := k + 1;
      assert params[..i] == [params[0]] + params[1..][..k] && params[1..][k..] == params[i..];
      assert forall j :: 1 <= j < |params| ==> params[j] == params[1..][j - 1];
    }
  }

  lemma {:induction false} LessSpreads(a: string, b: string, c: string)
    requires Less(a, b) && !Less(c, b)
    ensures Less(a, c)
  {
    if a != "" && b != "" && c != "" && a[0] == b[0] == c[0] { LessSpreads(a[1..], b[1..], c[1..]); }
  }

  /** A piece without an equals sign adds its decoded text with an empty value. */
  lemma PlainPieceAdds(piece: string, params: Params)
    requires piece != "" && '&' !in piece && '=' !in piece && !Blank(piece[0]) && !Blank(piece[|piece| - 1])
    ensures Parsed(Tokens(piece, '&'), {}, params) == Emplace(params, UrlCodec.Decode(piece, true), "")
  {
    hide Tokens, Token, Trim, Blank, Emplace, UrlCodec.Decode;
    TokensSingle(piece, '&');
    TrimKeeps(piece);
    TokenIs(piece);
    OneToken(piece, params);
    IndexOfIs(piece, '=', |piece|);
    assert piece[..|piece|] == piece;
    UrlCodec.DecodeNil(true);
  }

  /** A piece with one is divided at the first: what stands in front of it is the key and all behind it the value. */
  lemma PairPieceAdds(key: string, value: string, params: Params)
    requires '&' !in key && '=' !in key && '&' !in value
    requires var piece := key + "=" + value; !Blank(piece[0]) && !Blank(piece[|piece| - 1])
    ensures Parsed(Tokens(key + "=" + value, '&'), {}, params) ==
      if key == "" then params else Emplace(params, UrlCodec.Decode(key, true), UrlCodec.Decode(value, true))
  {
    hide Tokens, Token, Trim, Blank, Emplace, UrlCodec.Decode;
    var piece := key + "=" + value;
    TokensSingle(piece, '&');
    TrimKeeps(piece);
    TokenIs(piece);
    OneToken(piece, params);
    IndexOfIs(piece, '=', |key|);
    assert piece[..|key|] == key && piece[|key| + 1..] == value;
  }

  lemma OneToken(kv: string, params: Params)
    ensures Parsed([kv], {}, params) == AddPair(params, kv)
  {
    hide AddPair;
    assert [kv][1..] == [];
  }

  /** The pieces of a text are added one after the other; of equal ones only the first. */
  lemma {:induction false} PiecesAdd(tokens: seq<string>, last: string, cache: set<string>, params: Params)
    ensures Parsed(tokens + [last], cache, params) ==
      if last in tokens || last in cache then Parsed(tokens, cache, params)
      else Parsed([last], {}, Parsed(tokens, cache, params))
    decreases |tokens|
  {
    hide AddPair;
    if tokens == [] {
      assert [] + [last] == [last] && [last][1..] == [];
    } else {
      var first := tokens[0];
      assert (tokens + [last])[1..] == tokens[1..] + [last] && tokens == [first] + tokens[1..];
      PiecesAdd(tokens[1..], last, cache, params);
      PiecesAdd(tokens[1..], last, cache + {first}, AddPair(params, first));
    }
  }

  // ----- Round trip -----

  /** A key survives unquoted: it is not empty, does not start with a blank, holds no & or =, and has nothing in it
      that is decoded. */
  ghost predicate PlainKey(key: string) {
    key != "" && !Blank(key[0]) && '&' !in key && '=' !in key && UrlCodec.NothingToDecode(key, true)
  }

  ghost predicate Printable(params: Params) {
    Sorted(params) && ByteValues(params) && forall i :: 0 <= i < |params| ==> PlainKey(params[i].0)
  }

  lemma PairTextShape(pair: (string, string))
    requires PlainKey(pair.0) && UrlCodec.IsBytes(pair.1)
    ensures var kv := PairText(pair); '&' !in kv && kv != "" && Token(kv) == [kv]
  {
    hide Token, Trim, UrlCodec.Encode;
    var kv, encoded := PairText(pair), UrlCodec.Encode(pair.1);
    UrlCodec.EncodeAlphabet(pair.1);
    assert kv[0] == pair.0[0];
    assert '&' !in pair.0;
    var last := kv[|kv| - 1];
    assert last == '=' || last in encoded;
    TrimKeeps(kv);
    TokenIs(kv);
  }

  /** Reading one printed pair gives back its key and value. */
  lemma PairReads(pair: (string, string), params: Params)
    requires PlainKey(pair.0) && UrlCodec.IsBytes(pair.1)
    ensures AddPair(params, PairText(pair)) == Emplace(params, pair.0, pair.1)
  {
    hide Emplace, UrlCodec.Encode, UrlCodec.Decode;
    var kv := PairText(pair);
    IndexOfIs(kv, '=', |pair.0|);
    assert KeyOf(kv) == pair.0 && ValueOf(kv) == UrlCodec.Encode(pair.1);
    UrlCodec.DecodeSameIff(pair.0, true);
    UrlCodec.DecodeEncode(pair.1, true);
  }

  lemma PairTextInjective(a: (string, string), b: (string, string))
    requires PlainKey(a.0) && UrlCodec.IsBytes(a.1) && PlainKey(b.0) && UrlCodec.IsBytes(b.1)
    requires PairText(a) == PairText(b)
    ensures a == b
  {
    hide UrlCodec.Encode, UrlCodec.Decode;
    var kv := PairText(a);
    IndexOfIs(kv, '=', |a.0|);
    IndexOfIs(kv, '=', |b.0|);
    assert a.0 == kv[..|a.0|] == b.0;
    assert UrlCodec.Encode(a.1) == kv[|a.0| + 1..] == UrlCodec.Encode(b.1);
    UrlCodec.DecodeEncode(a.1, true);
    UrlCodec.DecodeEncode(b.1, true);
  }

  function PairTexts(params: Params): seq<string>
    requires ByteValues(params)
  {
    if params == [] then [] else [PairText(params[0])] + PairTexts(params[1..])
  }

  lemma {:induction false} QueryTokens(params: Params)
    requires ByteValues(params) && forall i :: 0 <= i < |params| ==> PlainKey(params[i].0)
    ensures Tokens(Query(params), '&') == PairTexts(params)
  {
    hide PairText, PlainKey, Tokens, Token;
    if params == [] {
      TokensSingle("", '&');
      TokenIs("");
    } else {
      PairTextShape(params[0]);
      QueryTokens(params[1..]);
      if |params| == 1 {
        TokensSingle(PairText(params[0]), '&');
      } else {
        TokensAt(PairText(params[0]), '&', Query(params[1..]));
        assert "&" == ['&'];
      }
    }
  }

  /** The pairs without the repetitions of earlier ones. */
  function Dedup(params: Params, seen: set<(string, string)>): Params {
    if params == [] then []
    else if params[0] in seen then Dedup(params[1..], seen)
    else [params[0]] + Dedup(params[1..], seen + {params[0]})
  }

  lemma {:induction false} EmplaceLast(params: Params, key: string, value: string)
    requires forall i :: 0 <= i < |params| ==> !Less(key, params[i].0)
    ensures Emplace(params, key, value) == params + [(key, value)]
  {
    hide Less;
    if params != [] { EmplaceLast(params[1..], key, value); }
  }

  ghost predicate SeenTexts(seen: set<(string, string)>, cache: set<string>) {
    && (forall p :: p in seen ==> PlainKey(p.0) && UrlCodec.IsBytes(p.1) && PairText(p) in cache)
    && (forall t :: t in cache ==> exists p :: p in seen && UrlCodec.IsBytes(p.1) && PairText(p) == t)
  }

  lemma SeenAfter(seen: set<(string, string)>, cache: set<string>, pair: (string, string))
    requires SeenTexts(seen, cache) && PlainKey(pair.0) && UrlCodec.IsBytes(pair.1)
    ensures SeenTexts(seen + {pair}, cache + {PairText(pair)})
    ensures PairText(pair) in cache <==> pair in seen
  {
    hide PairText, PlainKey, UrlCodec.IsBytes;
    if PairText(pair) in cache {
      var p :| p in seen && UrlCodec.IsBytes(p.1) && PairText(p) == PairText(pair);
      PairTextInjective(p, pair);
    }
    forall t | t in cache + {PairText(pair)}
      ensures exists p :: p in seen + {pair} && UrlCodec.IsBytes(p.1) && PairText(p) == t
    {
      if t in cache {
        var p :| p in seen && UrlCodec.IsBytes(p.1) && PairText(p) == t;
        assert p in seen + {pair};
      } else {
        assert pair in seen + {pair};
      }
    }
  }

  lemma {:induction false} ParsePairs(done: Params, params: Params, seen: set<(string, string)>, cache: set<string>)
    requires Printable(params) && SeenTexts(seen, cache)
    requires forall i, j :: 0 <= i < |done| && 0 <= j < |params| ==> !Less(params[j].0, done[i].0)
    ensures Parsed(PairTexts(params), cache, done) == done + Dedup(params, seen)
    decreases |params|
  {
    hide PairText, PlainKey, Less, Emplace, SeenTexts, AddPair, UrlCodec.IsBytes;
    if params != [] {
      var pair, texts := params[0], PairTexts(params);
      assert texts[0] == PairText(pair) && texts[1..] == PairTexts(params[1..]);
      SeenAfter(seen, cache, pair);
      PairReads(pair, done);
      EmplaceLast(done, pair.0, pair.1);
      if pair in seen {
        ParsePairs(done, params[1..], seen, cache);
      } else {
        ParsePairs(done + [pair], params[1..], seen + {pair}, cache + {PairText(pair)});
        assert done + [pair] + Dedup(params[1..], seen + {pair}) == done + ([pair] + Dedup(params[1..], seen + {pair}));
      }
    }
  }

  /** Parsing a printed query gives the parameters without their repeated pairs. */
  lemma ParsePrinted(params: Params)
    requires Printable(params)
    ensures Parsed(Tokens(Query(params), '&'), {}, []) == Dedup(params, {})
  {
    hide PlainKey, PairText;
    QueryTokens(params);
    ParsePairs([], params, {}, {});
    assert [] + Dedup(params, {}) == Dedup(params, {});
  }

  ghost predicate NoRepeats(params: Params) {
    forall i, j :: 0 <= i < j < |params| ==> params[i] != params[j]
  }

  lemma {:induction false} DedupSize(params: Params, seen: set<(string, string)>)
    ensures |Dedup(params, seen)| <= |params|
    ensures Dedup(params, seen) == params <==> NoRepeats(params) && forall i :: 0 <= i < |params| ==> params[i] !in seen
  {
    if params != [] {
      var first, rest := params[0], params[1..];
      assert params == [first] + rest;
      if first in seen {
        DedupSize(rest, seen);
        assert params[0] in seen;
      } else {
        DedupSize(rest, seen + {first});
        if Dedup(params, seen) == params { assert Dedup(rest, seen + {first}) == params[1..]; }
        if forall i :: 0 <= i < |params| ==> params[i] !in seen {
          assert forall i :: 0 <= i < |rest| ==> rest[i] == params[i + 1];
        }
        if forall i :: 0 <= i < |rest| ==> rest[i] !in seen + {first} {
          assert forall i :: 1 <= i < |params| ==> params[i] == rest[i - 1];
        }
      }
    }
  }

  /** The round trip rebuilds the parameters, order among equal keys included, exactly when no pair repeats. */
  lemma RoundTripIffNoRepeats(params: Params)
    requires Printable(params)
    ensures Parsed(Tokens(Query(params), '&'), {}, []) == params <==> NoRepeats(params)
  {
    hide Parsed, Tokens, Query, PlainKey;
    ParsePrinted(params);
    DedupSize(params, {});
  }

  // ----- Which keys come back -----

  /** In this measure no pair gains on its way through the query, and one whose key is not plain loses. */
  function PairsWeight(params: Params): nat {
    if params == [] then 0 else 1 + UrlCodec.Weight(params[0].0) + PairsWeight(params[1..])
  }

  function TokensWeight(tokens: seq<string>): nat {
    if tokens == [] then 0 else TokenWeight(tokens[0]) + TokensWeight(tokens[1..])
  }

  function TokenWeight(kv: string): nat {
    if KeyOf(kv) == "" then 0 else 1 + UrlCodec.Weight(UrlCodec.Decode(KeyOf(kv), true))
  }

  lemma {:induction false} TokensWeightBoth(a: seq<string>, b: seq<string>)
    ensures TokensWeight(a + b) == TokensWeight(a) + TokensWeight(b)
  {
    hide TokenWeight;
    if a == [] {
      assert a + b == b;
    } else {
      assert (a + b)[1..] == a[1..] + b;
      TokensWeightBoth(a[1..], b);
    }
  }

  lemma {:induction false} EmplaceWeight(params: Params, key: string, value: string)
    ensures PairsWeight(Emplace(params, key, value)) == PairsWeight(params) + 1 + UrlCodec.Weight(key)
  {
    hide Less, UrlCodec.Weight;
    var all := Emplace(params, key, value);
    if params == [] || Less(key, params[0].0) {
      assert all[1..] == params;
    } else {
      EmplaceWeight(params[1..], key, value);
      assert all[1..] == Emplace(params[1..], key, value);
    }
  }

  lemma {:induction false} ParsedWeight(tokens: seq<string>, cache: set<string>, params: Params)
    ensures PairsWeight(Parsed(tokens, cache, params)) <= PairsWeight(params) + TokensWeight(tokens)
    decreases |tokens|
  {
    hide KeyOf, ValueOf, Emplace, UrlCodec.Weight, UrlCodec.Decode;
    if tokens != [] {
      var kv := tokens[0];
      ParsedWeight(tokens[1..], cache, params);
      ParsedWeight(tokens[1..], cache + {kv}, AddPair(params, kv));
      EmplaceWeight(params, UrlCodec.Decode(KeyOf(kv), true), UrlCodec.Decode(ValueOf(kv), true));
    }
  }

  /** The key of a printed pair without an ampersand is a part of the key that was printed. */
  lemma KeyIsInside(key: string, text: string) returns (a: nat, b: nat)
    ensures a <= b <= |key| && KeyOf(Trim(key + "=" + text)) == key[a..b]
    ensures b - a == |key| > 0 ==> '=' !in key && !Blank(key[0])
  {
    hide Trim, IndexOf, Blank;
    var all := key + "=" + text;
    var c, d := TrimIs(all);
    var t := all[c..d];
    var e := IndexOf(t, '=');
    assert all[|key|] == '=' && (|key| < c ==> Blank('='));
    EqualsIsNoBlank();
    forall j | c <= j < c + e ensures all[j] != '=' { assert all[j] == t[j - c]; }
    a, b := c, c + e;
    assert forall j :: 0 <= j < e ==> key[a..b][j] == t[j];
    assert t[..e] == key[a..b];
  }

  lemma EqualsIsNoBlank()
    ensures !Blank('=')
  {}

  lemma OneTokenWeight(key: string, text: string)
    requires '&' !in key && '&' !in text
    ensures TokensWeight(Tokens(key + "=" + text, '&')) <= 1 + UrlCodec.Weight(key)
    ensures !PlainKey(key) ==> TokensWeight(Tokens(key + "=" + text, '&')) < 1 + UrlCodec.Weight(key)
  {
    hide Tokens, Token, Trim, KeyOf, Blank, UrlCodec.Weight, UrlCodec.Decode, UrlCodec.NothingToDecode;
    var all := key + "=" + text;
    var a, b := KeyIsInside(key, text);
    TokensSingle(all, '&');
    TokenIs(all);
    OneWeight(Trim(all));
    UrlCodec.WeightInside(key, a, b);
    UrlCodec.DecodeSameIff(key[a..b], true);
  }

  lemma OneWeight(kv: string)
    ensures TokensWeight([kv]) == TokenWeight(kv) && TokensWeight([]) == 0
  {
    assert [kv][1..] == [];
  }

  lemma {:induction false} PairWeighs(key: string, text: string)
    requires '&' !in text
    ensures TokensWeight(Tokens(key + "=" + text, '&')) <= 1 + UrlCodec.Weight(key)
    ensures !PlainKey(key) ==> TokensWeight(Tokens(key + "=" + text, '&')) < 1 + UrlCodec.Weight(key)
    decreases |key|
  {
    hide Tokens, Token, TokensWeight, UrlCodec.Weight;
    var k := IndexOf(key, '&');
    if k == |key| {
      OneTokenWeight(key, text);
    } else {
      var front, rest := key[..k], key[k + 1..];
      assert key == front + "&" + rest && "&" == ['&'];
      assert key + "=" + text == front + ['&'] + (rest + "=" + text);
      TokensAt(front, '&', rest + "=" + text);
      TokensWeightBoth(Token(front), Tokens(rest + "=" + text, '&'));
      PairWeighs(rest, text);
      PieceWeighs(front);
      UrlCodec.WeightBoth(front, "&");
      UrlCodec.WeightBoth(front + "&", rest);
      UrlCodec.WeightOf("&");
    }
  }

  lemma PieceWeighs(piece: string)
    ensures TokensWeight(Token(piece)) <= 1 + UrlCodec.Weight(piece)
  {
    hide Trim, UrlCodec.Weight, UrlCodec.Decode, TokensWeight;
    var a, b := TrimIs(piece);
    var t := piece[a..b];
    OneWeight(t);
    var e := IndexOf(t, '=');
    assert t[..e] == piece[a..a + e];
    UrlCodec.WeightInside(piece, a, a + e);
    UrlCodec.DecodeSameIff(t[..e], true);
  }

  lemma {:induction false} QueryWeighs(params: Params)
    requires ByteValues(params)
    ensures TokensWeight(Tokens(Query(params), '&')) <= PairsWeight(params)
    ensures (exists i :: 0 <= i < |params| && !PlainKey(params[i].0)) ==>
      TokensWeight(Tokens(Query(params), '&')) < PairsWeight(params)
  {
    hide Tokens, Token, TokensWeight, PlainKey, UrlCodec.Weight, UrlCodec.Encode, UrlCodec.Unescaped, UrlCodec.IsBytes;
    if params == [] {
      TokensSingle("", '&');
      TokenIs("");
      OneWeight("");
    } else {
      var pair, rest := params[0], params[1..];
      var encoded := UrlCodec.Encode(pair.1);
      UrlCodec.EncodeAlphabet(pair.1);
      AmpersandIsEscaped();
      PairWeighs(pair.0, encoded);
      QueryWeighs(rest);
      assert forall i :: 1 <= i < |params| ==> params[i] == rest[i - 1];
      if rest != [] {
        assert "&" == ['&'];
        TokensBoth(PairText(pair), '&', Query(rest));
        TokensWeightBoth(Tokens(PairText(pair), '&'), Tokens(Query(rest), '&'));
      }
    }
  }

  lemma AmpersandIsEscaped()
    ensures !UrlCodec.Unescaped('&')
  {}

  /** The parameters of a multimap come back exactly when no pair repeats and every key survives unquoted. */
  lemma RoundTripIff(params: Params)
    requires Sorted(params) && ByteValues(params)
    ensures Parsed(Tokens(Query(params), '&'), {}, []) == params <==>
      NoRepeats(params) && forall i :: 0 <= i < |params| ==> PlainKey(params[i].0)
  {
    hide Parsed, Tokens, Query, PlainKey;
    if forall i :: 0 <= i < |params| ==> PlainKey(params[i].0) {
      RoundTripIffNoRepeats(params);
    } else {
      QueryWeighs(params);
      ParsedWeight(Tokens(Query(params), '&'), {}, []);
    }
  }
}
