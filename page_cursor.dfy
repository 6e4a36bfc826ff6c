/**
 * The page-key parser of the paging data source. A page key is the full
 * URL the API returned as `previous` or `next`; `loadBefore` and
 * `loadAfter` turn it into a map of query parameters by
 *
 *   key.split("\\?")[1]   the text between the first `?` and the next `?`
 *      .split("&")        its `&`-separated pieces
 *   piece.split("=")      each piece's name at [0] and value at [1]
 *
 * and `HashMap.put`, so that a later parameter overwrites an earlier one
 * of the same name. An index past the end of a split throws; that is
 * `None` here. There is no percent-decoding and no fragment handling.
 */
module PageCursor {
  import opened Wrappers
  import opened JavaStrings

  /** The query component, or None when `key.split("\\?")[1]` throws. */
  function QueryPart(key: string): (q: Option<string>)
    ensures q.Some? ==> '?' in key && q.value == UpTo(After(key, '?'), '?')
  {
    var parts := Split(key, '?');
    if |parts| < 2 then None
    else
      SplitFirstTwo(key, '?');
      Some(parts[1])
  }

  /**
   * There is a query component exactly when the key has a `?` with some
   * character other than `?` after it.
   */
  lemma QueryPartExists(key: string)
    ensures QueryPart(key).Some? <==> ('?' in key && exists j :: IndexOf(key, '?') < j < |key| && key[j] != '?')
  {
    SplitHasSecond(key, '?');
  }

  /** A piece on which both `split("=")[0]` and `split("=")[1]` succeed. */
  predicate HasValue(piece: string)
  {
    |Split(piece, '=')| >= 2
  }

  /** A piece has a value exactly when it has an `=` with some character other than `=` after it. */
  lemma HasValueIff(piece: string)
    ensures HasValue(piece) <==> ('=' in piece && exists j :: IndexOf(piece, '=') < j < |piece| && piece[j] != '=')
  {
    SplitHasSecond(piece, '=');
  }

  /** One `name=value` parameter, as `map.put(splited[0], splited[1])` stores it. */
  datatype Param = Param(name: string, value: string)

  /**
   * What one piece contributes: its name is the text before its first `=`,
   * its value the text between the first `=` and the next (the rest is
   * dropped). None when `split("=")[1]` throws.
   */
  function ParamOf(piece: string): (p: Option<Param>)
    ensures p.Some? <==> HasValue(piece)
    ensures p.Some? ==> '=' in piece && p.value.name == UpTo(piece, '=')
    ensures p.Some? ==> p.value.value == UpTo(After(piece, '='), '=')
  {
    var splited := Split(piece, '=');
    if |splited| < 2 then None
    else
      SplitFirstTwo(piece, '=');
      Some(Param(splited[0], splited[1]))
  }

  /** `params` are the parameters of `pieces`, one for one. */
  predicate Parsed(pieces: seq<string>, params: seq<Param>)
  {
    |params| == |pieces| && forall k :: 0 <= k < |pieces| ==> ParamOf(pieces[k]) == Some(params[k])
  }

  /** Parsing one more piece extends the parameters by its own. */
  lemma ParsedExtend(pieces: seq<string>, params: seq<Param>, piece: string, p: Param)
    requires Parsed(pieces, params) && ParamOf(piece) == Some(p)
    ensures Parsed(pieces + [piece], params + [p])
  {
    var pieces', params' := pieces + [piece], params + [p];
    forall k | 0 <= k < |pieces'| ensures ParamOf(pieces'[k]) == Some(params'[k]) {
      if k < |pieces| {
        assert pieces'[k] == pieces[k] && params'[k] == params[k];
      }
    }
  }

  /** The loop step: one more piece of the same list parsed. */
  lemma ParsedPrefix(pieces: seq<string>, i: nat, params: seq<Param>, p: Param)
    requires i < |pieces| && Parsed(pieces[..i], params) && ParamOf(pieces[i]) == Some(p)
    ensures Parsed(pieces[..i + 1], params + [p])
  {
    ParsedExtend(pieces[..i], params, pieces[i], p);
    assert pieces[..i + 1] == pieces[..i] + [pieces[i]];
  }

  /** The parameters of all pieces, in order; None as soon as one piece throws. */
  function ParamsOf(pieces: seq<string>): (r: Option<seq<Param>>)
    ensures r.Some? <==> forall k :: 0 <= k < |pieces| ==> HasValue(pieces[k])
    ensures r.Some? ==> Parsed(pieces, r.value)
  {
    if |pieces| == 0 then Some([])
    else
      match ParamOf(pieces[0])
      case None => None
      case Some(p) =>
        match ParamsOf(pieces[1..])
        case None =>
          assert !HasValue(pieces[1..][0]) || exists k :: 1 <= k < |pieces[1..]| && !HasValue(pieces[1..][k]);
          None
        case Some(ps) => Some([p] + ps)
  }

  /** The pieces determine their parameters: whatever is `Parsed` from them is what `ParamsOf` returns. */
  lemma ParsedUnique(pieces: seq<string>, params: seq<Param>)
    requires Parsed(pieces, params)
    ensures ParamsOf(pieces) == Some(params)
  {
    forall k | 0 <= k < |pieces| ensures HasValue(pieces[k]) {
      assert ParamOf(pieces[k]).Some?;
    }
    var r := ParamsOf(pieces).value;
    assert Parsed(pieces, r);
    forall k | 0 <= k < |pieces| ensures r[k] == params[k] {
      assert Some(r[k]) == ParamOf(pieces[k]) == Some(params[k]);
    }
    assert r == params;
  }

  /** Parameter `i`'s name does not occur again later, so its `put` is the one that stays. */
  predicate LastWithName(params: seq<Param>, i: nat)
    requires i < |params|
  {
    forall j :: i < j < |params| ==> params[j].name != params[i].name
  }

  /** The map after `put`ting every parameter, left to right: its keys are exactly their names. */
  function MapOf(params: seq<Param>): (m: map<string, string>)
    ensures m.Keys == Names(params)
  {
    if |params| == 0 then map[]
    else
      var last := params[|params| - 1];
      NamesSnoc(params);
      MapOf(params[..|params| - 1])[last.name := last.value]
  }

  /** One more `put`. */
  lemma MapOfSnoc(params: seq<Param>, p: Param)
    ensures MapOf(params + [p]) == MapOf(params)[p.name := p.value]
  {
    assert (params + [p])[..|params|] == params;
  }

  /** The names of the parameters. */
  function Names(params: seq<Param>): (names: set<string>)
  {
    set i | 0 <= i < |params| :: params[i].name
  }

  /** The names of a non-empty list: those of all but the last, and the last one's. */
  lemma NamesSnoc(params: seq<Param>)
    requires |params| > 0
    ensures Names(params) == Names(params[..|params| - 1]) + {params[|params| - 1].name}
  {
    var n := |params| - 1;
    var init := params[..n];
    forall x | x in Names(params) ensures x in Names(init) + {params[n].name} {
      var i :| 0 <= i < |params| && x == params[i].name;
      if i < n { assert init[i] == params[i]; }
    }
    forall x | x in Names(init) ensures x in Names(params) {
      var i :| 0 <= i < |init| && x == init[i].name;
      assert init[i] == params[i];
    }
  }

  /**
   * The parameter map for a page key, or None when an array index throws:
   * exactly when there is no query component or one of its pieces has no
   * value. Otherwise the keys are exactly the parameters' names.
   */
  function ParseCursor(key: string): (r: Option<map<string, string>>)
    ensures r.None? <==> QueryPart(key).None? || exists k :: 0 <= k < |Split(QueryPart(key).value, '&')| && !HasValue(Split(QueryPart(key).value, '&')[k])
    ensures r.Some? ==> r.value.Keys == Names(ParamsOf(Split(QueryPart(key).value, '&')).value)
  {
    match QueryPart(key)
    case None => None
    case Some(q) =>
      match ParamsOf(Split(q, '&'))
      case None => None
      case Some(params) => Some(MapOf(params))
  }

  /** The loop of `loadBefore`/`loadAfter`: split, then `put` piece by piece into a fresh map. */
  method BuildQueryMap(key: string) returns (r: Option<map<string, string>>)
    ensures r == ParseCursor(key)
  {
    var parts := Split(key, '?');
    if |parts| < 2 {
      return None;
    }
    var queryPart := parts[1];
    var queries := Split(queryPart, '&');
    var m: map<string, string> := map[];
    ghost var done: seq<Param> := [];
    for i := 0 to |queries|
      invariant Parsed(queries[..i], done)
      invariant m == MapOf(done)
    {
      var splited := Split(queries[i], '=');
      if |splited| < 2 {
        assert !HasValue(queries[i]);
        return None;
      }
      ghost var p := Param(splited[0], splited[1]);
      assert ParamOf(queries[i]) == Some(p);
      ParsedPrefix(queries, i, done, p);
      MapOfSnoc(done, p);
      done := done + [p];
      m := m[splited[0] := splited[1]];
    }
    assert queries[..|queries|] == queries;
    ParsedUnique(queries, done);
    return Some(m);
  }

  /** A name maps to the value of its last occurrence: later `put`s overwrite earlier ones. */
  lemma {:induction false} MapOfLast(params: seq<Param>, i: nat)
    requires i < |params| && LastWithName(params, i)
    ensures params[i].name in MapOf(params)
    ensures MapOf(params)[params[i].name] == params[i].value
  {
    var n := |params| - 1;
    if i < n {
      var init := params[..n];
      assert init[i] == params[i];
      assert LastWithName(init, i) by {
        forall j | i < j < |init| ensures init[j].name != init[i].name {
          assert init[j] == params[j];
        }
      }
      MapOfLast(init, i);
    }
  }

  /**
   * Parsing succeeds exactly when there is a query component all of whose
   * pieces have a value. The map then holds exactly the names of the
   * pieces, each bound to the value of its last occurrence.
   */
  lemma ParsedMap(key: string)
    ensures ParseCursor(key).Some?
        <==> (QueryPart(key).Some? && ParamsOf(Split(QueryPart(key).value, '&')).Some?)
    ensures ParseCursor(key).Some? ==>
      var params := ParamsOf(Split(QueryPart(key).value, '&')).value;
      var m := ParseCursor(key).value;
      && m.Keys == Names(params)
      && forall i :: 0 <= i < |params| && LastWithName(params, i) ==> m[params[i].name] == params[i].value
  {
    if ParseCursor(key).Some? {
      var params := ParamsOf(Split(QueryPart(key).value, '&')).value;
      forall i | 0 <= i < |params| && LastWithName(params, i)
        ensures MapOf(params)[params[i].name] == params[i].value
      {
        MapOfLast(params, i);
      }
    }
  }

  /** A key without `?`, or with only `?`s after its first `?`, throws. */
  lemma NoQueryFails(key: string)
    requires '?' !in key || forall j :: IndexOf(key, '?') < j < |key| ==> key[j] == '?'
    ensures ParseCursor(key) == None
  {
    QueryPartExists(key);
  }

  /** One piece without a value (no `=`, or only `=`s after the first) makes the whole parse throw. */
  lemma PieceWithoutValueFails(key: string, k: nat)
    requires QueryPart(key).Some? && k < |Split(QueryPart(key).value, '&')|
    requires !HasValue(Split(QueryPart(key).value, '&')[k])
    ensures ParseCursor(key) == None
  {
  }

  /**
   * `a&&b`, where something other than `&` follows: the empty piece between
   * the two `&`s is not trailing, so it is kept, and its `[1]` throws.
   */
  lemma DoubledAmpersandFails(key: string, a: string, b: string)
    requires QueryPart(key) == Some(a + "&&" + b)
    requires !OnlySeparators(b, '&')
    ensures ParseCursor(key) == None
  {
    var pieces := Split(a + "&&" + b, '&');
    var k := |Pieces(a, '&')|;
    assert k < |pieces| && pieces[k] == "" by {
      assert a + "&&" + b == a + ['&', '&'] + b;
      DoubledSeparator(a, b, '&');
    }
    assert !HasValue(pieces[k]);
    PieceWithoutValueFails(key, k);
  }

  /**
   * A non-empty query made only of `&`s, as in `url?&&`, splits to no
   * pieces at all, every piece being a trailing empty one: it parses to the
   * empty map. (An empty query, as in `url??x`, is one empty piece, which throws.)
   */
  lemma OnlyAmpersandsEmptyMap(key: string, q: string)
    requires QueryPart(key) == Some(q) && q != "" && OnlySeparators(q, '&')
    ensures ParseCursor(key) == Some(map[])
  {
    assert '&' in q by {
      assert q[0] == '&';
    }
    assert Split(q, '&') == [] by {
      PiecesAllEmpty(q, '&');
      DropTrailingEmptyShape(Pieces(q, '&'));
    }
    assert ParamsOf([]) == Some([]);
  }

  /** An empty query, as in `url??x`, is a single empty piece, whose `[1]` throws. */
  lemma EmptyQueryThrows(url: string)
    requires '?' !in url
    ensures ParseCursor(url + "??x") == None
  {
    var key := url + "??x";
    assert QueryPart(key) == Some("") by {
      assert key == url + ['?', '?'] + "x";
      assert !OnlySeparators("x", '?') by { assert "x"[0] != '?'; }
      DoubledSeparator(url, "x", '?');
      assert Pieces(url, '?') == [url];
      QueryPartExists(key);
    }
    assert Split("", '&') == [""];
    assert !HasValue("");
  }

  /**
   * `name=value`, `name=value=rest` and `=value` all parse to `name` (possibly
   * empty) and `value`; whatever follows a second `=` is discarded.
   */
  lemma PieceParts(name: string, value: string, rest: string)
    requires '=' !in name && '=' !in value && value != ""
    requires rest == "" || rest[0] == '='
    ensures ParamOf(name + "=" + value + rest) == Some(Param(name, value))
  {
    var v := value + rest;
    assert name + "=" + value + rest == name + ['='] + v;
    NamedPieceHasValue(name, v, 0);
    NamedPiece(name, v);
    UpToPrefix(value, rest, '=');
  }

  /**
   * `name==rest` does not throw: the second `=` ends an empty value, which
   * is stored as `""`. Only a piece with nothing but `=`s after its first
   * `=` (such as `name=`) lacks a value.
   */
  lemma EmptyValueBetweenEquals(name: string, rest: string)
    requires '=' !in name && rest != "" && rest[0] != '='
    ensures ParamOf(name + "==" + rest) == Some(Param(name, ""))
  {
    var v := "=" + rest;
    assert name + "==" + rest == name + ['='] + v;
    NamedPieceHasValue(name, v, 1);
    NamedPiece(name, v);
    var e: string := [];
    assert e + v == v;
    UpToPrefix(e, v, '=');
  }

  /** A piece whose first `=` is followed, somewhere, by another character has a value. */
  lemma NamedPieceHasValue(name: string, v: string, j: nat)
    requires '=' !in name && j < |v| && v[j] != '='
    ensures HasValue(name + ['='] + v)
  {
    var piece := name + ['='] + v;
    IndexOfAfterPrefix(name, v, '=');
    assert piece[|name| + 1 + j] == v[j];
    HasValueIff(piece);
  }

  /** A piece with a value parses to the text before its first `=` and the text up to the next one. */
  lemma NamedPiece(name: string, v: string)
    requires '=' !in name && HasValue(name + ['='] + v)
    ensures ParamOf(name + ['='] + v) == Some(Param(name, UpTo(v, '=')))
  {
    IndexOfAfterPrefix(name, v, '=');
  }

  /** `name=` throws: `"name=".split("=")` is `["name"]`, so there is no `[1]`. */
  lemma TrailingEqualsHasNoValue(name: string)
    requires '=' !in name
    ensures ParamOf(name + "=") == None
  {
    var piece := name + "=";
    assert piece == name + ['='] + [];
    IndexOfAfterPrefix(name, [], '=');
    HasValueIff(piece);
  }
}

/** Worked page keys of the shape the catalog API returns. */
module PageCursorExamples {
  import opened Wrappers
  import opened JavaStrings
  import opened PageCursor

  /** A key `url?q` with a single `?` has `q` as its query component. */
  lemma QueryOfSimpleKey(url: string, q: string)
    requires '?' !in url && '?' !in q && q != ""
    ensures QueryPart(url + "?" + q) == Some(q)
  {
    var key := url + "?" + q;
    assert key == url + ['?'] + q;
    IndexOfAfterPrefix(url, q, '?');
    assert key[|url| + 1] == q[0];
    QueryPartExists(key);
  }

  /** Two separator-free strings joined by one separator split back into the two. */
  lemma SplitOfTwo(p1: string, p2: string, c: char)
    requires c !in p1 && c !in p2 && p2 != ""
    ensures Split(p1 + [c] + p2, c) == [p1, p2]
  {
    PiecesAfterPrefix(p1, p2, c);
    assert (p1 + [c] + p2)[|p1|] == c;
  }

  /** A name or value free of the three delimiters the parser splits on. */
  predicate Plain(s: string)
  {
    '?' !in s && '&' !in s && '=' !in s
  }

  /** Two pieces with values give two parameters, `put` in order: the second wins when the names agree. */
  lemma MapOfTwo(p1: string, p2: string, a: Param, b: Param)
    requires ParamOf(p1) == Some(a) && ParamOf(p2) == Some(b)
    ensures ParamsOf([p1, p2]) == Some([a, b])
    ensures MapOf([a, b]) == map[a.name := a.value][b.name := b.value]
    ensures a.name == b.name ==> MapOf([a, b]) == map[b.name := b.value]
  {
    ParsedExtend([p1], [a], p2, b);
    ParsedUnique([p1, p2], [a, b]);
    assert [a, b][..1] == [a] && [a][..0] == [];
    assert MapOf([a]) == map[a.name := a.value];
    if a.name == b.name {
      PutOverwrites(a.name, a.value, b.value);
    }
  }

  /** `HashMap.put` under a name already present replaces its value. */
  lemma PutOverwrites(name: string, v1: string, v2: string)
    ensures map[name := v1][name := v2] == map[name := v2]
  {
  }

  /**
   * A key with two plain parameters parses to their names and values; when
   * both use the same name, the second value wins.
   */
  lemma TwoParameterKey(key: string, url: string, n1: string, v1: string, n2: string, v2: string)
    requires '?' !in url && Plain(n1) && Plain(v1) && Plain(n2) && Plain(v2)
    requires v1 != "" && v2 != ""
    requires key == url + "?" + n1 + "=" + v1 + "&" + n2 + "=" + v2
    ensures ParseCursor(key) == Some(map[n1 := v1][n2 := v2])
    ensures n1 == n2 ==> ParseCursor(key) == Some(map[n2 := v2])
  {
    var p1 := n1 + "=" + v1;
    var p2 := n2 + "=" + v2;
    var q := p1 + "&" + p2;
    assert key == url + "?" + q;
    QueryOfPlainKey(url, p1, p2);
    SplitOfTwo(p1, p2, '&');
    assert q == p1 + ['&'] + p2;
    TwoPlainParams(n1, v1, n2, v2);
    ParseCursorOf(key, q, [Param(n1, v1), Param(n2, v2)]);
  }

  /** The two pieces `n1=v1`, `n2=v2` give their two parameters, `put` in order. */
  lemma TwoPlainParams(n1: string, v1: string, n2: string, v2: string)
    requires Plain(n1) && Plain(v1) && Plain(n2) && Plain(v2)
    requires v1 != "" && v2 != ""
    ensures ParamsOf([n1 + "=" + v1, n2 + "=" + v2]) == Some([Param(n1, v1), Param(n2, v2)])
    ensures MapOf([Param(n1, v1), Param(n2, v2)]) == map[n1 := v1][n2 := v2]
    ensures n1 == n2 ==> MapOf([Param(n1, v1), Param(n2, v2)]) == map[n2 := v2]
  {
    var p1 := n1 + "=" + v1;
    var p2 := n2 + "=" + v2;
    assert p1 == n1 + "=" + v1 + "" && p2 == n2 + "=" + v2 + "";
    PieceParts(n1, v1, "");
    PieceParts(n2, v2, "");
    MapOfTwo(p1, p2, Param(n1, v1), Param(n2, v2));
  }

  /** The three stages of the parse, put together. */
  lemma ParseCursorOf(key: string, q: string, params: seq<Param>)
    requires QueryPart(key) == Some(q) && ParamsOf(Split(q, '&')) == Some(params)
    ensures ParseCursor(key) == Some(MapOf(params))
  {
  }

  lemma QueryOfPlainKey(url: string, p1: string, p2: string)
    requires '?' !in url && '?' !in p1 && '?' !in p2 && p2 != ""
    ensures QueryPart(url + "?" + (p1 + "&" + p2)) == Some(p1 + "&" + p2)
  {
    var q := p1 + "&" + p2;
    assert q == p1 + ['&'] + p2;
    assert q[|q| - 1] == p2[|p2| - 1];
    assert '?' !in q;
    QueryOfSimpleKey(url, q);
  }

  /** The `next` key of the first page parses to its offset and limit. */
  lemma NextKeyOfFirstPage(key: string)
    requires key == "https://pokeapi.co/api/v2/pokemon?offset=20&limit=20"
    ensures ParseCursor(key) == Some(map["offset" := "20", "limit" := "20"])
  {
    var url := "https://pokeapi.co/api/v2/pokemon";
    var parts := ["offset", "20", "limit", "20"];
    assert '?' !in url && Plain(parts[0]) && Plain(parts[1]) && Plain(parts[2]) && Plain(parts[3]);
    assert key == url + "?" + parts[0] + "=" + parts[1] + "&" + parts[2] + "=" + parts[3];
    TwoParameterKey(key, url, parts[0], parts[1], parts[2], parts[3]);
  }

  /** A repeated parameter keeps its last value. */
  lemma RepeatedLimitKeepsLast(key: string)
    requires key == "https://pokeapi.co/api/v2/pokemon?limit=10&limit=20"
    ensures ParseCursor(key) == Some(map["limit" := "20"])
  {
    var url := "https://pokeapi.co/api/v2/pokemon";
    var parts := ["limit", "10", "limit", "20"];
    assert '?' !in url && Plain(parts[0]) && Plain(parts[1]) && Plain(parts[3]);
    assert key == url + "?" + parts[0] + "=" + parts[1] + "&" + parts[2] + "=" + parts[3];
    TwoParameterKey(key, url, parts[0], parts[1], parts[2], parts[3]);
  }

  /** A bare endpoint URL, with no query, makes the load throw. */
  lemma BareUrlThrows(key: string)
    requires key == "https://pokeapi.co/api/v2/pokemon"
    ensures ParseCursor(key) == None
  {
    assert '?' !in key;
    NoQueryFails(key);
  }
}
