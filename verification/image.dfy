/**
  Image URL rewriting (src/utils/image.ts).

  `ProxiedUrl` turns a public-storage URL of the hosted backend into a path
  under the site's own `/cdn/image/` route; `OptimizedImageUrl` then adds the
  `width`, `format` and `quality` query parameters that are not already there.

  The WHATWG URL parser is abstracted: a relative URL is a path and an
  ordered list of query pairs. Parsing drops everything from the first `#`,
  splits path from query at the first `?`, splits the query on `&`, skips
  empty pieces and splits each piece at its first `=`. Percent-encoding and
  path normalisation are not modelled.
 */
module Image {
  import opened Base
  import opened Text

  const Scheme: string := "https://"
  const HostSuffix: string := ".supabase.co"
  const StoragePath: string := "/storage/v1/object/public/"
  const CdnPrefix: string := "/cdn/image/"
  const DefaultWidth: int := 400

  // ---------------------------------------------------------------------------
  // getProxiedUrl
  // ---------------------------------------------------------------------------

  /** `url` has the shape `scheme`, one or more characters other than `/`
      (`host`), `suffix`, `path`, then anything (`rest`): the shape of an
      anchored pattern `^scheme[^/]+suffix path`. */
  ghost predicate ShapeMatch(url: string, scheme: string, suffix: string, path: string, host: string, rest: string) {
    && url == scheme + host + suffix + path + rest
    && |host| > 0
    && '/' !in host
  }

  /** The rest of a shape match is the text after the matched prefix. */
  lemma ShapeRest(url: string, scheme: string, suffix: string, path: string, host: string, rest: string)
    requires ShapeMatch(url, scheme, suffix, path, host, rest)
    ensures |rest| <= |url| && rest == url[|url| - |rest|..]
  {
    var head := scheme + host + suffix + path;
    assert url == head + rest;
    assert url[|head|..] == rest;
  }

  /** The pattern's literal parts are such that the host part must end at
      the first `/` after the scheme. */
  predicate ShapeOk(suffix: string, path: string) {
    '/' !in suffix && |path| > 0 && path[0] == '/'
  }

  /** The length of the text such a pattern matches at the start of `url`,
      if it matches. `[^/]+` cannot cross a `/`, so the host part ends at the
      first `/` after the scheme. */
  function MatchLengthOf(url: string, scheme: string, suffix: string, path: string): Option<nat>
  {
    if !StartsWith(url, scheme) then None
    else
      var after := url[|scheme|..];
      if '/' !in after then None
      else
        var i := IndexOf(after, '/');
        var authority := after[..i];
        if |authority| > |suffix| && authority[|authority| - |suffix|..] == suffix
           && StartsWith(after[i..], path)
        then Some(|scheme| + i + |path|)
        else None
  }

  /** What `MatchLengthOf` finds is a match, and it measures the matched prefix. */
  lemma MatchLengthOfSound(url: string, scheme: string, suffix: string, path: string)
    requires MatchLengthOf(url, scheme, suffix, path).Some?
    ensures var n := MatchLengthOf(url, scheme, suffix, path).value;
            && |scheme| + |suffix| + |path| < n <= |url|
            && ShapeMatch(url, scheme, suffix, path, url[|scheme|..n - |path| - |suffix|], url[n..])
  {
    var after := url[|scheme|..];
    var i := IndexOf(after, '/');
    assert MatchLengthOf(url, scheme, suffix, path) == Some(|scheme| + i + |path|);
    HostPart(url, scheme, suffix, path, i);
  }

  /** The match assembled from the first `/` after the scheme. */
  lemma HostPart(url: string, scheme: string, suffix: string, path: string, i: nat)
    requires |scheme| <= |url| && url[..|scheme|] == scheme
    requires |scheme| + i <= |url| && '/' !in url[|scheme|..][..i]
    requires i > |suffix| && url[|scheme|..][..i][i - |suffix|..] == suffix
    requires StartsWith(url[|scheme|..][i..], path)
    ensures var n := |scheme| + i + |path|;
            && |scheme| + |suffix| + |path| < n <= |url|
            && ShapeMatch(url, scheme, suffix, path, url[|scheme|..n - |path| - |suffix|], url[n..])
  {
    var after := url[|scheme|..];
    var n := |scheme| + i + |path|;
    var h := i - |suffix|;
    var host := after[..h];
    assert after[..i] == host + suffix;
    assert '/' !in host by {
      assert forall j :: 0 <= j < h ==> host[j] == after[..i][j];
    }
    var tail := after[i..];
    assert tail == path + tail[|path|..];
    assert tail[|path|..] == url[n..];
    assert after == after[..i] + tail;
    assert url == scheme + after;
    assert url[|scheme|..n - |path| - |suffix|] == host;
  }

  /** Every match is found, with the same length. */
  lemma MatchLengthOfComplete(url: string, scheme: string, suffix: string, path: string, host: string, rest: string)
    requires ShapeOk(suffix, path)
    requires ShapeMatch(url, scheme, suffix, path, host, rest)
    ensures MatchLengthOf(url, scheme, suffix, path).Some?
    ensures MatchLengthOf(url, scheme, suffix, path).value == |url| - |rest|
  {
    assert url == scheme + (host + suffix + path + rest);
    assert url[..|scheme|] == scheme;
    var after := url[|scheme|..];
    assert after == (host + suffix) + (path + rest);
    var k := |host| + |suffix|;
    FirstSlash(host, suffix, path + rest);
    assert after[..k] == host + suffix;
    assert after[..k][|host|..] == suffix;
    assert after[k..] == path + rest;
    assert (path + rest)[..|path|] == path;
    MatchLengthOfAt(url, scheme, suffix, path, k);
    assert |url| == |scheme| + |after|;
    assert |after| == k + |path| + |rest|;
  }

  /** The match length once the first `/` after the scheme is known. */
  lemma MatchLengthOfAt(url: string, scheme: string, suffix: string, path: string, i: nat)
    requires StartsWith(url, scheme)
    requires '/' in url[|scheme|..] && IndexOf(url[|scheme|..], '/') == i
    requires i > |suffix| && url[|scheme|..][..i][i - |suffix|..] == suffix
    requires StartsWith(url[|scheme|..][i..], path)
    ensures MatchLengthOf(url, scheme, suffix, path) == Some(|scheme| + i + |path|)
  {
  }

  /** The first `/` of `host + suffix + tail` is the one that starts `tail`. */
  lemma FirstSlash(host: string, suffix: string, tail: string)
    requires '/' !in host && '/' !in suffix && |tail| > 0 && tail[0] == '/'
    ensures var s := host + suffix + tail;
            '/' in s && IndexOf(s, '/') == |host| + |suffix|
  {
    var s := host + suffix + tail;
    var k := |host| + |suffix|;
    assert s[..k] == host + suffix;
    assert '/' !in host + suffix;
    IndexOfAt(s, '/', k);
  }

  /** The pattern `^https://[^/]+\.supabase\.co/storage/v1/object/public/`
      matches `url`, with `host` for the `[^/]+` part and `rest` for what
      follows the match. */
  ghost predicate PatternMatch(url: string, host: string, rest: string) {
    ShapeMatch(url, Scheme, HostSuffix, StoragePath, host, rest)
  }

  /** The pattern matches `url` (it is anchored, so at the start). */
  ghost predicate IsStorageUrl(url: string) {
    exists host, rest :: PatternMatch(url, host, rest)
  }

  /** The length of the prefix of `url` the pattern matches, if any. */
  function MatchLength(url: string): Option<nat>
  {
    MatchLengthOf(url, Scheme, HostSuffix, StoragePath)
  }

  lemma PatternShapeOk()
    ensures ShapeOk(HostSuffix, StoragePath)
  {
    assert forall j :: 0 <= j < |HostSuffix| ==> HostSuffix[j] != '/';
  }

  lemma MatchLengthSound(url: string)
    requires MatchLength(url).Some?
    ensures var n := MatchLength(url).value;
            && |Scheme| + |HostSuffix| + |StoragePath| < n <= |url|
            && PatternMatch(url, url[|Scheme|..n - |StoragePath| - |HostSuffix|], url[n..])
  {
    var n := MatchLength(url).value;
    MatchLengthOfSound(url, Scheme, HostSuffix, StoragePath);
    assert ShapeMatch(url, Scheme, HostSuffix, StoragePath, url[|Scheme|..n - |StoragePath| - |HostSuffix|], url[n..]);
  }

  lemma MatchLengthComplete(url: string, host: string, rest: string)
    requires PatternMatch(url, host, rest)
    ensures MatchLength(url).Some? && MatchLength(url).value == |url| - |rest|
  {
    PatternShapeOk();
    MatchLengthOfComplete(url, Scheme, HostSuffix, StoragePath, host, rest);
  }

  /** When `MatchLength` finds a prefix, the pattern matches and every match
      leaves the same rest: the text after that prefix. */
  lemma MatchLengthRest(url: string)
    requires MatchLength(url).Some?
    ensures MatchLength(url).value <= |url| && IsStorageUrl(url)
    ensures forall host, rest :: PatternMatch(url, host, rest) ==> rest == url[MatchLength(url).value..]
  {
    var n := MatchLength(url).value;
    assert n <= |url| && IsStorageUrl(url) by {
      MatchLengthSound(url);
    }
    forall host, rest | PatternMatch(url, host, rest)
      ensures rest == url[n..]
    {
      assert |rest| == |url| - n by {
        MatchLengthComplete(url, host, rest);
      }
      ShapeRest(url, Scheme, HostSuffix, StoragePath, host, rest);
    }
  }

  /** When `MatchLength` finds nothing, the pattern does not match. */
  lemma MatchLengthNone(url: string)
    requires MatchLength(url).None?
    ensures forall host, rest :: !PatternMatch(url, host, rest)
  {
    forall host, rest | PatternMatch(url, host, rest)
      ensures false
    {
      MatchLengthComplete(url, host, rest);
    }
  }

  /** `getProxiedUrl`: the empty string and URLs the pattern does not match
      come back unchanged; for a match, exactly the matched prefix is
      replaced by `/cdn/image/` and the rest is kept verbatim. */
  function ProxiedUrl(url: string): (r: string)
    ensures url == [] ==> r == []
    ensures !IsStorageUrl(url) ==> r == url
    ensures forall host, rest :: PatternMatch(url, host, rest) ==> r == CdnPrefix + rest
  {
    if url == [] then url
    else
      match MatchLength(url)
      case None =>
        MatchLengthNone(url);
        url
      case Some(n) =>
        MatchLengthRest(url);
        CdnPrefix + url[n..]
  }

  /** A proxied URL starts with `/`, never with `https://`, so proxying twice
      is proxying once. */
  lemma ProxiedUrlIdempotent(url: string)
    ensures ProxiedUrl(ProxiedUrl(url)) == ProxiedUrl(url)
  {
    var p := ProxiedUrl(url);
    if p != url {
      var n := MatchLength(url).value;
      assert p == CdnPrefix + url[n..];
      assert p[..|CdnPrefix|] == CdnPrefix;
      CdnPathNotProxied(p);
    }
  }

  // ---------------------------------------------------------------------------
  // The URL abstraction
  // ---------------------------------------------------------------------------

  /** A relative URL: `pathname` and the ordered `searchParams` pairs. */
  datatype Url = Url(path: string, query: seq<(string, string)>)

  /** The text before the first `c`, or all of `s`. */
  function Before(s: string, c: char): (r: string)
    ensures c !in r && StartsWith(s, r)
  {
    if c in s then s[..IndexOf(s, c)] else s
  }

  /** The text after the first `c`, or nothing. */
  function After(s: string, c: char): string
  {
    if c in s then s[IndexOf(s, c) + 1..] else []
  }

  /** One `&`-separated piece of a query: key before the first `=`, value after. */
  function ParsePair(piece: string): (string, string)
  {
    (Before(piece, '='), After(piece, '='))
  }

  /** The pairs of the non-empty pieces, in order. */
  function ParsePieces(pieces: seq<string>): seq<(string, string)>
  {
    if |pieces| == 0 then []
    else (if pieces[0] == [] then [] else [ParsePair(pieces[0])]) + ParsePieces(pieces[1..])
  }

  /** `new URL(s, base)` for a path-absolute `s`, seen through `pathname`
      and `searchParams`. */
  function ParseUrl(s: string): Url
  {
    var beforeFragment := Before(s, '#');
    Url(Before(beforeFragment, '?'), ParsePieces(Split(After(beforeFragment, '?'), '&')))
  }

  function PairText(p: (string, string)): string
  {
    p.0 + "=" + p.1
  }

  function PairTexts(q: seq<(string, string)>): (r: seq<string>)
    ensures |r| == |q|
    ensures forall i :: 0 <= i < |q| ==> r[i] == PairText(q[i])
  {
    if |q| == 0 then [] else [PairText(q[0])] + PairTexts(q[1..])
  }

  /** `url.search`: empty without pairs, else `?` and the `&`-joined pairs. */
  function Search(q: seq<(string, string)>): string
  {
    if |q| == 0 then [] else "?" + Join(PairTexts(q), '&')
  }

  /** `url.pathname + url.search`: the fragment is not part of the text. */
  function Serialize(u: Url): string
  {
    u.path + Search(u.query)
  }

  /** A query pair that survives serialisation and re-parsing: the key has
      no `&`, `=` or `#`, the value no `&` or `#`. */
  predicate WellFormedPair(p: (string, string)) {
    '&' !in p.0 && '=' !in p.0 && '#' !in p.0 && '&' !in p.1 && '#' !in p.1
  }

  /** A URL whose parts survive serialisation and re-parsing: the path has
      no `?` or `#` and every pair is well formed. */
  predicate WellFormedUrl(u: Url) {
    && '?' !in u.path && '#' !in u.path
    && forall i :: 0 <= i < |u.query| ==> WellFormedPair(u.query[i])
  }

  /** Every character of a slice is a character of the whole. */
  lemma SliceChars(s: string, i: nat, j: nat)
    requires i <= j <= |s|
    ensures forall c :: c in s[i..j] ==> c in s
  {
    forall c | c in s[i..j]
      ensures c in s
    {
      var k :| 0 <= k < j - i && s[i..j][k] == c;
      assert s[i + k] == c;
    }
  }

  /** Cutting at a character `s` does not contain keeps all of `s`. */
  lemma CutAbsent(s: string, c: char)
    requires c !in s
    ensures Before(s, c) == s && After(s, c) == []
  {
  }

  /** Splitting at the first `c` of `a + [c] + b` where `a` has no `c`. */
  lemma SplitAtFirst(a: string, c: char, b: string)
    requires c !in a
    ensures Before(a + [c] + b, c) == a && After(a + [c] + b, c) == b
  {
    var s := a + [c] + b;
    assert s[..|a|] == a;
    IndexOfAt(s, c, |a|);
    assert s[|a| + 1..] == b;
  }

  /** A pair whose key has no `=` parses back from its `key=value` text. */
  lemma ParsePairText(p: (string, string))
    requires '=' !in p.0
    ensures PairText(p) != [] && ParsePair(PairText(p)) == p
  {
    assert PairText(p) == p.0 + ['='] + p.1;
    SplitAtFirst(p.0, '=', p.1);
  }

  lemma {:induction false} ParsePiecesOfPairTexts(q: seq<(string, string)>)
    requires forall i :: 0 <= i < |q| ==> '=' !in q[i].0
    ensures ParsePieces(PairTexts(q)) == q
    decreases |q|
  {
    if |q| > 0 {
      var t := PairTexts(q);
      var tail := PairTexts(q[1..]);
      assert t[0] == PairText(q[0]) && t[1..] == tail by {
        assert t == [PairText(q[0])] + tail;
      }
      assert t[0] != [] && ParsePair(t[0]) == q[0] by {
        ParsePairText(q[0]);
      }
      assert ParsePieces(tail) == q[1..] by {
        ParsePiecesOfPairTexts(q[1..]);
      }
      assert q == [q[0]] + q[1..];
    }
  }

  /** A join of parts free of `c` is free of `c` when `c` is not the separator. */
  lemma {:induction false} JoinFree(parts: seq<string>, sep: char, c: char)
    requires c != sep
    requires forall i :: 0 <= i < |parts| ==> c !in parts[i]
    ensures c !in Join(parts, sep)
    decreases |parts|
  {
    if |parts| > 1 {
      JoinFree(parts[1..], sep, c);
    }
  }

  /** The texts of well-formed pairs contain no `&` and no `#`. */
  lemma PairTextsFree(q: seq<(string, string)>)
    requires forall i :: 0 <= i < |q| ==> WellFormedPair(q[i])
    ensures var texts := PairTexts(q);
            forall i :: 0 <= i < |texts| ==> '&' !in texts[i] && '#' !in texts[i]
  {
    var texts := PairTexts(q);
    forall i | 0 <= i < |texts|
      ensures '&' !in texts[i] && '#' !in texts[i]
    {
      assert texts[i] == q[i].0 + ['='] + q[i].1;
    }
  }

  /** Re-parsing a serialised well-formed URL gives it back, and the text
      carries no fragment. */
  lemma ParseSerialize(u: Url)
    requires WellFormedUrl(u)
    ensures ParseUrl(Serialize(u)) == u
    ensures '#' !in Serialize(u)
  {
    var s := Serialize(u);
    if |u.query| == 0 {
      assert s == u.path;
      CutAbsent(s, '#');
      CutAbsent(s, '?');
      assert Split([], '&') == [[]];
      assert ParsePieces([[]]) == [];
    } else {
      var texts := PairTexts(u.query);
      PairTextsFree(u.query);
      var joined := Join(texts, '&');
      JoinFree(texts, '&', '#');
      assert s == u.path + ['?'] + joined;
      CutAbsent(s, '#');
      SplitAtFirst(u.path, '?', joined);
      SplitJoin(texts, '&');
      ParsePiecesOfPairTexts(u.query);
    }
  }

  /** The pair read from a piece free of `&` and `#` is well formed. */
  lemma ParsePairWellFormed(piece: string)
    requires '&' !in piece && '#' !in piece
    ensures WellFormedPair(ParsePair(piece))
  {
    if '=' in piece {
      var i := IndexOf(piece, '=');
      SliceChars(piece, 0, i);
      SliceChars(piece, i + 1, |piece|);
    }
  }

  /** The pairs read from pieces free of `&` and `#` are well formed. */
  lemma {:induction false} ParsePiecesWellFormed(pieces: seq<string>)
    requires forall i :: 0 <= i < |pieces| ==> '&' !in pieces[i] && '#' !in pieces[i]
    ensures forall p :: p in ParsePieces(pieces) ==> WellFormedPair(p)
    decreases |pieces|
  {
    if |pieces| > 0 {
      ParsePiecesWellFormed(pieces[1..]);
      if pieces[0] != [] {
        ParsePairWellFormed(pieces[0]);
      }
    }
  }

  /** Every piece of a split is made of characters of the split string. */
  lemma {:induction false} SplitPieceIn(s: string, sep: char, i: nat)
    requires i < |Split(s, sep)|
    ensures forall c :: c in Split(s, sep)[i] ==> c in s
    decreases |s|
  {
    if sep in s {
      var k := IndexOf(s, sep);
      if i > 0 {
        SplitPieceIn(s[k + 1..], sep, i - 1);
        SliceChars(s, k + 1, |s|);
      } else {
        SliceChars(s, 0, k);
      }
    }
  }

  /** Parsing always yields a well-formed URL. */
  lemma ParseUrlWellFormed(s: string)
    ensures WellFormedUrl(ParseUrl(s))
  {
    var bf := Before(s, '#');
    var qs := After(bf, '?');
    if '?' in bf {
      SliceChars(bf, 0, IndexOf(bf, '?'));
      SliceChars(bf, IndexOf(bf, '?') + 1, |bf|);
    }
    assert '#' !in Before(bf, '?') && '?' !in Before(bf, '?');
    assert '#' !in qs;
    var pieces := Split(qs, '&');
    forall i | 0 <= i < |pieces|
      ensures '&' !in pieces[i] && '#' !in pieces[i]
    {
      SplitPieceIn(qs, '&', i);
    }
    ParsePiecesWellFormed(pieces);
    var q := ParsePieces(pieces);
    assert ParseUrl(s) == Url(Before(bf, '?'), q);
    assert forall i :: 0 <= i < |q| ==> q[i] in q;
  }

  // ---------------------------------------------------------------------------
  // getOptimizedImageUrl
  // ---------------------------------------------------------------------------

  /** `searchParams.has(key)`. */
  predicate HasKey(q: seq<(string, string)>, key: string)
    decreases |q|
  {
    |q| > 0 && (q[|q| - 1].0 == key || HasKey(q[..|q| - 1], key))
  }

  /** `has(key)` holds exactly when some pair carries the key. */
  lemma {:induction false} HasKeyExists(q: seq<(string, string)>, key: string)
    ensures HasKey(q, key) <==> exists i :: 0 <= i < |q| && q[i].0 == key
    decreases |q|
  {
    if |q| > 0 {
      var init := q[..|q| - 1];
      HasKeyExists(init, key);
      if exists i :: 0 <= i < |q| && q[i].0 == key {
        var i :| 0 <= i < |q| && q[i].0 == key;
        if i < |init| {
          assert init[i] == q[i];
        }
      }
      if exists i :: 0 <= i < |init| && init[i].0 == key {
        var i :| 0 <= i < |init| && init[i].0 == key;
        assert q[i] == init[i];
      }
    }
  }

  lemma HasKeyAppend(q: seq<(string, string)>, p: (string, string), key: string)
    ensures HasKey(q + [p], key) <==> HasKey(q, key) || p.0 == key
  {
    assert (q + [p])[..|q|] == q;
  }

  /** The three optimisation parameters, in the order they are set. */
  function Defaults(width: int): seq<(string, string)>
  {
    [("width", IntToString(width)), ("format", "webp"), ("quality", "80")]
  }

  /** `set(key, value)` on an absent key appends the pair. */
  function SetIfAbsent(q: seq<(string, string)>, key: string, value: string): seq<(string, string)>
  {
    if HasKey(q, key) then q else q + [(key, value)]
  }

  /** The pairs of `ds` whose key `q` does not have, in order. */
  function Absent(q: seq<(string, string)>, ds: seq<(string, string)>): seq<(string, string)>
    decreases |ds|
  {
    if |ds| == 0 then []
    else
      var last := ds[|ds| - 1];
      Absent(q, ds[..|ds| - 1]) + (if HasKey(q, last.0) then [] else [last])
  }

  /** What `Absent` keeps is a pair of `ds` whose key `q` lacks, and it keeps
      every such pair. */
  lemma {:induction false} AbsentMembers(q: seq<(string, string)>, ds: seq<(string, string)>)
    ensures forall p :: p in Absent(q, ds) <==> p in ds && !HasKey(q, p.0)
    decreases |ds|
  {
    if |ds| > 0 {
      var init := ds[..|ds| - 1];
      AbsentMembers(q, init);
      assert ds == init + [ds[|ds| - 1]];
    }
  }

  /** Guarded `set`s of the pairs of `ds`, one after the other. */
  function SetEach(q: seq<(string, string)>, ds: seq<(string, string)>): seq<(string, string)>
    decreases |ds|
  {
    if |ds| == 0 then q
    else
      var last := ds[|ds| - 1];
      SetIfAbsent(SetEach(q, ds[..|ds| - 1]), last.0, last.1)
  }

  /** No two pairs of `ds` share a key. */
  predicate DistinctKeys(ds: seq<(string, string)>) {
    forall i, j :: 0 <= i < j < |ds| ==> ds[i].0 != ds[j].0
  }

  /** The three guarded `set` calls of `getOptimizedImageUrl`: width, then
      format, then quality. The existing pairs are kept as they are, and
      after them come exactly those defaults whose key was absent, in that
      order; afterwards all three keys are present. */
  function AddDefaults(q: seq<(string, string)>, width: int): (r: seq<(string, string)>)
    ensures |q| <= |r| && r[..|q|] == q
    ensures r[|q|..] == Absent(q, Defaults(width))
    ensures HasKey(r, "width") && HasKey(r, "format") && HasKey(r, "quality")
  {
    var d := Defaults(width);
    assert DistinctKeys(d) by {
      assert d[0].0[0] != d[1].0[0] && d[1].0[0] != d[2].0[0] && d[0].0[0] != d[2].0[0];
    }
    SetEachAppends(q, d);
    SetEachHasKey(q, d, 0);
    SetEachHasKey(q, d, 1);
    SetEachHasKey(q, d, 2);
    var r := SetEach(q, d);
    assert r[..|q|] == q;
    r
  }

  /** Guarded `set`s of distinct keys append, after the original pairs,
      exactly those pairs whose key was absent. */
  lemma {:induction false} SetEachAppends(q: seq<(string, string)>, ds: seq<(string, string)>)
    requires DistinctKeys(ds)
    ensures SetEach(q, ds) == q + Absent(q, ds)
    decreases |ds|
  {
    if |ds| == 0 {
      assert q + [] == q;
    } else {
      var init := ds[..|ds| - 1];
      var last := ds[|ds| - 1];
      assert ds == init + [last];
      SetEachAppends(q, init);
      SetEachKeyStable(q, init, last.0);
      SetStep(q, SetEach(q, init), init, last);
    }
  }

  /** Guarded `set`s leave the presence of every other key as it was. */
  lemma {:induction false} SetEachKeyStable(q: seq<(string, string)>, ds: seq<(string, string)>, key: string)
    requires forall i :: 0 <= i < |ds| ==> ds[i].0 != key
    ensures HasKey(SetEach(q, ds), key) <==> HasKey(q, key)
    decreases |ds|
  {
    if |ds| > 0 {
      var init := ds[..|ds| - 1];
      var last := ds[|ds| - 1];
      SetEachKeyStable(q, init, key);
      KeyStable(SetEach(q, init), SetEach(q, ds), last, key);
    }
  }

  /** After guarded `set`s every key of `ds` is present. */
  lemma {:induction false} SetEachHasKey(q: seq<(string, string)>, ds: seq<(string, string)>, i: nat)
    requires i < |ds|
    ensures HasKey(SetEach(q, ds), ds[i].0)
    decreases |ds|
  {
    var init := ds[..|ds| - 1];
    var last := ds[|ds| - 1];
    var before := SetEach(q, init);
    HasKeyAppend(before, last, ds[i].0);
    if i < |init| {
      SetEachHasKey(q, init, i);
    }
  }

  /** Guarded `set`s of keys that are all present change nothing. */
  lemma {:induction false} SetEachPresent(q: seq<(string, string)>, ds: seq<(string, string)>)
    requires forall i :: 0 <= i < |ds| ==> HasKey(q, ds[i].0)
    ensures SetEach(q, ds) == q
    decreases |ds|
  {
    if |ds| > 0 {
      SetEachPresent(q, ds[..|ds| - 1]);
    }
  }

  /** One guarded `set`: when the pairs so far are the original ones plus the
      missing defaults among `ds`, and the next key's presence is as it was
      originally, the guarded `set` extends that by the next default. */
  lemma SetStep(q: seq<(string, string)>, cur: seq<(string, string)>, ds: seq<(string, string)>, p: (string, string))
    requires cur == q + Absent(q, ds)
    requires HasKey(cur, p.0) <==> HasKey(q, p.0)
    ensures SetIfAbsent(cur, p.0, p.1) == q + Absent(q, ds + [p])
    ensures HasKey(SetIfAbsent(cur, p.0, p.1), p.0)
  {
    var f := Absent(q, ds);
    assert (ds + [p])[..|ds|] == ds;
    HasKeyAppend(cur, p, p.0);
    if !HasKey(q, p.0) {
      assert Absent(q, ds + [p]) == f + [p];
      assert q + (f + [p]) == (q + f) + [p];
    } else {
      assert Absent(q, ds + [p]) == f;
    }
  }

  /** A guarded `set` of one key leaves the presence of every other key as it was. */
  lemma KeyStable(before: seq<(string, string)>, after: seq<(string, string)>, p: (string, string), key: string)
    requires after == SetIfAbsent(before, p.0, p.1)
    requires p.0 != key
    ensures HasKey(after, key) <==> HasKey(before, key)
  {
    HasKeyAppend(before, p, key);
  }

  /** Adding the defaults to pairs that already have all three changes nothing. */
  lemma AddDefaultsIdempotent(q: seq<(string, string)>, w1: int, w2: int)
    ensures AddDefaults(AddDefaults(q, w1), w2) == AddDefaults(q, w1)
  {
    var r := AddDefaults(q, w1);
    var d := Defaults(w2);
    assert forall i :: 0 <= i < |d| ==> d[i].0 in {"width", "format", "quality"};
    SetEachPresent(r, d);
  }

  /** The URL `getOptimizedImageUrl` builds for a CDN path. */
  function OptimizedCdnUrl(proxied: string, width: int): Url
  {
    var u := ParseUrl(proxied);
    Url(u.path, AddDefaults(u.query, width))
  }

  /** The three keys `getOptimizedImageUrl` guards are all present, so none
      of its `set` calls runs and the query text is left as written. */
  predicate HasAllDefaults(q: seq<(string, string)>) {
    HasKey(q, "width") && HasKey(q, "format") && HasKey(q, "quality")
  }

  /** `getOptimizedImageUrl(url, width)`: empty input comes back unchanged;
      a proxied URL outside `/cdn/image/` comes back with no parameter added;
      a CDN path gets the missing defaults and loses any fragment. When no
      default is missing the parameters are not touched, so `search` is the
      query text as written. */
  function OptimizedImageUrl(url: string, width: int): (r: string)
    ensures url == [] ==> r == []
    ensures url != [] && !StartsWith(ProxiedUrl(url), CdnPrefix) ==> r == ProxiedUrl(url)
    ensures url != [] && StartsWith(ProxiedUrl(url), CdnPrefix) ==>
              && StartsWith(r, CdnPrefix) && '#' !in r
              && var u := ParseUrl(r);
                 && u.path == ParseUrl(ProxiedUrl(url)).path
                 && u.query == AddDefaults(ParseUrl(ProxiedUrl(url)).query, width)
    ensures url != [] && StartsWith(ProxiedUrl(url), CdnPrefix) && HasAllDefaults(ParseUrl(ProxiedUrl(url)).query) ==>
              r == Before(ProxiedUrl(url), '#')
  {
    if url == [] then url
    else
      var proxied := ProxiedUrl(url);
      if !StartsWith(proxied, CdnPrefix) then proxied
      else if HasAllDefaults(ParseUrl(proxied).query) then
        UntouchedQuery(proxied, width);
        Before(proxied, '#')
      else
        OptimizedFacts(proxied, width);
        Serialize(OptimizedCdnUrl(proxied, width))
  }

  /** A CDN path that already has all three keys, cut at its fragment, still
      starts with `/cdn/image/` and reads back as the URL with the defaults
      added. */
  lemma UntouchedQuery(proxied: string, width: int)
    requires StartsWith(proxied, CdnPrefix) && HasAllDefaults(ParseUrl(proxied).query)
    ensures var r := Before(proxied, '#');
            && StartsWith(r, CdnPrefix) && ParseUrl(r) == ParseUrl(proxied)
            && ParseUrl(r) == OptimizedCdnUrl(proxied, width)
  {
    BeforeKeepsPrefix(proxied, '#', CdnPrefix);
    var q := ParseUrl(proxied).query;
    var d := Defaults(width);
    assert forall i :: 0 <= i < |d| ==> HasKey(q, d[i].0);
    SetEachPresent(q, d);
  }

  /** The URL built for a CDN path is well formed, still under `/cdn/image/`,
      carries no fragment and reads back as itself. */
  lemma OptimizedFacts(proxied: string, width: int)
    requires StartsWith(proxied, CdnPrefix)
    ensures var v := OptimizedCdnUrl(proxied, width);
            && WellFormedUrl(v)
            && StartsWith(Serialize(v), CdnPrefix) && '#' !in Serialize(v)
            && ParseUrl(Serialize(v)) == v
  {
    var v := OptimizedCdnUrl(proxied, width);
    OptimizedWellFormed(proxied, width);
    ParseSerialize(v);
    OptimizedPathPrefix(proxied, width);
  }

  lemma OptimizedPathPrefix(proxied: string, width: int)
    requires StartsWith(proxied, CdnPrefix)
    ensures StartsWith(Serialize(OptimizedCdnUrl(proxied, width)), CdnPrefix)
  {
    ParsedPathPrefix(proxied, CdnPrefix);
    var v := OptimizedCdnUrl(proxied, width);
    assert v.path == ParseUrl(proxied).path;
    SerializedPathPrefix(v, CdnPrefix);
  }

  /** A prefix free of `?` and `#` survives into the parsed path. */
  lemma ParsedPathPrefix(s: string, pre: string)
    requires StartsWith(s, pre) && '#' !in pre && '?' !in pre
    ensures StartsWith(ParseUrl(s).path, pre)
  {
    BeforeKeepsPrefix(s, '#', pre);
    BeforeKeepsPrefix(Before(s, '#'), '?', pre);
  }

  /** The serialised text begins with the path. */
  lemma SerializedPathPrefix(u: Url, pre: string)
    requires StartsWith(u.path, pre)
    ensures StartsWith(Serialize(u), pre)
  {
    assert Serialize(u)[..|u.path|] == u.path;
    assert Serialize(u)[..|pre|] == u.path[..|pre|];
  }

  /** The three defaults are well-formed pairs. */
  lemma DefaultsWellFormed(width: int)
    ensures forall p :: p in Defaults(width) ==> WellFormedPair(p)
  {
    IntToStringFree(width);
    var d := Defaults(width);
    assert WellFormedPair(d[0]) && WellFormedPair(d[1]) && WellFormedPair(d[2]);
  }

  lemma OptimizedWellFormed(proxied: string, width: int)
    ensures WellFormedUrl(OptimizedCdnUrl(proxied, width))
  {
    var u := ParseUrl(proxied);
    ParseUrlWellFormed(proxied);
    DefaultsWellFormed(width);
    AbsentMembers(u.query, Defaults(width));
    AddedWellFormed(u.query, AddDefaults(u.query, width), Absent(u.query, Defaults(width)));
  }

  /** Appending well-formed pairs to well-formed pairs keeps them well formed. */
  lemma AddedWellFormed(q: seq<(string, string)>, r: seq<(string, string)>, added: seq<(string, string)>)
    requires forall i :: 0 <= i < |q| ==> WellFormedPair(q[i])
    requires forall p :: p in added ==> WellFormedPair(p)
    requires |q| <= |r| && r[..|q|] == q && r[|q|..] == added
    ensures forall i :: 0 <= i < |r| ==> WellFormedPair(r[i])
  {
    forall i | 0 <= i < |r|
      ensures WellFormedPair(r[i])
    {
      if i >= |q| {
        assert r[i] == added[i - |q|];
      } else {
        assert r[i] == r[..|q|][i];
      }
    }
  }

  /** A decimal rendering has none of the URL's delimiter characters. */
  lemma IntToStringFree(n: int)
    ensures var s := IntToString(n); '&' !in s && '=' !in s && '#' !in s
  {
    var s := IntToString(n);
    var d := if n < 0 then NatToString(-n) else NatToString(n);
    assert forall c :: c in d ==> IsDigit(c);
    assert forall c :: c in s ==> c == '-' || c in d;
  }

  /** Cutting at a character the prefix does not contain keeps the prefix. */
  lemma BeforeKeepsPrefix(s: string, c: char, pre: string)
    requires StartsWith(s, pre) && c !in pre
    ensures StartsWith(Before(s, c), pre)
  {
    if c in s {
      var i := IndexOf(s, c);
      assert forall j :: 0 <= j < |pre| ==> s[j] == pre[j];
      assert i >= |pre|;
      assert s[..i][..|pre|] == s[..|pre|];
    }
  }

  /** `getOptimizedImageUrl` applied to its own output (with any width)
      returns that output: no parameter is ever duplicated. */
  lemma OptimizedImageUrlIdempotent(url: string, w1: int, w2: int)
    ensures OptimizedImageUrl(OptimizedImageUrl(url, w1), w2) == OptimizedImageUrl(url, w1)
  {
    var o := OptimizedImageUrl(url, w1);
    if url != [] {
      var proxied := ProxiedUrl(url);
      ProxiedUrlIdempotent(url);
      if StartsWith(proxied, CdnPrefix) {
        CdnPathNotProxied(o);
        assert HasAllDefaults(ParseUrl(o).query);
        assert Before(o, '#') == o;
      } else {
        assert proxied != [];
      }
    }
  }

  /** A CDN path whose query text already names all three keys comes back
      with that text exactly as written (bare keys, empty pieces and their
      order included); only the fragment goes. */
  lemma WrittenQueryKept(path: string, query: string, fragment: string, width: int)
    requires StartsWith(path, CdnPrefix) && '?' !in path && '#' !in path && '#' !in query
    requires HasAllDefaults(ParsePieces(Split(query, '&')))
    ensures OptimizedImageUrl(path + ['?'] + query + ['#'] + fragment, width) == path + ['?'] + query
  {
    var b := path + ['?'] + query;
    var s := b + ['#'] + fragment;
    assert '#' !in b;
    SplitAtFirst(b, '#', fragment);
    CutAbsent(b, '#');
    SplitAtFirst(path, '?', query);
    assert s[..|CdnPrefix|] == path[..|CdnPrefix|];
    CdnPathNotProxied(s);
  }

  /** A caller that passes no width gets 400: a bare CDN path comes back
      with the parameters `width=400`, `format=webp` and `quality=80`, in
      that order. */
  lemma DefaultWidthScenario(path: string)
    requires StartsWith(path, CdnPrefix) && '?' !in path && '#' !in path
    ensures DefaultWidth == 400
    ensures OptimizedImageUrl(path, DefaultWidth) == Serialize(Url(path, [("width", "400"), ("format", "webp"), ("quality", "80")]))
  {
    CdnPathNotProxied(path);
    CutAbsent(path, '#');
    CutAbsent(path, '?');
    assert Split([], '&') == [[]];
    assert ParsePieces([[]]) == [] + ParsePieces([]);
    assert ParseUrl(path) == Url(path, []);
    var d := DefaultParams();
    assert !HasAllDefaults([]);
    assert Absent([], d[..1]) == [d[0]] by {
      assert d[..1][..0] == [];
    }
    assert Absent([], d[..2]) == d[..2] by {
      assert d[..2][..1] == d[..1];
    }
    assert Absent([], d) == d;
  }

  /** The defaults for width 400. */
  lemma DefaultParams() returns (d: seq<(string, string)>)
    ensures d == Defaults(DefaultWidth) == [("width", "400"), ("format", "webp"), ("quality", "80")]
  {
    assert NatToString(400) == "400" by {
      assert NatToString(4) == "4";
      assert NatToString(40) == "40";
    }
    d := Defaults(DefaultWidth);
  }

  /** A path under `/cdn/image/` is left alone by `getProxiedUrl`. */
  lemma CdnPathNotProxied(s: string)
    requires StartsWith(s, CdnPrefix)
    ensures ProxiedUrl(s) == s
  {
    assert s[0] == '/';
    assert !StartsWith(s, Scheme) by {
      assert Scheme[0] == 'h';
    }
  }
}
