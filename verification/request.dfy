/**
 * How `CrawlURL` dresses its GET request: the User-Agent, the custom
 * headers parsed from the `-H` string and the cookies parsed from the
 * `-C` string.
 */
module RequestParams {
  import opened Wrappers
  import opened Strings
  import Config

  /** Separates the entries of the `-H` and `-C` strings. */
  const EntrySep: char := ';'
  /** Separates a header name from its value. */
  const HeaderSep: char := ':'
  /** Separates a cookie name from its value. */
  const CookieSep: char := '='

  datatype Cookie = Cookie(name: string, value: string)

  /** The GET request sent for one URL. */
  datatype Request = Request(url: string, header: map<string, string>, cookies: seq<Cookie>)

  /** `e` holds `sep` exactly once, at `k`, and `pair` is the trimmed text on either side. */
  predicate SplitAt(e: string, sep: char, k: nat, pair: (string, string))
  {
    && k < |e|
    && e[k] == sep
    && pair == (TrimSpace(e[..k]), TrimSpace(e[k + 1..]))
  }

  /**
   * One entry of the list: kept, as the trimmed (name, value) around the
   * separator, exactly when the separator occurs in it once.
   */
  function ParseEntry(e: string, sep: char): (r: Option<(string, string)>)
    ensures r.Some? <==> Count(e, sep) == 1
    ensures r.Some? ==> exists k: nat :: SplitAt(e, sep, k, r.value)
  {
    var parts := Split(e, sep);
    if |parts| == 2 then
      SplitThenJoin(e, sep);
      assert e == parts[0] + [sep] + parts[1];
      assert e[..|parts[0]|] == parts[0];
      assert e[|parts[0]| + 1..] == parts[1];
      assert SplitAt(e, sep, |parts[0]|, (TrimSpace(parts[0]), TrimSpace(parts[1])));
      Some((TrimSpace(parts[0]), TrimSpace(parts[1])))
    else None
  }

  /** The `Some` results of `f` over `xs`, in order. */
  function FilterMap<A, B>(xs: seq<A>, f: A -> Option<B>): (r: seq<B>)
    ensures |r| <= |xs|
  {
    if |xs| == 0 then []
    else
      var rest := FilterMap(xs[1..], f);
      match f(xs[0])
      case Some(y) => [y] + rest
      case None => rest
  }

  /** Every result comes from some element. */
  lemma {:induction false} FilterMapSound<A, B>(xs: seq<A>, f: A -> Option<B>)
    ensures forall k :: 0 <= k < |FilterMap(xs, f)| ==>
              exists j :: 0 <= j < |xs| && f(xs[j]) == Some(FilterMap(xs, f)[k])
  {
    if |xs| > 0 {
      var tail := xs[1..];
      FilterMapSound(tail, f);
      var r, rest := FilterMap(xs, f), FilterMap(tail, f);
      forall k | 0 <= k < |r|
        ensures exists j :: 0 <= j < |xs| && f(xs[j]) == Some(r[k])
      {
        match f(xs[0])
        case Some(y) =>
          assert r == [y] + rest;
          if k == 0 {
            assert f(xs[0]) == Some(r[k]);
          } else {
            assert r[k] == rest[k - 1];
            var j :| 0 <= j < |tail| && f(tail[j]) == Some(rest[k - 1]);
            assert f(xs[j + 1]) == Some(r[k]);
          }
        case None =>
          assert r == rest;
          var j :| 0 <= j < |tail| && f(tail[j]) == Some(rest[k]);
          assert f(xs[j + 1]) == Some(r[k]);
      }
      assert forall k :: 0 <= k < |r| ==> exists j :: 0 <= j < |xs| && f(xs[j]) == Some(r[k]);
    } else {
      assert FilterMap(xs, f) == [];
    }
  }

  /** Every element `f` keeps contributes its result. */
  lemma {:induction false} FilterMapComplete<A, B>(xs: seq<A>, f: A -> Option<B>)
    ensures forall j :: 0 <= j < |xs| && f(xs[j]).Some? ==> f(xs[j]).value in FilterMap(xs, f)
  {
    if |xs| > 0 {
      var tail := xs[1..];
      FilterMapComplete(tail, f);
      forall j | 0 <= j < |xs| && f(xs[j]).Some?
        ensures f(xs[j]).value in FilterMap(xs, f)
      {
        if j > 0 {
          assert xs[j] == tail[j - 1];
        }
      }
    }
  }

  /** When `f` keeps every element, the results are exactly the given ones, in order. */
  lemma {:induction false} FilterMapAll<A, B>(xs: seq<A>, ys: seq<B>, f: A -> Option<B>)
    requires |xs| == |ys|
    requires forall k :: 0 <= k < |xs| ==> f(xs[k]) == Some(ys[k])
    ensures FilterMap(xs, f) == ys
  {
    if |xs| > 0 {
      var tx, ty := xs[1..], ys[1..];
      assert forall k :: 0 <= k < |tx| ==> tx[k] == xs[k + 1] && ty[k] == ys[k + 1];
      FilterMapAll(tx, ty, f);
      assert ys == [ys[0]] + ty;
    }
  }

  /** The entries that parse, in their order, each as its parsed pair. */
  function ParsePairs(entries: seq<string>, sep: char): (r: seq<(string, string)>)
    ensures |r| <= |entries|
    ensures forall k :: 0 <= k < |r| ==>
              exists j :: 0 <= j < |entries| && ParseEntry(entries[j], sep) == Some(r[k])
    ensures forall j :: 0 <= j < |entries| && ParseEntry(entries[j], sep).Some? ==>
              ParseEntry(entries[j], sep).value in r
  {
    var f := e => ParseEntry(e, sep);
    FilterMapSound(entries, f);
    FilterMapComplete(entries, f);
    FilterMap(entries, f)
  }

  /** The headers of `-H`: `;`-separated entries, each kept only with exactly one `:`. */
  function ParseHeaders(s: string): (r: seq<(string, string)>)
    ensures s == "" ==> r == []
    ensures forall k :: 0 <= k < |r| ==> Trimmed(r[k].0) && Trimmed(r[k].1)
    ensures forall k :: 0 <= k < |r| ==>
              EntrySep !in r[k].0 && EntrySep !in r[k].1 && HeaderSep !in r[k].0 && HeaderSep !in r[k].1
  {
    if s == "" then [] else
      var r := ParsePairs(Split(s, EntrySep), HeaderSep);
      PairsClean(Split(s, EntrySep), HeaderSep, r);
      r
  }

  /** The cookies of `-C`: `;`-separated entries, each kept only with exactly one `=`, in order. */
  function ParseCookies(s: string): (r: seq<Cookie>)
    ensures s == "" ==> r == []
    ensures forall k :: 0 <= k < |r| ==> Trimmed(r[k].name) && Trimmed(r[k].value)
    ensures forall k :: 0 <= k < |r| ==>
              EntrySep !in r[k].name && EntrySep !in r[k].value && CookieSep !in r[k].name && CookieSep !in r[k].value
  {
    if s == "" then [] else
      var ps := ParsePairs(Split(s, EntrySep), CookieSep);
      PairsClean(Split(s, EntrySep), CookieSep, ps);
      AsCookies(ps)
  }

  /** Each (name, value) pair as a cookie, in order. */
  function AsCookies(ps: seq<(string, string)>): seq<Cookie>
  {
    seq(|ps|, k requires 0 <= k < |ps| => Cookie(ps[k].0, ps[k].1))
  }

  /** Every parsed pair is trimmed and free of both separators. */
  lemma PairsClean(entries: seq<string>, sep: char, r: seq<(string, string)>)
    requires forall j :: 0 <= j < |entries| ==> EntrySep !in entries[j]
    requires r == ParsePairs(entries, sep)
    ensures forall k :: 0 <= k < |r| ==> Trimmed(r[k].0) && Trimmed(r[k].1)
    ensures forall k :: 0 <= k < |r| ==>
              EntrySep !in r[k].0 && EntrySep !in r[k].1 && sep !in r[k].0 && sep !in r[k].1
  {
    forall k | 0 <= k < |r|
      ensures EntrySep !in r[k].0 && EntrySep !in r[k].1 && sep !in r[k].0 && sep !in r[k].1
    {
      var j :| 0 <= j < |entries| && ParseEntry(entries[j], sep) == Some(r[k]);
      EntryClean(entries[j], sep, r[k]);
    }
  }

  /** A parsed entry is free of both separators. */
  lemma EntryClean(e: string, sep: char, p: (string, string))
    requires EntrySep !in e
    requires ParseEntry(e, sep) == Some(p)
    ensures EntrySep !in p.0 && EntrySep !in p.1 && sep !in p.0 && sep !in p.1
  {
    var i: nat :| SplitAt(e, sep, i, p);
    OnlySeparator(e, sep, i);
    assert EntrySep !in e[..i] && EntrySep !in e[i + 1..];
    TrimSpaceKeepsOut(e[..i], EntrySep);
    TrimSpaceKeepsOut(e[i + 1..], EntrySep);
    TrimSpaceKeepsOut(e[..i], sep);
    TrimSpaceKeepsOut(e[i + 1..], sep);
  }

  /** When `sep` occurs once in `e`, at `i`, neither side holds it. */
  lemma OnlySeparator(e: string, sep: char, i: nat)
    requires Count(e, sep) == 1
    requires i < |e| && e[i] == sep
    ensures sep !in e[..i] && sep !in e[i + 1..]
  {
    var a, b := e[..i], e[i + 1..];
    assert e == a + ([sep] + b);
    CountAppend(a, [sep] + b, sep);
    CountAppend([sep], b, sep);
    CountZero(a, sep);
    CountZero(b, sep);
  }

  lemma {:induction false} CountAppend(a: string, b: string, c: char)
    ensures Count(a + b, c) == Count(a, c) + Count(b, c)
    decreases |a|
  {
    if |a| > 0 {
      assert (a + b)[1..] == a[1..] + b;
      CountAppend(a[1..], b, c);
    } else {
      assert a + b == b;
    }
  }

  /** Trimming never introduces a character. */
  lemma TrimSpaceKeepsOut(s: string, c: char)
    requires c !in s
    ensures c !in TrimSpace(s)
  {
    var r := TrimSpace(s);
    var i: nat :| SpaceAround(s, i, r);
    assert forall k :: 0 <= k < |r| ==> r[k] == s[i + k];
  }

  /**
   * An entry `a` + separator + `b` with the separator in neither side is
   * kept as the trimmed sides; this is the whole of what an entry means.
   */
  lemma ParseEntryOf(a: string, b: string, sep: char)
    requires sep !in a && sep !in b
    ensures ParseEntry(a + [sep] + b, sep) == Some((TrimSpace(a), TrimSpace(b)))
  {
    var e := a + [sep] + b;
    assert Join([a, b], sep) == e;
    JoinThenSplit([a, b], sep);
  }

  /**
   * An entry whose value itself holds the separator (a header value that
   * is a URL, a padded base64 cookie) is silently dropped.
   */
  lemma SeparatorInValueDropped(a: string, b: string, sep: char)
    requires sep in b
    ensures ParseEntry(a + [sep] + b, sep) == None
  {
    CountAppend(a + [sep], b, sep);
    CountAppend(a, [sep], sep);
    CountZero(b, sep);
  }

  /** An entry with no separator at all is dropped. */
  lemma NoSeparatorDropped(e: string, sep: char)
    requires sep !in e
    ensures ParseEntry(e, sep) == None
  {
    CountZero(e, sep);
  }

  /** Filtering a concatenation filters each part, in order. */
  lemma {:induction false} FilterMapAppend<A, B>(xs: seq<A>, ys: seq<A>, f: A -> Option<B>)
    ensures FilterMap(xs + ys, f) == FilterMap(xs, f) + FilterMap(ys, f)
    decreases |xs|
  {
    if |xs| == 0 {
      assert xs + ys == ys;
    } else {
      assert (xs + ys)[0] == xs[0];
      assert (xs + ys)[1..] == xs[1..] + ys;
      FilterMapAppend(xs[1..], ys, f);
    }
  }

  /** A list of entries parses entry by entry: the pairs of two lists in a row are those of the first, then those of the second. */
  lemma ParsePairsAppend(xs: seq<string>, ys: seq<string>, sep: char)
    ensures ParsePairs(xs + ys, sep) == ParsePairs(xs, sep) + ParsePairs(ys, sep)
  {
    FilterMapAppend(xs, ys, e => ParseEntry(e, sep));
  }

  /** A single entry gives its pair when it parses, and nothing otherwise. */
  lemma ParsePairsOne(e: string, sep: char)
    ensures ParsePairs([e], sep) == (if ParseEntry(e, sep).Some? then [ParseEntry(e, sep).value] else [])
  {
    assert [e][1..] == [];
  }

  /** The empty option is the single empty entry, which parses to nothing. */
  lemma EmptyEntry(sep: char)
    ensures Split("", EntrySep) == [""] && ParsePairs([""], sep) == []
  {
    ParsePairsOne("", sep);
  }

  /** The headers of any `-H` string, the empty one included, are the parsed pairs of its `;`-pieces. */
  lemma ParseHeadersPieces(s: string)
    ensures ParseHeaders(s) == ParsePairs(Split(s, EntrySep), HeaderSep)
  {
    EmptyEntry(HeaderSep);
  }

  /**
   * `-H` is read entry by entry, in order and with duplicates kept: the
   * headers of `a;b` are those of `a` followed by those of `b`, whatever
   * entries either side drops.
   */
  lemma ParseHeadersAppend(a: string, b: string)
    ensures ParseHeaders(a + [EntrySep] + b) == ParseHeaders(a) + ParseHeaders(b)
  {
    ParseHeadersPieces(a);
    ParseHeadersPieces(b);
    ParseHeadersPieces(a + [EntrySep] + b);
    SplitAppend(a, b, EntrySep);
    ParsePairsAppend(Split(a, EntrySep), Split(b, EntrySep), HeaderSep);
  }

  /** A `-H` string with a single entry gives that entry's header when it parses, and none otherwise. */
  lemma ParseHeadersEntry(e: string)
    requires EntrySep !in e
    ensures ParseHeaders(e) == (if ParseEntry(e, HeaderSep).Some? then [ParseEntry(e, HeaderSep).value] else [])
  {
    ParseHeadersPieces(e);
    SplitFree(e, EntrySep);
    ParsePairsOne(e, HeaderSep);
  }

  /** The cookies of any `-C` string, the empty one included, are the parsed pairs of its `;`-pieces. */
  lemma ParseCookiesPieces(s: string)
    ensures ParseCookies(s) == AsCookies(ParsePairs(Split(s, EntrySep), CookieSep))
  {
    EmptyEntry(CookieSep);
  }

  lemma AsCookiesAppend(p: seq<(string, string)>, q: seq<(string, string)>)
    ensures AsCookies(p + q) == AsCookies(p) + AsCookies(q)
  {
    assert forall k :: 0 <= k < |p + q| ==> (p + q)[k] == (if k < |p| then p[k] else q[k - |p|]);
  }

  /**
   * `-C` is read entry by entry, in order and with duplicates kept: the
   * cookies of `a;b` are those of `a` followed by those of `b`, whatever
   * entries either side drops.
   */
  lemma ParseCookiesAppend(a: string, b: string)
    ensures ParseCookies(a + [EntrySep] + b) == ParseCookies(a) + ParseCookies(b)
  {
    ParseCookiesPieces(a);
    ParseCookiesPieces(b);
    ParseCookiesPieces(a + [EntrySep] + b);
    SplitAppend(a, b, EntrySep);
    ParsePairsAppend(Split(a, EntrySep), Split(b, EntrySep), CookieSep);
    AsCookiesAppend(ParsePairs(Split(a, EntrySep), CookieSep), ParsePairs(Split(b, EntrySep), CookieSep));
  }

  /** A `-C` string with a single entry gives that entry's cookie when it parses, and none otherwise. */
  lemma ParseCookiesEntry(e: string)
    requires EntrySep !in e
    ensures ParseEntry(e, CookieSep).None? ==> ParseCookies(e) == []
    ensures ParseEntry(e, CookieSep).Some? ==>
      ParseCookies(e) == [Cookie(ParseEntry(e, CookieSep).value.0, ParseEntry(e, CookieSep).value.1)]
  {
    SingleCookieEntry(e);
    ParsePairsOne(e, CookieSep);
    if ParseEntry(e, CookieSep).Some? {
      var v := ParseEntry(e, CookieSep).value;
      assert AsCookies([v])[0] == Cookie(v.0, v.1);
    }
  }

  lemma SingleCookieEntry(e: string)
    requires EntrySep !in e
    ensures ParseCookies(e) == AsCookies(ParsePairs([e], CookieSep))
  {
    ParseCookiesPieces(e);
    SplitFree(e, EntrySep);
  }

  /** Each pair written as an entry, with `sep` between name and value. */
  function Entries(pairs: seq<(string, string)>, sep: char): (entries: seq<string>)
    ensures |entries| == |pairs|
  {
    seq(|pairs|, k requires 0 <= k < |pairs| => pairs[k].0 + [sep] + pairs[k].1)
  }

  /** Writes `pairs` back out as a `-H`/`-C` style list with `sep` between name and value. */
  function Render(pairs: seq<(string, string)>, sep: char): string
  {
    Join(Entries(pairs, sep), EntrySep)
  }

  /** Pairs that are trimmed and free of both separators. */
  predicate CleanPairs(pairs: seq<(string, string)>, sep: char)
  {
    forall k :: 0 <= k < |pairs| ==>
      && Trimmed(pairs[k].0) && Trimmed(pairs[k].1)
      && EntrySep !in pairs[k].0 && EntrySep !in pairs[k].1
      && sep !in pairs[k].0 && sep !in pairs[k].1
  }

  /** One clean pair, written as an entry, parses back to itself. */
  lemma EntryRoundTrip(n: string, v: string, sep: char)
    requires Trimmed(n) && Trimmed(v)
    requires sep !in n && sep !in v
    ensures ParseEntry(n + [sep] + v, sep) == Some((n, v))
  {
    ParseEntryOf(n, v, sep);
    TrimSpaceOfTrimmed(n);
    TrimSpaceOfTrimmed(v);
  }

  /** The entries written from clean pairs hold no `;` and each parses back to its pair. */
  lemma EntriesRoundTrip(pairs: seq<(string, string)>, sep: char)
    requires sep != EntrySep
    requires CleanPairs(pairs, sep)
    ensures forall k :: 0 <= k < |pairs| ==>
      EntrySep !in Entries(pairs, sep)[k] && ParseEntry(Entries(pairs, sep)[k], sep) == Some(pairs[k])
  {
    var entries := Entries(pairs, sep);
    forall k | 0 <= k < |pairs| ensures EntrySep !in entries[k] && ParseEntry(entries[k], sep) == Some(pairs[k]) {
      assert entries[k] == pairs[k].0 + [sep] + pairs[k].1;
      EntryRoundTrip(pairs[k].0, pairs[k].1, sep);
    }
  }

  /** Rendering clean pairs and parsing the text back gives the same pairs, in the same order. */
  lemma ParseRenderRoundTrip(pairs: seq<(string, string)>, sep: char)
    requires sep != EntrySep
    requires CleanPairs(pairs, sep)
    ensures pairs != [] ==> ParsePairs(Split(Render(pairs, sep), EntrySep), sep) == pairs
    ensures pairs == [] ==> Render(pairs, sep) == ""
  {
    var entries := Entries(pairs, sep);
    if pairs != [] {
      EntriesRoundTrip(pairs, sep);
      JoinThenSplit(entries, EntrySep);
      FilterMapAll(entries, pairs, e => ParseEntry(e, sep));
    }
  }

  /** A `-H` list written from clean headers parses back to exactly those headers. */
  lemma HeadersRoundTrip(pairs: seq<(string, string)>)
    requires CleanPairs(pairs, HeaderSep)
    ensures ParseHeaders(Render(pairs, HeaderSep)) == pairs
  {
    ParseRenderRoundTrip(pairs, HeaderSep);
  }

  /** A `-C` list written from clean cookies parses back to exactly those cookies, duplicates and order kept. */
  lemma CookiesRoundTrip(pairs: seq<(string, string)>)
    requires CleanPairs(pairs, CookieSep)
    ensures ParseCookies(Render(pairs, CookieSep)) == seq(|pairs|, k requires 0 <= k < |pairs| => Cookie(pairs[k].0, pairs[k].1))
  {
    ParseRenderRoundTrip(pairs, CookieSep);
  }

  /** Every name among `pairs`. */
  function Names<K, V>(pairs: seq<(K, V)>): set<K>
  {
    set k | 0 <= k < |pairs| :: pairs[k].0
  }

  /** No pair after index `j` has the name of pair `j`. */
  predicate LastWithName<K(==), V>(pairs: seq<(K, V)>, j: nat)
    requires j < |pairs|
  {
    forall k :: j < k < |pairs| ==> pairs[k].0 != pairs[j].0
  }

  /**
   * `Header.Set` for each pair in turn: every name ends up present, the
   * last pair with a name decides its value, other entries are untouched.
   */
  function SetAll<K, V>(m: map<K, V>, pairs: seq<(K, V)>): (r: map<K, V>)
    ensures r.Keys == m.Keys + Names(pairs)
    ensures forall j :: 0 <= j < |pairs| && LastWithName(pairs, j) ==> r[pairs[j].0] == pairs[j].1
    ensures forall n :: n in m && n !in Names(pairs) ==> r[n] == m[n]
    decreases |pairs|
  {
    if |pairs| == 0 then m
    else
      var init := pairs[..|pairs| - 1];
      var last := pairs[|pairs| - 1];
      assert pairs == init + [last];
      var before := SetAll(m, init);
      SetLast(m, init, last, before);
      before[last.0 := last.1]
  }

  /** Setting the last pair on top of the map set from the others gives the map set from all of them. */
  lemma SetLast<K, V>(m: map<K, V>, init: seq<(K, V)>, last: (K, V), before: map<K, V>)
    requires before.Keys == m.Keys + Names(init)
    requires forall j :: 0 <= j < |init| && LastWithName(init, j) ==> before[init[j].0] == init[j].1
    requires forall n :: n in m && n !in Names(init) ==> before[n] == m[n]
    ensures var pairs, r := init + [last], before[last.0 := last.1];
      && r.Keys == m.Keys + Names(pairs)
      && (forall j :: 0 <= j < |pairs| && LastWithName(pairs, j) ==> r[pairs[j].0] == pairs[j].1)
      && (forall n :: n in m && n !in Names(pairs) ==> r[n] == m[n])
  {
    var pairs := init + [last];
    NamesSnoc(pairs);
    assert pairs[..|pairs| - 1] == init;
    forall j | 0 <= j < |init| && LastWithName(pairs, j)
      ensures pairs[j].0 != last.0 && LastWithName(init, j) && pairs[j] == init[j]
    {
      assert pairs[|pairs| - 1] == last;
    }
  }

  /** A last `-H` entry that parses sets its header, whatever came before it. */
  lemma LaterHeaderWins(m: map<string, string>, a: string, b: string)
    requires EntrySep !in b && ParseEntry(b, HeaderSep).Some?
    ensures var p, h := ParseEntry(b, HeaderSep).value, SetAll(m, ParseHeaders(a + [EntrySep] + b));
      p.0 in h && h[p.0] == p.1
  {
    var p := ParseEntry(b, HeaderSep).value;
    ParseHeadersAppend(a, b);
    ParseHeadersEntry(b);
    var ps := ParseHeaders(a + [EntrySep] + b);
    assert ps[|ps| - 1] == p;
    assert LastWithName(ps, |ps| - 1);
  }

  lemma NamesSnoc<K, V>(pairs: seq<(K, V)>)
    requires |pairs| > 0
    ensures Names(pairs) == Names(pairs[..|pairs| - 1]) + {pairs[|pairs| - 1].0}
  {
    var init := pairs[..|pairs| - 1];
    assert forall k :: 0 <= k < |init| ==> init[k] == pairs[k];
  }

  /** The header map of the request: User-Agent first when given, then each parsed `-H` header. */
  function RequestHeader(o: Config.Options): (h: map<string, string>)
    ensures h.Keys == (if o.userAgent != "" then {"User-Agent"} else {}) + Names(ParseHeaders(o.headers))
    ensures forall j :: 0 <= j < |ParseHeaders(o.headers)| && LastWithName(ParseHeaders(o.headers), j) ==>
              h[ParseHeaders(o.headers)[j].0] == ParseHeaders(o.headers)[j].1
    ensures o.userAgent != "" && "User-Agent" !in Names(ParseHeaders(o.headers)) ==> h["User-Agent"] == o.userAgent
  {
    SetAll(if o.userAgent != "" then map["User-Agent" := o.userAgent] else map[], ParseHeaders(o.headers))
  }

  /** The GET request `CrawlURL` sends for `u`. */
  function BuildRequest(o: Config.Options, u: string): (req: Request)
    ensures req.url == u
    ensures req.cookies == ParseCookies(o.cookies)
    ensures req.header.Keys == (if o.userAgent != "" then {"User-Agent"} else {}) + Names(ParseHeaders(o.headers))
    ensures req.header == RequestHeader(o)
  {
    Request(u, RequestHeader(o), ParseCookies(o.cookies))
  }

  /**
   * The User-Agent header carries `-ua` unless a `-H` entry named
   * `User-Agent` comes later and overrides it; with neither it is absent.
   */
  lemma UserAgentHeader(o: Config.Options, u: string)
    ensures var h := BuildRequest(o, u).header;
      && (o.userAgent != "" && "User-Agent" !in Names(ParseHeaders(o.headers)) ==> h["User-Agent"] == o.userAgent)
      && (o.userAgent == "" && "User-Agent" !in Names(ParseHeaders(o.headers)) ==> "User-Agent" !in h)
  {
  }

  /** With no `-ua`, no `-H` and no `-C`, the request is bare. */
  lemma BareRequest(o: Config.Options, u: string)
    requires o.userAgent == "" && o.headers == "" && o.cookies == ""
    ensures BuildRequest(o, u) == Request(u, map[], [])
  {
  }
}
