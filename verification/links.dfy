/**
 * Link extraction. `ExtractLinksFromHtml` is the fixed pattern
 * `(?i)(?:href|src)="([^"]+)"` run as Go's `FindAllStringSubmatch` does:
 * leftmost, non-overlapping matches, scanned left to right, each giving
 * its capture. `ExtractLinksFromJs` panics on its first match, so only its
 * no-match path yields links (none).
 */
module Links {
  import opened Wrappers

  const Quote: char := '"'
  const HrefPrefix: string := "href=\""
  const SrcPrefix: string := "src=\""

  /**
   * `c` matches the pattern character `p` under `(?i)`: Go folds case by
   * Unicode simple folding, so an ASCII letter matches both its cases and
   * `s` also matches U+017F (long s). `p` is lower case or punctuation.
   */
  predicate FoldEq(c: char, p: char)
  {
    || c == p
    || ('a' <= p <= 'z' && c as int == p as int - 32)
    || (p == 's' && c == '\U{017F}')
  }

  /** `lit` occurs at position `i` of `c`, letters compared up to case folding. */
  predicate PrefixAt(c: string, i: nat, lit: string)
  {
    i + |lit| <= |c| && forall j :: 0 <= j < |lit| ==> FoldEq(c[i + j], lit[j])
  }

  /**
   * One match: `href="` or `src="` at `start`, a non-empty run of
   * non-quote characters `c[lo..hi]` (the capture), and a quote at `hi`.
   */
  datatype Span = Span(start: nat, lo: nat, hi: nat)

  predicate IsMatch(c: string, sp: Span)
  {
    && ((PrefixAt(c, sp.start, HrefPrefix) && sp.lo == sp.start + |HrefPrefix|)
        || (PrefixAt(c, sp.start, SrcPrefix) && sp.lo == sp.start + |SrcPrefix|))
    && sp.lo < sp.hi < |c|
    && c[sp.hi] == Quote
    && forall j :: sp.lo <= j < sp.hi ==> c[j] != Quote
  }

  /** The index of the first quote at or after `p`, or `|c|` when there is none. */
  function QuoteFrom(c: string, p: nat): (q: nat)
    requires p <= |c|
    ensures p <= q <= |c|
    ensures q < |c| ==> c[q] == Quote
    ensures forall j :: p <= j < q ==> c[j] != Quote
    decreases |c| - p
  {
    if p == |c| || c[p] == Quote then p else QuoteFrom(c, p + 1)
  }

  /** The match starting exactly at `i`, if there is one; `MatchAtUnique` shows there is never another. */
  function MatchAt(c: string, i: nat): (r: Option<Span>)
    ensures r.Some? ==> r.value.start == i && IsMatch(c, r.value)
  {
    var lo :=
      if PrefixAt(c, i, HrefPrefix) then i + |HrefPrefix|
      else if PrefixAt(c, i, SrcPrefix) then i + |SrcPrefix|
      else |c| + 1;
    HrefNotSrc(c, i);
    if lo > |c| then None
    else
      var hi := QuoteFrom(c, lo);
      if lo < hi < |c| then Some(Span(i, lo, hi)) else None
  }

  /** Any match starting at `i` is the one `MatchAt` finds. */
  lemma MatchAtUnique(c: string, i: nat, sp: Span)
    requires sp.start == i && IsMatch(c, sp)
    ensures MatchAt(c, i) == Some(sp)
  {
    HrefNotSrc(c, i);
    if PrefixAt(c, i, HrefPrefix) {
      assert sp.lo == i + |HrefPrefix|;
    } else {
      assert sp.lo == i + |SrcPrefix|;
    }
    var q := QuoteFrom(c, sp.lo);
    assert q == sp.hi;
  }

  /**
   * A matcher for a text of length `n`: at each position, the match that
   * starts there, if any, always ending inside the text. The scan below is
   * stated for any matcher; `MatchesOf` is the one of this pattern.
   */
  ghost predicate Matcher(m: nat -> Option<Span>, n: nat)
  {
    forall j: nat :: m(j).Some? ==> m(j).value.start == j && j < m(j).value.hi < n
  }

  function MatchesOf(c: string): (m: nat -> Option<Span>)
    ensures Matcher(m, |c|)
  {
    (j: nat) => MatchAt(c, j)
  }

  /** `href="` and `src="` never both start at one position. */
  lemma HrefNotSrc(c: string, i: nat)
    ensures PrefixAt(c, i, HrefPrefix) ==> !PrefixAt(c, i, SrcPrefix)
  {
    if PrefixAt(c, i, HrefPrefix) {
      assert FoldEq(c[i + 0], HrefPrefix[0]);
      assert HrefPrefix[0] == 'h' && SrcPrefix[0] == 's';
    }
  }

  /** No match starts anywhere in `[a, b)`. */
  predicate NoneIn(m: nat -> Option<Span>, a: nat, b: nat)
  {
    forall j :: a <= j < b ==> m(j).None?
  }

  /** Where the `k`-th gap begins: at `i` before the first span, else just after span `k - 1`. */
  function GapStart(i: nat, spans: seq<Span>, k: nat): nat
    requires k <= |spans|
  {
    if k == 0 then i else spans[k - 1].hi + 1
  }

  /** Where the `k`-th gap ends: at span `k`, or at the end of the text after the last span. */
  function GapEnd(n: nat, spans: seq<Span>, k: nat): nat
    requires k <= |spans|
  {
    if k == |spans| then n else spans[k].start
  }

  /**
   * `spans` are the leftmost non-overlapping matches from `i` on, in a
   * text of length `n`: each is a match, they are in order and apart, and
   * no match starts before the first, between two of them, or after the last.
   */
  predicate Leftmost(m: nat -> Option<Span>, n: nat, i: nat, spans: seq<Span>)
  {
    && (forall k :: 0 <= k < |spans| ==> i <= spans[k].start && m(spans[k].start) == Some(spans[k]))
    && (forall j, k :: 0 <= j < k < |spans| ==> spans[j].hi < spans[k].start)
    && (forall k :: 0 <= k <= |spans| ==> NoneIn(m, GapStart(i, spans, k), GapEnd(n, spans, k)))
  }

  /** A match at `i` followed by the leftmost matches after it are the leftmost matches from `i`. */
  lemma LeftmostCons(m: nat -> Option<Span>, n: nat, i: nat, sp: Span, rest: seq<Span>)
    requires Matcher(m, n) && m(i) == Some(sp)
    requires Leftmost(m, n, sp.hi + 1, rest)
    ensures Leftmost(m, n, i, [sp] + rest)
  {
    var spans := [sp] + rest;
    assert forall k :: 0 < k < |spans| ==> spans[k] == rest[k - 1];
    assert forall k :: 0 < k <= |spans| ==>
      GapStart(i, spans, k) == GapStart(sp.hi + 1, rest, k - 1) && GapEnd(n, spans, k) == GapEnd(n, rest, k - 1);
    assert GapStart(i, spans, 0) == i == GapEnd(n, spans, 0);
  }

  /** A position with no match can be skipped. */
  lemma LeftmostSkip(m: nat -> Option<Span>, n: nat, i: nat, spans: seq<Span>)
    requires m(i).None?
    requires Leftmost(m, n, i + 1, spans)
    ensures Leftmost(m, n, i, spans)
  {
    if |spans| > 0 {
      assert spans[0].start != i;
    }
    assert NoneIn(m, GapStart(i + 1, spans, 0), GapEnd(n, spans, 0));
  }

  /** The left-to-right scan from `i`: at each position take the match there and resume after it, or move one on. */
  function ScanWith(m: nat -> Option<Span>, n: nat, i: nat): seq<Span>
    requires Matcher(m, n) && i <= n
    decreases n - i
  {
    if i == n then []
    else
      match m(i)
      case Some(sp) => [sp] + ScanWith(m, n, sp.hi + 1)
      case None => ScanWith(m, n, i + 1)
  }

  /** The scan finds the leftmost non-overlapping matches. */
  lemma {:induction false} ScanWithLeftmost(m: nat -> Option<Span>, n: nat, i: nat)
    requires Matcher(m, n) && i <= n
    ensures Leftmost(m, n, i, ScanWith(m, n, i))
    decreases n - i
  {
    if i < n {
      match m(i)
      case Some(sp) =>
        ScanWithLeftmost(m, n, sp.hi + 1);
        LeftmostCons(m, n, i, sp, ScanWith(m, n, sp.hi + 1));
      case None =>
        ScanWithLeftmost(m, n, i + 1);
        LeftmostSkip(m, n, i, ScanWith(m, n, i + 1));
    }
  }

  /** When a match starts at `i`, the leftmost matches from `i` are it and then the leftmost matches after it. */
  lemma LeftmostTail(m: nat -> Option<Span>, n: nat, i: nat, sp: Span, spans: seq<Span>)
    requires Matcher(m, n) && i < n && m(i) == Some(sp)
    requires Leftmost(m, n, i, spans)
    ensures |spans| > 0 && spans[0] == sp
    ensures Leftmost(m, n, sp.hi + 1, spans[1..])
  {
    assert NoneIn(m, GapStart(i, spans, 0), GapEnd(n, spans, 0));
    assert |spans| > 0 && spans[0].start == i;
    assert spans[0] == sp;
    var rest := spans[1..];
    assert forall k :: 0 <= k < |rest| ==> rest[k] == spans[k + 1];
    forall k | 0 <= k <= |rest|
      ensures NoneIn(m, GapStart(sp.hi + 1, rest, k), GapEnd(n, rest, k))
    {
      assert NoneIn(m, GapStart(i, spans, k + 1), GapEnd(n, spans, k + 1));
      if k > 0 {
        assert GapStart(sp.hi + 1, rest, k) == rest[k - 1].hi + 1 == spans[k].hi + 1;
      }
    }
  }

  /** When no match starts at `i`, the leftmost matches from `i` are those from `i + 1`. */
  lemma LeftmostNext(m: nat -> Option<Span>, n: nat, i: nat, spans: seq<Span>)
    requires m(i).None?
    requires Leftmost(m, n, i, spans)
    ensures Leftmost(m, n, i + 1, spans)
  {
    if |spans| > 0 {
      assert spans[0].start != i;
    }
    assert forall k :: 0 < k <= |spans| ==> GapStart(i + 1, spans, k) == GapStart(i, spans, k);
    assert NoneIn(m, GapStart(i, spans, 0), GapEnd(n, spans, 0));
  }

  /** The leftmost non-overlapping matches are unique: the scan is the only sequence with that description. */
  lemma {:induction false} LeftmostUnique(m: nat -> Option<Span>, n: nat, i: nat, spans: seq<Span>)
    requires Matcher(m, n) && i <= n
    requires Leftmost(m, n, i, spans)
    ensures spans == ScanWith(m, n, i)
    decreases n - i
  {
    if i < n {
      match m(i)
      case Some(sp) =>
        LeftmostTail(m, n, i, sp, spans);
        LeftmostUnique(m, n, sp.hi + 1, spans[1..]);
        assert spans == [sp] + spans[1..];
      case None =>
        LeftmostNext(m, n, i, spans);
        LeftmostUnique(m, n, i + 1, spans);
    }
  }

  /** The matches of the pattern in `c`, from `i` on. */
  function Scan(c: string, i: nat): seq<Span>
    requires i <= |c|
  {
    ScanWith(MatchesOf(c), |c|, i)
  }

  /** The capture of one match. */
  function Capture(c: string, sp: Span): string
  {
    if sp.lo <= sp.hi <= |c| then c[sp.lo..sp.hi] else ""
  }

  function Captures(c: string, spans: seq<Span>): seq<string>
  {
    seq(|spans|, k requires 0 <= k < |spans| => Capture(c, spans[k]))
  }

  /**
   * `ExtractLinksFromHTML`: the captures of the leftmost non-overlapping
   * matches, in content order. Each link is non-empty and quote-free, and
   * there are none exactly when nothing in the content matches.
   */
  function ExtractLinksFromHtml(content: string): (links: seq<string>)
    ensures forall k :: 0 <= k < |links| ==> |links[k]| > 0 && Quote !in links[k]
    ensures exists spans :: Leftmost(MatchesOf(content), |content|, 0, spans) && links == Captures(content, spans)
    ensures links == [] <==> NoneIn(MatchesOf(content), 0, |content|)
  {
    var spans := Scan(content, 0);
    ScanWithLeftmost(MatchesOf(content), |content|, 0);
    CapturesClean(content, spans);
    NoLinksNoMatch(content, spans);
    Captures(content, spans)
  }

  /** The capture of every match is non-empty and quote-free. */
  lemma CapturesClean(c: string, spans: seq<Span>)
    requires Leftmost(MatchesOf(c), |c|, 0, spans)
    ensures forall k :: 0 <= k < |spans| ==> |Captures(c, spans)[k]| > 0 && Quote !in Captures(c, spans)[k]
  {
    forall k | 0 <= k < |spans| ensures |Captures(c, spans)[k]| > 0 && Quote !in Captures(c, spans)[k] {
      var sp := spans[k];
      assert MatchesOf(c)(sp.start) == Some(sp);
      assert IsMatch(c, sp);
      var l := Captures(c, spans)[k];
      assert l == c[sp.lo..sp.hi];
      assert forall j :: 0 <= j < |l| ==> l[j] == c[sp.lo + j];
    }
  }

  /** There are no matches exactly when no match starts anywhere. */
  lemma NoLinksNoMatch(c: string, spans: seq<Span>)
    requires Leftmost(MatchesOf(c), |c|, 0, spans)
    ensures spans == [] <==> NoneIn(MatchesOf(c), 0, |c|)
  {
    assert NoneIn(MatchesOf(c), GapStart(0, spans, 0), GapEnd(|c|, spans, 0));
    if |spans| > 0 {
      assert MatchesOf(c)(spans[0].start).Some?;
    }
  }

  /** Each link sits in the content right after `href="` or `src="` (any case) and right before a quote. */
  lemma LinkInContext(content: string, k: nat)
    requires k < |ExtractLinksFromHtml(content)|
    ensures exists sp :: IsMatch(content, sp) && ExtractLinksFromHtml(content)[k] == content[sp.lo..sp.hi]
  {
    var spans: seq<Span> :| Leftmost(MatchesOf(content), |content|, 0, spans) && ExtractLinksFromHtml(content) == Captures(content, spans);
    var sp := spans[k];
    assert MatchesOf(content)(sp.start) == Some(sp);
    assert IsMatch(content, sp);
  }

  /** A position whose character cannot open `href="` or `src="` starts no match. */
  lemma NoMatchAtChar(c: string, i: nat)
    requires i < |c| && !FoldEq(c[i], 'h') && !FoldEq(c[i], 's')
    ensures MatchAt(c, i).None?
  {
    assert HrefPrefix[0] == 'h' && SrcPrefix[0] == 's';
    PrefixHead(c, i, HrefPrefix);
    PrefixHead(c, i, SrcPrefix);
  }

  lemma PrefixHead(c: string, i: nat, lit: string)
    requires i < |c| && |lit| > 0
    ensures PrefixAt(c, i, lit) ==> FoldEq(c[i], lit[0])
  {
    assert PrefixAt(c, i, lit) ==> FoldEq(c[i + 0], lit[0]);
  }

  const AnchorOpen: string := "<a href=\""
  const AnchorClose: string := "\">"

  /** An anchor element whose `href` attribute holds `l`. */
  function Anchor(l: string): string
  {
    AnchorOpen + l + AnchorClose
  }

  /** A page made of one anchor per link, in order. */
  function Page(links: seq<string>): string
  {
    if |links| == 0 then "" else Anchor(links[0]) + Page(links[1..])
  }

  /** The quote closing a capture that holds no quote is found right after it. */
  lemma QuoteAfter(c: string, p: nat, l: string)
    requires p + |l| < |c| && c[p..p + |l|] == l && Quote !in l && c[p + |l|] == Quote
    ensures QuoteFrom(c, p) == p + |l|
  {
    var q := QuoteFrom(c, p);
    assert forall j :: p <= j < p + |l| ==> c[j] == l[j - p];
  }

  /** The characters of an anchor placed at `i`. */
  lemma AnchorChars(c: string, i: nat, l: string)
    requires i + |Anchor(l)| <= |c| && c[i..i + |Anchor(l)|] == Anchor(l)
    ensures |Anchor(l)| == 11 + |l|
    ensures c[i] == '<' && c[i + 1] == 'a' && c[i + 2] == ' '
    ensures c[i + 3..i + 9] == HrefPrefix
    ensures c[i + 9..i + 9 + |l|] == l
    ensures c[i + 9 + |l|] == Quote && c[i + 10 + |l|] == '>'
  {
    var a := Anchor(l);
    assert forall j :: 0 <= j < |a| ==> c[i + j] == a[j];
    assert forall j :: 0 <= j < |AnchorOpen| ==> a[j] == AnchorOpen[j];
    assert forall j :: 0 <= j < |HrefPrefix| ==> HrefPrefix[j] == AnchorOpen[3 + j];
    var sub := c[i + 3..i + 9];
    assert forall j :: 0 <= j < |sub| ==> sub[j] == c[i + 3 + j];
    assert forall j :: 0 <= j < |l| ==> a[9 + j] == l[j];
    assert a[9 + |l|] == AnchorClose[0] && a[10 + |l|] == AnchorClose[1];
  }

  /** The match of an anchor at `i` is its `href` attribute. */
  lemma AnchorMatch(c: string, i: nat, l: string)
    requires |l| > 0 && Quote !in l
    requires i + |Anchor(l)| <= |c| && c[i..i + |Anchor(l)|] == Anchor(l)
    ensures MatchAt(c, i + 3) == Some(Span(i + 3, i + 9, i + 9 + |l|))
  {
    AnchorChars(c, i, l);
    assert PrefixAt(c, i + 3, HrefPrefix) by {
      var sub := c[i + 3..i + 9];
      assert forall j :: 0 <= j < |sub| ==> c[i + 3 + j] == sub[j];
    }
    QuoteAfter(c, i + 9, l);
  }

  /**
   * Over an anchor's shape — three positions with no match, the match, and
   * one more position with no match right after it — the leftmost matches
   * are that match and then the leftmost matches after the shape.
   */
  lemma AnchorShapeLeftmost(m: nat -> Option<Span>, n: nat, i: nat, sp: Span, j: nat, rest: seq<Span>)
    requires Matcher(m, n)
    requires m(i).None? && m(i + 1).None? && m(i + 2).None? && m(i + 3) == Some(sp)
    requires j == sp.hi + 1 && m(j).None?
    requires Leftmost(m, n, j + 1, rest)
    ensures Leftmost(m, n, i, [sp] + rest)
  {
    LeftmostSkip(m, n, j, rest);
    LeftmostCons(m, n, i + 3, sp, rest);
    LeftmostSkip(m, n, i + 2, [sp] + rest);
    LeftmostSkip(m, n, i + 1, [sp] + rest);
    LeftmostSkip(m, n, i, [sp] + rest);
  }

  /** A position whose character cannot open an attribute starts no match, read through the matcher the scan uses. */
  lemma NoMatchThrough(c: string, k: nat)
    requires k < |c| && !FoldEq(c[k], 'h') && !FoldEq(c[k], 's')
    ensures MatchesOf(c)(k).None?
  {
    NoMatchAtChar(c, k);
  }

  /** The match of an anchor at `i`, read through the matcher the scan uses. */
  lemma AnchorMatchThrough(c: string, i: nat, l: string)
    requires |l| > 0 && Quote !in l
    requires i + |Anchor(l)| <= |c| && c[i..i + |Anchor(l)|] == Anchor(l)
    ensures MatchesOf(c)(i + 3) == Some(AnchorSpan(i, l))
  {
    AnchorMatch(c, i, l);
  }

  /** The match an anchor at `i` holding `l` gives. */
  function AnchorSpan(i: nat, l: string): Span
  {
    Span(i + 3, i + 9, i + 9 + |l|)
  }

  /** An anchor at `i` contributes its match to the leftmost matches, which resume right after it. */
  lemma AnchorLeftmost(c: string, i: nat, l: string, rest: seq<Span>)
    requires |l| > 0 && Quote !in l
    requires i + |Anchor(l)| <= |c| && c[i..i + |Anchor(l)|] == Anchor(l)
    requires Leftmost(MatchesOf(c), |c|, i + |Anchor(l)|, rest)
    ensures Leftmost(MatchesOf(c), |c|, i, [AnchorSpan(i, l)] + rest)
  {
    var sp := AnchorSpan(i, l);
    var j := i + 10 + |l|;
    AnchorChars(c, i, l);
    NoMatchThrough(c, i);
    NoMatchThrough(c, i + 1);
    NoMatchThrough(c, i + 2);
    NoMatchThrough(c, j);
    AnchorMatchThrough(c, i, l);
    AnchorShapeLeftmost(MatchesOf(c), |c|, i, sp, j, rest);
  }

  /** The matches of a page of anchors placed at `i`: one per anchor. */
  function PageSpans(links: seq<string>, i: nat): (spans: seq<Span>)
    ensures |spans| == |links|
    decreases |links|
  {
    if |links| == 0 then [] else [AnchorSpan(i, links[0])] + PageSpans(links[1..], i + |Anchor(links[0])|)
  }

  lemma CapturesCons(c: string, sp: Span, rest: seq<Span>)
    ensures Captures(c, [sp] + rest) == [Capture(c, sp)] + Captures(c, rest)
  {
    assert forall k :: 0 < k < |rest| + 1 ==> ([sp] + rest)[k] == rest[k - 1];
  }

  lemma SliceApart(c: string, i: nat, a: string, b: string)
    requires i <= |c| && c[i..] == a + b
    ensures i + |a| <= |c| && c[i..i + |a|] == a && c[i + |a|..] == b
  {
    assert c[i..i + |a|] == c[i..][..|a|];
    assert c[i + |a|..] == c[i..][|a|..];
  }

  /** The matches of a page of anchors are the leftmost ones. */
  lemma {:induction false} PageLeftmost(c: string, i: nat, links: seq<string>)
    requires i <= |c| && c[i..] == Page(links)
    requires forall k :: 0 <= k < |links| ==> |links[k]| > 0 && Quote !in links[k]
    ensures Leftmost(MatchesOf(c), |c|, i, PageSpans(links, i))
    decreases |links|
  {
    if |links| == 0 {
      assert |c[i..]| == 0;
      assert NoneIn(MatchesOf(c), GapStart(i, [], 0), GapEnd(|c|, [], 0));
    } else {
      var l := links[0];
      var a := Anchor(l);
      SliceApart(c, i, a, Page(links[1..]));
      assert forall k :: 0 <= k < |links[1..]| ==> links[1..][k] == links[k + 1];
      PageLeftmost(c, i + |a|, links[1..]);
      AnchorLeftmost(c, i, l, PageSpans(links[1..], i + |a|));
    }
  }

  /** The captures of a page's matches are its links. */
  lemma {:induction false} PageCaptures(c: string, i: nat, links: seq<string>)
    requires i <= |c| && c[i..] == Page(links)
    ensures Captures(c, PageSpans(links, i)) == links
    decreases |links|
  {
    if |links| > 0 {
      var l := links[0];
      var a := Anchor(l);
      SliceApart(c, i, a, Page(links[1..]));
      PageCaptures(c, i + |a|, links[1..]);
      CapturesCons(c, AnchorSpan(i, l), PageSpans(links[1..], i + |a|));
      AnchorChars(c, i, l);
      assert links == [l] + links[1..];
    }
  }

  /**
   * Round trip: links that are non-empty and quote-free, written as a
   * page of anchors, are extracted again, all of them and in order.
   */
  lemma HtmlRoundTrip(links: seq<string>)
    requires forall k :: 0 <= k < |links| ==> |links[k]| > 0 && Quote !in links[k]
    ensures ExtractLinksFromHtml(Page(links)) == links
  {
    var c := Page(links);
    assert c[0..] == c;
    PageLeftmost(c, 0, links);
    PageCaptures(c, 0, links);
    LeftmostUnique(MatchesOf(c), |c|, 0, PageSpans(links, 0));
  }

  /** An empty attribute (`href=""`) is no match: the capture needs at least one character. */
  lemma EmptyAttributeNoMatch(c: string, i: nat)
    requires PrefixAt(c, i, HrefPrefix) && i + |HrefPrefix| < |c| && c[i + |HrefPrefix|] == Quote
    ensures MatchAt(c, i).None?
  {
    HrefNotSrc(c, i);
  }

  // ---- JavaScript ----

  const HttpPrefix: string := "http://"
  const HttpsPrefix: string := "https://"

  /** A character the class `[^"']` accepts. */
  predicate UrlChar(ch: char)
  {
    ch != '"' && ch != '\''
  }

  /** The pattern `(?i)https?://[^"']+` has a match starting at `i`. */
  predicate JsMatchAt(c: string, i: nat)
  {
    || (PrefixAt(c, i, HttpPrefix) && i + |HttpPrefix| < |c| && UrlChar(c[i + |HttpPrefix|]))
    || (PrefixAt(c, i, HttpsPrefix) && i + |HttpsPrefix| < |c| && UrlChar(c[i + |HttpsPrefix|]))
  }

  /** Whether a match starts anywhere from `i` on. */
  function HasJsMatch(c: string, i: nat): (r: bool)
    requires i <= |c|
    ensures r <==> exists j :: i <= j < |c| && JsMatchAt(c, j)
    decreases |c| - i
  {
    if i == |c| then false else JsMatchAt(c, i) || HasJsMatch(c, i + 1)
  }

  /** What `ExtractLinksFromJS` comes to: a list of links, or a panic. */
  datatype JsResult = JsLinks(links: seq<string>) | JsPanic

  /**
   * `ExtractLinksFromJS`: its pattern has no capture group, so reading
   * the first group of the first match indexes out of range and panics;
   * with no match it returns no links.
   */
  function ExtractLinksFromJs(content: string): (r: JsResult)
    ensures r == JsPanic <==> exists j :: 0 <= j < |content| && JsMatchAt(content, j)
    ensures r.JsLinks? ==> r.links == []
  {
    if HasJsMatch(content, 0) then JsPanic else JsLinks([])
  }

  /** Script text without a `:` cannot hold a URL literal, so extraction returns no links rather than panicking. */
  lemma JsWithoutSchemeHasNoLinks(content: string)
    requires ':' !in content
    ensures ExtractLinksFromJs(content) == JsLinks([])
  {
    forall j | 0 <= j < |content| ensures !JsMatchAt(content, j) {
      assert HttpPrefix[4] == ':' && HttpsPrefix[5] == ':';
      assert j + 4 < |content| ==> content[j + 4] != ':';
      assert j + 5 < |content| ==> content[j + 5] != ':';
    }
  }

  /** A script that holds `http://` followed by a URL character makes extraction panic. */
  lemma JsUrlPanics(content: string, j: nat)
    requires j + |HttpPrefix| < |content| && content[j..j + |HttpPrefix|] == HttpPrefix
    requires UrlChar(content[j + |HttpPrefix|])
    ensures ExtractLinksFromJs(content) == JsPanic
  {
    assert forall k :: 0 <= k < |HttpPrefix| ==> content[j + k] == HttpPrefix[k];
    assert JsMatchAt(content, j);
  }
}
