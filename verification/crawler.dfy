/**
 * The crawl loop: one CrawlURL call as a step on the crawler's state, and
 * the chain of calls it starts as a run of steps.
 */
module Crawler {
  import opened Strings
  import Config
  import opened RequestParams
  import Links

  /**
   * What fetching one queued URL gives: the URL does not parse, the request
   * cannot be built, the transport fails, the body cannot be read, or a
   * response with its `Content-Type` header and its body.
   */
  datatype Fetch =
    | BadUrl
    | BadRequest
    | TransportError
    | ReadError
    | Served(contentType: string, body: string)

  /** The network as the crawler sees it; a URL absent from the map fails in transport. */
  type Web = map<string, Fetch>

  function FetchOf(web: Web, u: string): Fetch
  {
    if u in web then web[u] else TransportError
  }

  /** The options of the crawl plus its two stop limits; zero or less means no limit. */
  datatype Settings = Settings(options: Config.Options, maxDepth: int, maxPages: int)

  /**
   * The crawler's shared state: the visited set, the URLs waiting in the
   * queue, the records sent on the results channel and the URLs whose
   * requests were handed to `client.Do`, each in order. The request handed
   * over for a URL is the one `BuildRequest` builds from the options;
   * `SentRequests` lists them.
   */
  datatype State = State(visited: set<string>, queue: seq<string>, results: seq<seq<string>>, sent: seq<string>)

  /**
   * How a step ends: `Idle` when the queue holds nothing (where Go's
   * receive would block, and the stand-in for the `len(queue) == 0`
   * return), `Stopped` when it returns without starting another step,
   * `Continue` when every stop check passed, and `Panicked` when link
   * extraction crashes the program.
   */
  datatype Verdict = Idle | Stopped | Continue | Panicked

  datatype Outcome = Outcome(state: State, verdict: Verdict)

  const JsContentType: string := "application/javascript"

  /** The record sent on the results channel for one page, by output format. */
  function Record(u: string, body: string, format: string): (rec: seq<string>)
    ensures |rec| >= 2 && rec[0] == u && rec[1] == body
    ensures |rec| == 3 <==> format == "json" || format == "csv"
    ensures |rec| == (if format == "json" || format == "csv" then 3 else 2)
    ensures |rec| == 3 ==> rec[2] == format
  {
    match format
    case "json" => [u, body, "json"]
    case "csv" => [u, body, "csv"]
    case _ => [u, body]
  }

  /** One of the stop checks fires once the page at `depth` has been recorded. */
  predicate LimitReached(s: Settings, depth: int, pages: int)
  {
    (s.maxDepth > 0 && depth >= s.maxDepth) || (s.maxPages > 0 && pages >= s.maxPages)
  }

  /** The head of the queue is a URL not seen before. */
  predicate FreshHead(st: State)
  {
    |st.queue| > 0 && st.queue[0] !in st.visited
  }

  /** A response whose type is script and whose body holds an absolute URL literal. */
  ghost predicate ScriptWithUrl(f: Fetch)
  {
    f.Served? && Contains(f.contentType, JsContentType)
    && exists j :: 0 <= j < |f.body| && Links.JsMatchAt(f.body, j)
  }

  /** The step that takes the head of the queue records its page. */
  ghost predicate Delivers(web: Web, st: State)
  {
    FreshHead(st) && FetchOf(web, st.queue[0]).Served? && !ScriptWithUrl(FetchOf(web, st.queue[0]))
  }

  /** The step that takes the head of the queue sends a request for it. */
  predicate Requests(web: Web, st: State)
  {
    FreshHead(st) && !FetchOf(web, st.queue[0]).BadUrl? && !FetchOf(web, st.queue[0]).BadRequest?
  }

  /** The links a response adds to the queue, or `JsPanic` when extracting them crashes. */
  function Queued(f: Fetch): (r: Links.JsResult)
    ensures r == Links.JsPanic <==> ScriptWithUrl(f)
    ensures r.JsLinks? ==> r.links == []
  {
    if f.Served? && Contains(f.contentType, JsContentType) then Links.ExtractLinksFromJs(f.body)
    else Links.JsLinks([])
  }

  /**
   * The end of a CrawlURL call once response `f` is read for `u`, with `st`
   * already holding `u` as visited and the request as sent: queue the links
   * of a script response, record the page, and run the stop checks.
   */
  function Respond(s: Settings, depth: int, u: string, f: Fetch, st: State): (r: Outcome)
    requires f.Served?
    ensures r.verdict == Panicked <==> ScriptWithUrl(f)
    ensures ScriptWithUrl(f) ==> r.state == st
    ensures !ScriptWithUrl(f) ==> r.state == st.(results := st.results + [Record(u, f.body, s.options.format)])
    ensures r.verdict == Continue <==> !ScriptWithUrl(f) && !LimitReached(s, depth, |st.visited|)
    ensures r.verdict != Idle
  {
    match Queued(f)
    case JsPanic => Outcome(st, Panicked)
    case JsLinks(links) =>
      var results := st.results + [Record(u, f.body, s.options.format)];
      var verdict := if LimitReached(s, depth, |st.visited|) then Stopped else Continue;
      Outcome(st.(queue := st.queue + links, results := results), verdict)
  }

  /** A CrawlURL call whose URL `u` was not visited before; `rest` is what stays in the queue. */
  function Visit(s: Settings, web: Web, depth: int, u: string, rest: seq<string>, st: State): (r: Outcome)
    requires u !in st.visited
    ensures r.verdict != Idle
    ensures r.state.visited == st.visited + {u} && r.state.queue == rest
    ensures FetchOf(web, u).BadUrl? || FetchOf(web, u).BadRequest? ==> r.state.sent == st.sent
    ensures !FetchOf(web, u).BadUrl? && !FetchOf(web, u).BadRequest? ==> r.state.sent == st.sent + [u]
    ensures FetchOf(web, u).Served? && !ScriptWithUrl(FetchOf(web, u)) ==>
      r.state.results == st.results + [Record(u, FetchOf(web, u).body, s.options.format)]
    ensures !FetchOf(web, u).Served? || ScriptWithUrl(FetchOf(web, u)) ==> r.state.results == st.results
    ensures r.verdict == Panicked <==> ScriptWithUrl(FetchOf(web, u))
    ensures r.verdict == Continue <==>
      FetchOf(web, u).Served? && !ScriptWithUrl(FetchOf(web, u)) && !LimitReached(s, depth, |st.visited| + 1)
  {
    var visited := st.visited + {u};
    var f := FetchOf(web, u);
    if f.BadUrl? || f.BadRequest? then Outcome(st.(visited := visited, queue := rest), Stopped)
    else
      var marked := State(visited, rest, st.results, st.sent + [u]);
      if !f.Served? then Outcome(marked, Stopped)
      else Respond(s, depth, u, f, marked)
  }

  /**
   * One CrawlURL call at chain position `depth`: take the head of the queue,
   * skip it when visited, otherwise mark it visited, fetch it, queue the
   * links of a script response, record the page, and run the stop checks.
   */
  function Step(s: Settings, web: Web, depth: int, st: State): (r: Outcome)
    ensures r.verdict == Idle <==> |st.queue| == 0
    ensures |st.queue| == 0 ==> r.state == st
    ensures |st.queue| > 0 ==> r.state.visited == st.visited + {st.queue[0]} && r.state.queue == st.queue[1..]
    ensures Delivers(web, st) ==>
      r.state.results == st.results + [Record(st.queue[0], FetchOf(web, st.queue[0]).body, s.options.format)]
    ensures !Delivers(web, st) ==> r.state.results == st.results
    ensures Requests(web, st) ==> r.state.sent == st.sent + [st.queue[0]]
    ensures !Requests(web, st) ==> r.state.sent == st.sent
    ensures r.verdict == Panicked <==> FreshHead(st) && ScriptWithUrl(FetchOf(web, st.queue[0]))
    ensures r.verdict == Continue <==> Delivers(web, st) && !LimitReached(s, depth, |st.visited| + 1)
  {
    if |st.queue| == 0 then Outcome(st, Idle)
    else if st.queue[0] in st.visited then Outcome(st.(queue := st.queue[1..]), Stopped)
    else Visit(s, web, depth, st.queue[0], st.queue[1..], st)
  }

  /** The chain of CrawlURL calls from `depth`: each call that passes every stop check starts the next one. */
  function Run(s: Settings, web: Web, depth: int, st: State): (r: Outcome)
    ensures r.verdict != Continue
    decreases |st.queue|
  {
    var o := Step(s, web, depth, st);
    if o.verdict == Continue then Run(s, web, depth + 1, o.state) else o
  }

  /** A crawl from the seed URL alone, before anything is visited, starting at depth zero. */
  function Crawl(s: Settings, web: Web): Outcome
  {
    Run(s, web, 0, State({}, [s.options.url], [], []))
  }

  /** The requests a state has sent, in order: the one built from the options for each requested URL. */
  function SentRequests(o: Config.Options, st: State): (reqs: seq<Request>)
    ensures |reqs| == |st.sent|
    ensures forall k :: 0 <= k < |reqs| ==> reqs[k].url == st.sent[k] && reqs[k].cookies == ParseCookies(o.cookies)
  {
    seq(|st.sent|, k requires 0 <= k < |st.sent| => BuildRequest(o, st.sent[k]))
  }

  function Max(a: int, b: int): int
  {
    if a < b then b else a
  }

  /** A run only adds to the visited set. */
  lemma {:induction false} RunVisitedGrows(s: Settings, web: Web, depth: int, st: State)
    ensures st.visited <= Run(s, web, depth, st).state.visited
    decreases |st.queue|
  {
    var o := Step(s, web, depth, st);
    if o.verdict == Continue {
      RunVisitedGrows(s, web, depth + 1, o.state);
    }
  }

  /** A run keeps the records it is given, in front of the ones it adds. */
  lemma {:induction false} RunKeepsResults(s: Settings, web: Web, depth: int, st: State)
    ensures |st.results| <= |Run(s, web, depth, st).state.results|
    ensures forall k :: 0 <= k < |st.results| ==> Run(s, web, depth, st).state.results[k] == st.results[k]
    decreases |st.queue|
  {
    var o := Step(s, web, depth, st);
    if o.verdict == Continue {
      RunKeepsResults(s, web, depth + 1, o.state);
    }
  }

  /** A run keeps the requests already sent, in front of the ones it sends. */
  lemma {:induction false} RunKeepsSent(s: Settings, web: Web, depth: int, st: State)
    ensures |st.sent| <= |Run(s, web, depth, st).state.sent|
    ensures forall k :: 0 <= k < |st.sent| ==> Run(s, web, depth, st).state.sent[k] == st.sent[k]
    decreases |st.queue|
  {
    var o := Step(s, web, depth, st);
    if o.verdict == Continue {
      RunKeepsSent(s, web, depth + 1, o.state);
    }
  }

  /** `q` is what is left of `a` after some URLs were taken off its head. */
  ghost predicate Suffix(q: seq<string>, a: seq<string>)
  {
    |q| <= |a| && forall k :: 0 <= k < |q| ==> q[k] == a[|a| - |q| + k]
  }

  /** A suffix of the tail is a suffix of the whole queue. */
  lemma SuffixOfTail(q: seq<string>, a: seq<string>)
    requires |a| > 0 && Suffix(q, a[1..])
    ensures Suffix(q, a)
  {
    forall k | 0 <= k < |q| ensures q[k] == a[|a| - |q| + k] {
      assert q[k] == a[1..][|a| - 1 - |q| + k];
    }
  }

  /** The queue only loses URLs from its head: what is left is a suffix of it. */
  lemma {:induction false} RunQueueSuffix(s: Settings, web: Web, depth: int, st: State)
    ensures Suffix(Run(s, web, depth, st).state.queue, st.queue)
    decreases |st.queue|
  {
    var o := Step(s, web, depth, st);
    if |st.queue| > 0 {
      var q := Run(s, web, depth, st).state.queue;
      if o.verdict == Continue {
        RunQueueSuffix(s, web, depth + 1, o.state);
      }
      assert Suffix(q, st.queue[1..]);
      SuffixOfTail(q, st.queue);
    }
  }

  /** The URL a record is for. */
  function Url(rec: seq<string>): string
  {
    if |rec| > 0 then rec[0] else ""
  }

  /**
   * The records in `r` after those of `st` are for URLs visited in `r` and
   * not in `st`, no two for the same URL.
   */
  ghost predicate FreshRecords(st: State, r: State)
  {
    && (forall k :: |st.results| <= k < |r.results| ==> Url(r.results[k]) in r.visited && Url(r.results[k]) !in st.visited)
    && (forall k, l :: |st.results| <= k < l < |r.results| ==> Url(r.results[k]) != Url(r.results[l]))
  }

  /**
   * The requests in `r` after those of `st` are for URLs visited in `r` and
   * not in `st`, no two for the same URL.
   */
  ghost predicate FreshRequests(st: State, r: State)
  {
    && (forall k :: |st.sent| <= k < |r.sent| ==> r.sent[k] in r.visited && r.sent[k] !in st.visited)
    && (forall k, l :: |st.sent| <= k < l < |r.sent| ==> r.sent[k] != r.sent[l])
  }

  /** Records fresh after one more visited URL `u` stay fresh when the record for `u` is put in front of them. */
  lemma FreshRecordsCons(st: State, mid: State, r: State, u: string)
    requires u !in st.visited && mid.visited == st.visited + {u} && mid.visited <= r.visited
    requires |mid.results| == |st.results| + 1 && Url(mid.results[|st.results|]) == u
    requires |mid.results| <= |r.results| && r.results[|st.results|] == mid.results[|st.results|]
    requires FreshRecords(mid, r)
    ensures FreshRecords(st, r)
  {
  }

  /** Requests fresh after one more visited URL `u` stay fresh when the request for `u` is put in front of them. */
  lemma FreshRequestsCons(st: State, mid: State, r: State, u: string)
    requires u !in st.visited && mid.visited == st.visited + {u} && mid.visited <= r.visited
    requires |mid.sent| == |st.sent| + 1 && mid.sent[|st.sent|] == u
    requires |mid.sent| <= |r.sent| && r.sent[|st.sent|] == mid.sent[|st.sent|]
    requires FreshRequests(mid, r)
    ensures FreshRequests(st, r)
  {
  }

  /** Each record a run adds is for a URL the run visited and no earlier step had visited, and no two added records share a URL. */
  lemma {:induction false} RunRecordsFresh(s: Settings, web: Web, depth: int, st: State)
    ensures FreshRecords(st, Run(s, web, depth, st).state)
    decreases |st.queue|
  {
    var o := Step(s, web, depth, st);
    if o.verdict == Continue {
      var mid := o.state;
      RunRecordsFresh(s, web, depth + 1, mid);
      RunKeepsResults(s, web, depth + 1, mid);
      RunVisitedGrows(s, web, depth + 1, mid);
      FreshRecordsCons(st, mid, Run(s, web, depth + 1, mid).state, st.queue[0]);
    }
  }

  /** Each request a run sends is for a URL the run visited and no earlier step had visited, and no two are for the same URL. */
  lemma {:induction false} RunRequestsFresh(s: Settings, web: Web, depth: int, st: State)
    ensures FreshRequests(st, Run(s, web, depth, st).state)
    decreases |st.queue|
  {
    var o := Step(s, web, depth, st);
    if o.verdict == Continue {
      var mid := o.state;
      RunRequestsFresh(s, web, depth + 1, mid);
      RunKeepsSent(s, web, depth + 1, mid);
      RunVisitedGrows(s, web, depth + 1, mid);
      FreshRequestsCons(st, mid, Run(s, web, depth + 1, mid).state, st.queue[0]);
    }
  }

  /** Each step takes one URL off the queue and the queue never grows, so a run adds at most one record per queued URL. */
  lemma {:induction false} RunBoundedByQueue(s: Settings, web: Web, depth: int, st: State)
    ensures |Run(s, web, depth, st).state.results| <= |st.results| + |st.queue|
    decreases |st.queue|
  {
    var o := Step(s, web, depth, st);
    if o.verdict == Continue {
      RunBoundedByQueue(s, web, depth + 1, o.state);
    }
  }

  /** Each step sends at most one request, so a run sends at most one request per queued URL. */
  lemma {:induction false} RunSentBoundedByQueue(s: Settings, web: Web, depth: int, st: State)
    ensures |Run(s, web, depth, st).state.sent| <= |st.sent| + |st.queue|
    decreases |st.queue|
  {
    var o := Step(s, web, depth, st);
    if o.verdict == Continue {
      RunSentBoundedByQueue(s, web, depth + 1, o.state);
    }
  }

  /** A run visits only URLs that were queued when it started. */
  lemma {:induction false} RunVisitsOnlyQueued(s: Settings, web: Web, depth: int, st: State)
    ensures forall u :: u in Run(s, web, depth, st).state.visited ==> u in st.visited || u in st.queue
    decreases |st.queue|
  {
    var o := Step(s, web, depth, st);
    if o.verdict == Continue {
      RunVisitsOnlyQueued(s, web, depth + 1, o.state);
      assert forall u :: u in o.state.queue ==> u in st.queue;
    }
  }

  /**
   * With a page limit, a run adds at most as many records as the limit
   * leaves room for beyond the pages already visited; the first step runs
   * before any check, so one record is always possible.
   */
  lemma {:induction false} RunPageBound(s: Settings, web: Web, depth: int, st: State)
    requires s.maxPages > 0
    ensures |Run(s, web, depth, st).state.results| <= |st.results| + Max(1, s.maxPages - |st.visited|)
    decreases |st.queue|
  {
    var o := Step(s, web, depth, st);
    if o.verdict == Continue {
      assert |o.state.visited| == |st.visited| + 1;
      RunPageBound(s, web, depth + 1, o.state);
    }
  }

  /** With a depth limit, a run from `depth` adds at most one record per depth level up to the limit. */
  lemma {:induction false} RunDepthBound(s: Settings, web: Web, depth: int, st: State)
    requires s.maxDepth > 0
    ensures |Run(s, web, depth, st).state.results| <= |st.results| + Max(1, s.maxDepth - depth + 1)
    decreases |st.queue|
  {
    var o := Step(s, web, depth, st);
    if o.verdict == Continue {
      RunDepthBound(s, web, depth + 1, o.state);
    }
  }

  /**
   * A crawl from the seed records at most one page, the seed's, and
   * requests at most one URL, the seed.
   */
  lemma CrawlSeedOnly(s: Settings, web: Web)
    ensures var r := Crawl(s, web).state;
      |r.results| <= 1 && (|r.results| == 1 ==> Url(r.results[0]) == s.options.url)
      && |r.sent| <= 1 && (|r.sent| == 1 ==> r.sent[0] == s.options.url)
  {
    var st := State({}, [s.options.url], [], []);
    RunBoundedByQueue(s, web, 0, st);
    RunRecordsFresh(s, web, 0, st);
    RunRequestsFresh(s, web, 0, st);
    RunSentBoundedByQueue(s, web, 0, st);
    RunVisitsOnlyQueued(s, web, 0, st);
  }

  /**
   * A run does at least its first call: the records, requested URLs and
   * visited URLs of that call are all kept, and a call that does not pass
   * every check ends the run.
   */
  lemma RunFirstStep(s: Settings, web: Web, depth: int, st: State)
    ensures var o, r := Step(s, web, depth, st), Run(s, web, depth, st);
      && (o.verdict != Continue ==> r == o)
      && o.state.visited <= r.state.visited
      && |o.state.results| <= |r.state.results|
      && (forall k :: 0 <= k < |o.state.results| ==> r.state.results[k] == o.state.results[k])
      && |o.state.sent| <= |r.state.sent|
      && (forall k :: 0 <= k < |o.state.sent| ==> r.state.sent[k] == o.state.sent[k])
  {
    var o := Step(s, web, depth, st);
    if o.verdict == Continue {
      RunVisitedGrows(s, web, depth + 1, o.state);
      RunKeepsResults(s, web, depth + 1, o.state);
      RunKeepsSent(s, web, depth + 1, o.state);
    }
  }

  /**
   * What a crawl from the seed does, exactly: it visits the seed, requests
   * it unless the URL or the request is malformed, records it when a body
   * was read and the extractor did not crash, crashes exactly on a script
   * body with a URL literal, and goes on to find an empty queue exactly
   * when the seed was recorded within the limits.
   */
  lemma CrawlOutcome(s: Settings, web: Web)
    ensures var u, f, r := s.options.url, FetchOf(web, s.options.url), Crawl(s, web);
      && r.state.visited == {u} && r.state.queue == []
      && r.state.results == (if f.Served? && !ScriptWithUrl(f) then [Record(u, f.body, s.options.format)] else [])
      && r.state.sent == (if !f.BadUrl? && !f.BadRequest? then [u] else [])
      && (r.verdict == Panicked <==> ScriptWithUrl(f))
      && (r.verdict == Idle <==> f.Served? && !ScriptWithUrl(f) && !LimitReached(s, 0, 1))
  {
    var st := State({}, [s.options.url], [], []);
    assert FreshHead(st);
    var o := Step(s, web, 0, st);
    assert o.state.queue == [];
    assert Crawl(s, web) == Run(s, web, 0, st);
    if o.verdict == Continue {
      assert Step(s, web, 1, o.state) == Outcome(o.state, Idle);
      assert Run(s, web, 1, o.state) == Outcome(o.state, Idle);
      assert Run(s, web, 0, st) == Run(s, web, 1, o.state);
    } else {
      assert Run(s, web, 0, st) == o;
    }
  }

  /** A crawl sends the request built from its options for the seed, unless the seed or its request is malformed, and nothing else. */
  lemma CrawlRequest(s: Settings, web: Web)
    ensures var f := FetchOf(web, s.options.url);
      SentRequests(s.options, Crawl(s, web).state)
        == (if !f.BadUrl? && !f.BadRequest? then [BuildRequest(s.options, s.options.url)] else [])
  {
    CrawlOutcome(s, web);
  }
}
