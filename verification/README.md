# prowl — a Dafny model of the crawler core

prowl is a command-line web crawler written in Go (`prowl.go`). It takes a
seed URL, fetches it with a configured User-Agent, custom headers and
cookies, and sends one record per fetched page to the results channel.
When a response is script content, it runs a URL pattern over the body
meant to queue the `http(s)://` literals it finds; as written, the first
match crashes the program, so nothing is ever queued. One CrawlURL call takes the head of the queue,
skips it when already visited and marks it visited otherwise. It then
builds and sends the request, reads the body, records the page, and checks
the depth and page limits. If every check passes, it starts the next call.

This project models that core as pure Dafny functions and proves properties of them:

- `Config` (config.dfy) models the command-line options. `ParseArgs` covers
  the flag defaults, the missing-URL error and the output-format check.
  `Setup` covers the zero-means-default substitution and the
  negative-limit validation in the main routine.
- `Strings` (strings.dfy) models the parts of Go's `strings` package the
  core calls: `Split`, `TrimSpace` with Go's Unicode white-space set, and
  `Contains`.
- `RequestParams` (request.dfy) models how a request is built. It parses
  the `;`-separated `Name:Value` headers and `Name=Value` cookies. An entry
  that does not split into exactly two parts is dropped. A later header
  overrides an earlier one with the same name.
- `Links` (links.dfy) models the two link extractors:
  - The HTML extractor uses the pattern `(?i)(?:href|src)="([^"]+)"`. It is
    modelled as a leftmost, non-overlapping scan whose result is
    characterised declaratively and proved unique.
  - The script extractor uses the pattern `(?i)https?://[^"']+`. It has no
    capture group but reads `match[1]`, so the model says exactly when it
    crashes: whenever the pattern matches anywhere.
- `Crawler` (crawler.dfy) models one CrawlURL call as `Step` on an explicit
  state: the visited set, the queue, the records sent and the URLs
  requested. `Run` is the chain of calls that each passing call starts.
  `Crawl` is the run from the seed alone.

The network is a parameter. A `Web` maps each URL to what fetching it
gives: a URL that does not parse, a request that cannot be built, a
transport error, a body that cannot be read, or a response with its
`Content-Type` and body.

Three facts about the code shape the model:

- CrawlURL never calls the HTML extractor.
- The script extractor crashes on the first URL it finds, so the queue
  never grows past the seed.
- `depth` is not tracked per URL.

## Model

| member | source | states |
|---|---|---|
| Config.ParseArgs | prowl.go:39-70 | Fails exactly when the URL is empty or the format is not one of "", json, csv, text. A missing URL is reported before a bad format. On success every field is the value its flag supplied, or that flag's declared default when the flag was absent (empty strings, depth 5, thirty seconds, the exclude pattern). |
| Config.ParseArgsRoundTrip | prowl.go:39-70 | Any valid options, written back as flags, parse to the same options. |
| Config.ParseArgsDefaults | prowl.go:43-57 | With only `-u` given, the options are the URL, the default depth, timeout and exclude pattern, and empty strings elsewhere. |
| Config.ApplyDefaults | prowl.go:373-384 | Each limit keeps a given (non-zero) value, otherwise takes its default; it is never anything but the given value or the default, and it is zero only when both are zero. |
| Config.DefaultedUnique | prowl.go:373-384 | Those three conditions determine the limit: the given value when non-zero, else the default. |
| Config.Validate | prowl.go:387-398 | Succeeds exactly when no limit is negative, and then returns the limits unchanged. Otherwise it fails with the error of a negative limit; a negative maximum depth is always the one reported. |
| Config.Setup | prowl.go:373-398 | Succeeds exactly when the limits after defaulting are non-negative, and then returns them. |
| Config.SetupSpec | prowl.go:373-398 | With non-negative defaults, setup fails exactly when a given limit is negative. A limit given as non-zero is kept, and a limit comes out zero only when its default is zero. |
| Config.SetupReportsFirstNegative | prowl.go:387-398 | The error names the first negative limit in the order depth, URLs, concurrency, timeout, and carries its value. |
| Config.SetupIdempotent | prowl.go:373-398 | Running setup again on its own successful result changes nothing. |
| Strings.Split | prowl.go:176-178 | Gives one more part than there are separators, and no part holds the separator. |
| Strings.SplitThenJoin | prowl.go:176-178 | Joining the parts of a split with the separator gives back the string. |
| Strings.JoinThenSplit | prowl.go:176-178 | Splitting a join of separator-free parts gives back the parts. |
| Strings.SplitAppend | prowl.go:176 | Splitting `a` + separator + `b` gives the pieces of `a` followed by the pieces of `b`. |
| Strings.SplitFree | prowl.go:187-189 | A string without the separator splits into itself alone. |
| Strings.CountZero | prowl.go:179 | The separator count is zero exactly when the separator does not occur. |
| Strings.TrimLeadingSpace | prowl.go:180 | The result is a suffix of the input, and only white space was removed. It starts with a non-space when it is non-empty. |
| Strings.TrimTrailingSpace | prowl.go:180 | The result is a prefix of the input, and only white space was removed. It ends with a non-space when it is non-empty. |
| Strings.IsSpace | prowl.go:180 | Go's `unicode.IsSpace`: the tab, newline, vertical tab, form feed, carriage return, space, U+0085 and U+00A0, and the other Unicode White_Space characters. |
| Strings.TrimSpace | prowl.go:180 | The result neither starts nor ends with white space, and the input is that result with only white space around it. |
| Strings.TrimSpaceUnique | prowl.go:192-193 | Surrounding a trimmed string with any white space and trimming gives the string back. |
| Strings.SpaceAroundUnique | prowl.go:180 | Two trimmed strings that a string surrounds with white space are equal. |
| Strings.TrimSpaceOfTrimmed | prowl.go:180 | Trimming a string that is already trimmed changes nothing. |
| Strings.TrimSpaceIdempotent | prowl.go:180 | Trimming twice is trimming once. |
| Strings.Contains | prowl.go:219 | True exactly when the pattern occurs at some position. |
| RequestParams.ParseEntry | prowl.go:178-180 | An entry yields a pair exactly when it holds the separator once. The pair is then the two sides of that separator. |
| RequestParams.FilterMap | prowl.go:177-182 | The entries the filtered loop keeps, never more than there are entries; their contents and order are fixed by the FilterMap lemmas below. |
| RequestParams.FilterMapSound | prowl.go:177-182 | Every kept item comes from some input entry. |
| RequestParams.FilterMapComplete | prowl.go:177-182 | Every entry that yields an item has it kept. |
| RequestParams.FilterMapAll | prowl.go:177-182 | When every entry yields an item, the items are kept in order. |
| RequestParams.ParsePairs | prowl.go:177-182 | There are no more pairs than entries. Each pair comes from an entry with exactly one separator, and each such entry gives a pair; order and multiplicity are fixed by `ParsePairsAppend`. |
| RequestParams.FilterMapAppend | prowl.go:177-182 | Filtering two lists in a row gives the results of the first, then those of the second. |
| RequestParams.ParsePairsAppend | prowl.go:177-182 | Entries are parsed one by one in input order: the pairs of two entry lists in a row are those of the first followed by those of the second. |
| RequestParams.ParseHeaders | prowl.go:175-183 | An empty option gives no headers. Every header name and value is trimmed and holds neither `;` nor `:`. |
| RequestParams.ParseHeadersPieces | prowl.go:175-183 | For every `-H` string, the empty one included, the headers are the parsed pairs of its `;`-pieces. |
| RequestParams.ParseHeadersAppend | prowl.go:175-183 | For any strings `a` and `b`, the headers of `a;b` are those of `a` followed by those of `b`, so input order and duplicates are kept and dropped entries contribute nothing. |
| RequestParams.ParseHeadersEntry | prowl.go:176-181 | A single entry gives its trimmed (name, value) exactly when it holds one `:`, and nothing otherwise. |
| RequestParams.ParseCookies | prowl.go:186-197 | An empty option gives no cookies. Every cookie name and value is trimmed and holds neither `;` nor `=`. |
| RequestParams.ParseCookiesPieces | prowl.go:186-197 | For every `-C` string, the empty one included, the cookies are the parsed pairs of its `;`-pieces. |
| RequestParams.ParseCookiesAppend | prowl.go:186-197 | For any strings `a` and `b`, the cookies of `a;b` are those of `a` followed by those of `b`: cookies are appended in input order, duplicates kept, dropped entries contributing nothing. |
| RequestParams.ParseCookiesEntry | prowl.go:187-195 | A single entry gives one trimmed cookie exactly when it holds one `=`, and none otherwise. |
| RequestParams.PairsClean | prowl.go:177-182 | Pairs parsed from `;`-free entries are trimmed and free of both separators. |
| RequestParams.ParseEntryOf | prowl.go:178-180 | `a` + separator + `b`, with no other separator, parses to the trimmed `a` and `b`. |
| RequestParams.SeparatorInValueDropped | prowl.go:179 | A value that itself holds the separator, such as a header `Referer: http://x`, makes the whole entry dropped. |
| RequestParams.NoSeparatorDropped | prowl.go:179 | An entry without the separator is dropped. |
| RequestParams.EntryRoundTrip | prowl.go:178-180 | A trimmed name and value with no separator, rendered as `name:value`, parse back to themselves. |
| RequestParams.ParseRenderRoundTrip | prowl.go:176-182 | Clean pairs rendered as `n1:v1;n2:v2…` parse back to exactly those pairs, in order. |
| RequestParams.HeadersRoundTrip | prowl.go:175-183 | Clean header pairs rendered in the `-H` syntax parse back to themselves. |
| RequestParams.CookiesRoundTrip | prowl.go:186-197 | Clean cookie pairs rendered in the `-C` syntax parse back to the same cookies, in order. |
| RequestParams.SetAll | prowl.go:177-182 | Setting headers one after another gives the old names plus the new ones. The last entry with a name wins, and untouched names keep their value. |
| RequestParams.LaterHeaderWins | prowl.go:175-183 | When the last `-H` entry parses, its header is set to its value whatever entries came before it. |
| RequestParams.BuildRequest | prowl.go:163-197 | The request is for the queued URL and carries the parsed cookies. Its header names are User-Agent when one is configured, plus every parsed header name, and its header map is `RequestHeader`'s, so the last `-H` entry for a name sets its value. |
| RequestParams.RequestHeader | prowl.go:169-183 | The header map holds User-Agent when configured plus every parsed header name; the last entry with a name sets its value, and a configured User-Agent stays unless an entry overrides it. |
| RequestParams.UserAgentHeader | prowl.go:169-183 | User-Agent carries the configured value unless a `-H` entry named User-Agent overrides it. With neither, it is absent. |
| RequestParams.BareRequest | prowl.go:163-197 | With no User-Agent, headers or cookies configured, the request has an empty header and no cookies. |
| Links.QuoteFrom | prowl.go:80 | Finds the first quote at or after a position, or the end of the text when there is none. |
| Links.MatchAt | prowl.go:80 | A match found at a position starts there and is `href="` or `src="` (any case), a non-empty quote-free capture, and a closing quote. |
| Links.MatchAtUnique | prowl.go:80 | Any match starting at a position is the one found there, so there is at most one per position. |
| Links.HrefNotSrc | prowl.go:80 | No position starts both alternatives. |
| Links.MatchesOf | prowl.go:80 | Every match starts at its position and ends inside the text. |
| Links.FoldEq | prowl.go:80 | `(?i)` comparison of one character with a lower-case pattern character: the character itself, its upper case for an ASCII letter, and U+017F for `s`. |
| Links.LeftmostCons | prowl.go:89 | A match at the scan position followed by the leftmost matches after it is a leftmost match list. |
| Links.LeftmostSkip | prowl.go:89 | A position without a match can be skipped. |
| Links.LeftmostTail | prowl.go:89 | A leftmost match list from a matching position starts with that match. |
| Links.LeftmostNext | prowl.go:89 | A leftmost match list from a position without a match is also one from the next position. |
| Links.LeftmostUnique | prowl.go:89 | There is only one leftmost non-overlapping match list, and the scan computes it. |
| Links.ScanWith | prowl.go:89 | The left-to-right scan with a matcher: take the match at the position and resume after its closing quote, or move one position on. |
| Links.Scan | prowl.go:89 | The scan of a text with this pattern's matcher, from a position. |
| Links.ScanWithLeftmost | prowl.go:89 | The left-to-right scan returns a leftmost non-overlapping match list. |
| Links.ExtractLinksFromHtml | prowl.go:75-101 | Every link is non-empty and quote-free. The links are the captures of the leftmost non-overlapping matches, in order. There are none exactly when nothing matches. |
| Links.CapturesClean | prowl.go:95-97 | Each capture of a match is non-empty and quote-free. |
| Links.NoLinksNoMatch | prowl.go:89-92 | The match list is empty exactly when no position matches. |
| Links.LinkInContext | prowl.go:95-97 | Each returned link is the text of some match's capture. |
| Links.NoMatchAtChar | prowl.go:80 | No match starts at a character that cannot begin `href` or `src`. |
| Links.HtmlRoundTrip | prowl.go:75-101 | Extracting the links of a page made of one anchor per link gives back exactly those links, in order. |
| Links.EmptyAttributeNoMatch | prowl.go:80 | `href=""` is not a match, because the capture must be non-empty. |
| Links.JsMatchAt | prowl.go:109 | `(?i)https?://[^"']+` has a match at a position: `http://` or `https://` in any case, then at least one character other than `"` and `'`. |
| Links.HasJsMatch | prowl.go:109-118 | True exactly when the script pattern matches at or after a position. |
| Links.ExtractLinksFromJs | prowl.go:104-130 | Crashes exactly when the pattern matches somewhere in the content. Otherwise it returns no links. |
| Links.JsWithoutSchemeHasNoLinks | prowl.go:109-121 | Content without a `:` yields no links and no crash. |
| Links.JsUrlPanics | prowl.go:118-126 | Content holding `http://` followed by a URL character crashes the extractor. |
| Crawler.Record | prowl.go:233-240 | The record starts with the URL and the body. It has a third field, the format name, exactly when the format is json or csv, and no other field: two fields otherwise. |
| Crawler.LimitReached | prowl.go:242-249 | A stop check fires: a positive depth limit reached by the call's depth, or a positive page limit reached by the number of visited URLs. |
| Crawler.Queued | prowl.go:218-230 | A response queues links only when its content type holds `application/javascript`. It crashes exactly when such a body holds a URL literal, and never queues a link. |
| Crawler.Respond | prowl.go:218-249 | After a body is read: crashes on a script with a URL literal. Otherwise records the page, and continues exactly when neither the depth nor the page limit is reached. |
| Crawler.Visit | prowl.go:155-249 | For an unvisited URL: marks it visited and requests it unless the URL or request is malformed. Records the page exactly when a body was read and the extractor did not crash. Continues exactly when the page was recorded and no limit was reached. |
| Crawler.Step | prowl.go:147-249 | With an empty queue the call is `Idle` and changes nothing (in Go the receive at prowl.go:147 would block instead). Otherwise the head leaves the queue and is visited, and a URL seen before is skipped with nothing sent or recorded. A record or requested URL is added exactly in the cases above, the crash happens exactly on a script body with a URL literal, and the next call starts exactly when a page was recorded and no limit was reached. |
| Crawler.Run | prowl.go:261-263 | A run ends only on a call that does not pass every check. |
| Crawler.RunFirstStep | prowl.go:147-263 | A run does at least its first call: that call's visited URLs, records and requested URLs are all kept, and a call that does not pass every check ends the run. |
| Crawler.RunVisitedGrows | prowl.go:155 | A run never removes a URL from the visited set. |
| Crawler.RunKeepsResults | prowl.go:233-240 | Records already sent stay in front of those a run adds. |
| Crawler.RunKeepsSent | prowl.go:205 | URLs already requested stay in front of those a run requests. |
| Crawler.RunQueueSuffix | prowl.go:147 | What is left of the queue after a run is a suffix of it. |
| Crawler.RunRecordsFresh | prowl.go:150-155 | Each record a run adds is for a URL it visited that was not visited before, and no two added records share a URL. |
| Crawler.RunRequestsFresh | prowl.go:150-155 | Each URL a run requests is one it visited that was not visited before, and no URL is requested twice. |
| Crawler.RunBoundedByQueue | prowl.go:147 | A run adds at most one record per URL that was queued when it started. |
| Crawler.RunSentBoundedByQueue | prowl.go:147 | A run requests at most one URL per URL that was queued when it started. |
| Crawler.RunVisitsOnlyQueued | prowl.go:147-155 | A run visits only URLs already visited or queued when it started. |
| Crawler.RunPageBound | prowl.go:247-249 | With a page limit, a run adds at most max(1, limit − already visited) records. |
| Crawler.RunDepthBound | prowl.go:242-244 | With a depth limit, a run from depth d adds at most max(1, limit − d + 1) records. |
| Crawler.Crawl | prowl.go:406-409 | The crawl started by sending the seed URL into the empty queue, from depth zero. |
| Crawler.SentRequests | prowl.go:163-197 | The request sent for each requested URL is for that URL and carries the parsed cookies. |
| Crawler.CrawlSeedOnly | prowl.go:147-263 | A crawl from the seed records at most one page, the seed's, and requests at most one URL, the seed. |
| Crawler.CrawlOutcome | prowl.go:147-263 | Exactly what a crawl from the seed does: it visits the seed, requests it unless the URL or request is malformed, records it exactly when a body was read and the extractor did not crash, crashes exactly on a script body with a URL literal, and goes on to an idle call exactly when the seed was recorded within the limits. |
| Crawler.CrawlRequest | prowl.go:163-205 | A crawl sends the request built from its options for the seed unless the seed or its request is malformed, and no other request. |

## Proof helpers

These lemmas and functions carry the proofs above; they state facts about
the model's own definitions or about the test pages of the round trips,
not a separate behaviour of the source.

- `Config.Denotes`: Each option is its flag's value, or the flag's default when the flag is absent.
- `Links.SliceApart`: A text that is two strings in a row splits back into them.
- `RequestParams.CountAppend`: Separator counts add up over concatenation.
- `RequestParams.NamesSnoc`: The names of a list are those of its front plus the last name.
- `Crawler.SuffixOfTail`: A suffix of a queue's tail is a suffix of the queue.
- `Links.PrefixHead`: A case-insensitive literal at a position starts with a character that folds to its first character.
- `Links.AnchorChars`: Gives the characters of an `<a href="…">` element at a position.
- `Links.CapturesCons`: The captures of a match list are taken one by one, in order.
- `Crawler.FreshRecordsCons`: The record for a newly visited URL extends a fresh, duplicate-free list of later records.
- `Crawler.FreshRequestsCons`: Requesting a newly visited URL extends a fresh, duplicate-free list of later requested URLs.
- `RequestParams.OnlySeparator`: In an entry with a single separator, neither side of it holds another.
- `RequestParams.TrimSpaceKeepsOut`: Trimming does not introduce a character.
- `RequestParams.EntryClean`: The two sides of a parsed entry hold neither separator.
- `Links.QuoteAfter`: The capture ends at the first quote after its start.
- `RequestParams.SetLast`: Setting one more header keeps the three properties of `SetAll`: old names plus new ones, last entry wins, untouched names keep their value.
- `Links.AnchorShapeLeftmost`: Three positions without a match, a match, and one more position without a match, followed by the leftmost matches after them, form a leftmost match list.
- `Links.NoMatchThrough`: The matcher the scan uses has no match at a character that cannot begin `href` or `src`.
- `Links.AnchorMatchThrough`: The matcher the scan uses finds the `href` attribute of an anchor, with the link as capture.
- `Links.AnchorLeftmost`: One anchor contributes exactly its attribute's match to the leftmost match list, which resumes right after the anchor.
- `Links.PageSpans`: A page has one match per anchor.
- `Links.PageLeftmost`: The matches of the anchors of a page are its leftmost non-overlapping matches.
- `Links.PageCaptures`: The captures of a page's anchor matches are its links, in order.
- `RequestParams.Entries`: Renders one `name` + separator + `value` entry per pair.
- `RequestParams.EntriesRoundTrip`: Each rendered entry of clean pairs is `;`-free and parses back to its pair.
- `Links.AnchorSpan`: The span of the `href` match of an anchor written at a position.
- `Links.AnchorMatch`: The `href` attribute of an anchor is a match whose capture is the link.
- `Strings.JoinAppend`: Joining two non-empty lists of pieces puts one separator between their joins.
- `Strings.PiecesFree`: Two lists of separator-free pieces in a row are separator-free.
- `RequestParams.ParsePairsOne`: A single entry gives its pair when it parses, and nothing otherwise.
- `RequestParams.EmptyEntry`: The empty option is the single empty entry, which parses to nothing.
- `RequestParams.AsCookiesAppend`: Turning pairs into cookies works pair by pair.
- `RequestParams.SingleCookieEntry`: A `-C` string without `;` is one entry.

## Left out

- Goroutines, the WaitGroup, the shared `*counter` and the channel
  semantics (prowl.go:133-144, 262-265) are not modelled. The model runs
  the chain of calls one after another.
- The concurrency check at prowl.go:252-254 (`MaxWorkers`, `*counter`)
  is not modelled: it depends on goroutine scheduling. A `Continue`
  verdict means the depth and page checks passed.
- The `len(queue) == 0` check at prowl.go:257-259 does not depend on
  scheduling: the queue made at prowl.go:401 is unbuffered, so its length
  is always 0 and the check returns on every call that reaches it. The
  model does not add this return to `Continue`. Instead the next call runs
  and, on an empty queue, is the `Idle` step, which changes nothing. In Go,
  the receive `u := <-queue` at prowl.go:147 would block on an empty queue
  instead. The "idle call" of `Crawler.CrawlOutcome` is this stand-in.
- The `depth` variable in CrawlURL is not declared in the source. It is
  read as the position of the call in the chain, counting from zero at the
  seed.
- The limits `MaxDepth`, `MaxPages`, `MaxUrls`, `Concurrency` and
  `OutputFormat` are not fields of the declared `Options` struct. The
  constants that prowl.go:374-384 use, `DefaultMaxDepth`, `DefaultMaxUrls`,
  `DefaultConcurrency` and `DefaultTimeout`, are not declared anywhere in
  the file; only the lower-case `defaultTimeout` of the `-t` flag
  (prowl.go:20) exists, and Go names are case-sensitive. Limits and their
  defaults are therefore parameters of `Config.Setup`. `Limits.timeout`
  stands for the declared `Timeout` field (prowl.go:32), that is the `-t`
  value `Config.ParseArgs` returns in `Options.timeout`; the other three
  limits have no declared field. `Config.DefaultTimeout` is the `-t` flag
  default of prowl.go:20. `OutputFormat` is read as the `-f` option.
- Crawler.Crawl: reads the start-up code at prowl.go:370 and prowl.go:406-409
  in two ways the file does not spell out. First, `go crawl(queue, results,
  &wg, options)` calls a lower-case `crawl` that is defined nowhere in the
  file and takes other parameters than `CrawlURL`; the model reads it as
  the chain of `CrawlURL` calls. Second, `queue <- options.SeedUrl` sends a
  field that `Options` does not declare; the model reads it as the `-u` URL
  (`options.url`). In the same way, `parseArgs()` at prowl.go:370 is
  lower-case and is used as if it returned one value; the model reads it as
  `Config.ParseArgs`. `Crawler.CrawlSeedOnly`, `Crawler.CrawlOutcome` and
  `Crawler.CrawlRequest` rest on the same reading.
- URL parsing and `url.String()` normalisation (prowl.go:158-164) are not
  modelled. A `Web` entry says whether the URL or the request is malformed,
  and the request carries the queued string.
- The HTTP transport, the timeout and response reading (prowl.go:199-215)
  are not modelled: they are the `Web` parameter.
- `net/http` canonicalises header names and sanitises cookie values. This
  is not modelled; the header map is keyed by the trimmed name as given.
- RequestParams.BuildRequest: keeps the cookies as a list beside the header
  map. In Go, `req.AddCookie` (prowl.go:191) writes them into the `Cookie`
  header and appends them with `"; "` to a `Cookie` value set through `-H`,
  so the Go request's header names also include `Cookie` when a cookie is
  given; the model's header names do not.
- The result printers (prowl.go:272-368) and the `-o` output file are left
  out. They are output formatting.
- Flag parsing by the `flag` package is not modelled. `Flags` records
  which flags were given.
- The exclude pattern is stored but never applied by the code, so it is
  carried and not modelled further.
- The regular-expression compile error branches (prowl.go:83-86, 112-115)
  cannot be taken, because both patterns are constants that compile.
- Strings are sequences of Unicode code points. Invalid UTF-8 in a body is
  not modelled.
- Strings.TrimSpace: covers the white-space characters Go's
  `unicode.IsSpace` accepts. The Unicode tables are written out as
  explicit code points and not derived.
- Links.ExtractLinksFromJs: reports a crash as an outcome instead of
  returning the links. This is what indexing `match[1]` on a one-element
  match does in Go.
