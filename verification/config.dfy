/**
 * The crawler's configuration: the command-line options `ParseArgs`
 * builds and checks, and the start-up step that fills in and checks the
 * numeric limits.
 */
module Config {
  import opened Wrappers

  /** One second, in the nanosecond unit of Go's `time.Duration`. */
  const Second: int := 1_000_000_000

  /** The timeout applied when `-t` is not given: thirty seconds. */
  const DefaultTimeout: int := 30 * Second

  /** The maximum depth applied when `-d` is not given. */
  const DefaultDepth: int := 5

  /** The exclusion pattern applied when `-e` is not given (kept as text; it is never matched). */
  const DefaultExclude: string := "(?i)\\.(css|js|jpg|jpeg|png|gif|pdf|zip|tar|gz|bz2|mp3|mp4)$"

  /** The options of one crawl; `timeout` is a `time.Duration` in nanoseconds. */
  datatype Options = Options(
    url: string,
    userAgent: string,
    headers: string,
    cookies: string,
    depth: int,
    timeout: int,
    exclude: string,
    format: string,
    file: string)

  /**
   * What the command line supplied for each flag; `None` means the flag
   * was absent, so the flag's default applies.
   */
  datatype Flags = Flags(
    url: Option<string>,
    userAgent: Option<string>,
    headers: Option<string>,
    cookies: Option<string>,
    depth: Option<int>,
    timeout: Option<int>,
    exclude: Option<string>,
    format: Option<string>,
    file: Option<string>)

  /** Configuration errors; each one is fatal before crawling starts. */
  datatype ConfigError =
    | MissingUrl
    | UnsupportedFormat
    | InvalidMaxDepth(maxDepth: int)
    | InvalidMaxUrls(maxUrls: int)
    | InvalidConcurrency(concurrency: int)
    | InvalidTimeout(timeout: int)

  function OrElse<T>(o: Option<T>, default: T): T
  {
    match o
    case Some(v) => v
    case None => default
  }

  /** The output formats `ParseArgs` accepts; the empty format selects plain text. */
  predicate SupportedFormat(f: string)
  {
    f == "" || f == "json" || f == "csv" || f == "text"
  }

  /** The options the flags denote before any check: every absent flag takes its default. */
  function FromFlags(f: Flags): Options
  {
    Options(
      OrElse(f.url, ""),
      OrElse(f.userAgent, ""),
      OrElse(f.headers, ""),
      OrElse(f.cookies, ""),
      OrElse(f.depth, DefaultDepth),
      OrElse(f.timeout, DefaultTimeout),
      OrElse(f.exclude, DefaultExclude),
      OrElse(f.format, ""),
      OrElse(f.file, ""))
  }

  /**
   * Each field of `o` is what its flag supplied, or the flag's default
   * when the flag was absent.
   */
  predicate Denotes(f: Flags, o: Options)
  {
    && (f.url.Some? ==> o.url == f.url.value) && (f.url.None? ==> o.url == "")
    && (f.userAgent.Some? ==> o.userAgent == f.userAgent.value) && (f.userAgent.None? ==> o.userAgent == "")
    && (f.headers.Some? ==> o.headers == f.headers.value) && (f.headers.None? ==> o.headers == "")
    && (f.cookies.Some? ==> o.cookies == f.cookies.value) && (f.cookies.None? ==> o.cookies == "")
    && (f.depth.Some? ==> o.depth == f.depth.value) && (f.depth.None? ==> o.depth == DefaultDepth)
    && (f.timeout.Some? ==> o.timeout == f.timeout.value) && (f.timeout.None? ==> o.timeout == DefaultTimeout)
    && (f.exclude.Some? ==> o.exclude == f.exclude.value) && (f.exclude.None? ==> o.exclude == DefaultExclude)
    && (f.format.Some? ==> o.format == f.format.value) && (f.format.None? ==> o.format == "")
    && (f.file.Some? ==> o.file == f.file.value) && (f.file.None? ==> o.file == "")
  }

  /**
   * `ParseArgs`: the options the flags denote, refused when the URL is
   * empty (checked first) or the format is not one of the supported ones.
   */
  function ParseArgs(f: Flags): (r: Result<Options, ConfigError>)
    ensures r.Failure? <==> OrElse(f.url, "") == "" || !SupportedFormat(OrElse(f.format, ""))
    ensures r.Failure? && OrElse(f.url, "") == "" ==> r.error == MissingUrl
    ensures r.Failure? && OrElse(f.url, "") != "" ==> r.error == UnsupportedFormat
    ensures r.Success? ==> r.value.url == OrElse(f.url, "") && r.value.format == OrElse(f.format, "")
    ensures r.Success? && f.depth.None? ==> r.value.depth == DefaultDepth
    ensures r.Success? && f.timeout.None? ==> r.value.timeout == DefaultTimeout
    ensures r.Success? && f.exclude.None? ==> r.value.exclude == DefaultExclude
    ensures r.Success? ==> Denotes(f, r.value)
  {
    var o := FromFlags(f);
    if o.url == "" then Failure(MissingUrl)
    else if !SupportedFormat(o.format) then Failure(UnsupportedFormat)
    else Success(o)
  }

  /** The flags that spell out every field of `o` explicitly. */
  function ToFlags(o: Options): Flags
  {
    Flags(Some(o.url), Some(o.userAgent), Some(o.headers), Some(o.cookies),
          Some(o.depth), Some(o.timeout), Some(o.exclude), Some(o.format), Some(o.file))
  }

  /** Spelling out a valid option set on the command line gives back exactly that option set. */
  lemma ParseArgsRoundTrip(o: Options)
    requires o.url != "" && SupportedFormat(o.format)
    ensures ParseArgs(ToFlags(o)) == Success(o)
  {
  }

  /** With no flags besides the URL, every other option takes its default. */
  lemma ParseArgsDefaults(u: string)
    requires u != ""
    ensures ParseArgs(Flags(Some(u), None, None, None, None, None, None, None, None))
         == Success(Options(u, "", "", "", DefaultDepth, DefaultTimeout, DefaultExclude, "", ""))
  {
  }

  /** The numeric limits that start-up fills in and checks. */
  datatype Limits = Limits(maxDepth: int, maxUrls: int, concurrency: int, timeout: int)

  /**
   * One limit after defaulting: a given (non-zero) value is kept, the
   * result is always either the given value or the default, and it is zero
   * only when neither supplies a value.
   */
  predicate Defaulted(given: int, default: int, result: int)
  {
    && (given != 0 ==> result == given)
    && (result == given || result == default)
    && (result == 0 <==> given == 0 && default == 0)
  }

  /**
   * A limit of zero means "not given": it is replaced by the matching
   * field of `d`; any other value is kept.
   */
  function ApplyDefaults(l: Limits, d: Limits): (r: Limits)
    ensures Defaulted(l.maxDepth, d.maxDepth, r.maxDepth)
    ensures Defaulted(l.maxUrls, d.maxUrls, r.maxUrls)
    ensures Defaulted(l.concurrency, d.concurrency, r.concurrency)
    ensures Defaulted(l.timeout, d.timeout, r.timeout)
  {
    Limits(
      if l.maxDepth == 0 then d.maxDepth else l.maxDepth,
      if l.maxUrls == 0 then d.maxUrls else l.maxUrls,
      if l.concurrency == 0 then d.concurrency else l.concurrency,
      if l.timeout == 0 then d.timeout else l.timeout)
  }

  /** The three conditions of `Defaulted` pin the result down: it is the given value, or the default when none is given. */
  lemma DefaultedUnique(given: int, default: int, result: int)
    requires Defaulted(given, default, result)
    ensures result == (if given == 0 then default else given)
  {
  }

  predicate NonNegative(l: Limits)
  {
    l.maxDepth >= 0 && l.maxUrls >= 0 && l.concurrency >= 0 && l.timeout >= 0
  }

  /** The first negative limit, checked in the order depth, URLs, concurrency, timeout. */
  function Validate(l: Limits): (r: Result<Limits, ConfigError>)
    ensures r.Success? <==> NonNegative(l)
    ensures r.Success? ==> r.value == l
    ensures r.Failure? ==>
              r.error in {InvalidMaxDepth(l.maxDepth), InvalidMaxUrls(l.maxUrls), InvalidConcurrency(l.concurrency), InvalidTimeout(l.timeout)}
    ensures l.maxDepth < 0 ==> r == Failure(InvalidMaxDepth(l.maxDepth))
  {
    if l.maxDepth < 0 then Failure(InvalidMaxDepth(l.maxDepth))
    else if l.maxUrls < 0 then Failure(InvalidMaxUrls(l.maxUrls))
    else if l.concurrency < 0 then Failure(InvalidConcurrency(l.concurrency))
    else if l.timeout < 0 then Failure(InvalidTimeout(l.timeout))
    else Success(l)
  }

  /**
   * Start-up: zero limits take their defaults `d`, then a negative limit
   * is fatal. The defaults are checked too, since they are substituted
   * before the check.
   */
  function Setup(l: Limits, d: Limits): (r: Result<Limits, ConfigError>)
    ensures r.Success? <==> NonNegative(ApplyDefaults(l, d))
    ensures r.Success? ==> r.value == ApplyDefaults(l, d)
  {
    Validate(ApplyDefaults(l, d))
  }

  /**
   * With non-negative defaults, start-up fails exactly when some given
   * limit is negative, and on success no limit is zero unless its
   * default is zero.
   */
  lemma SetupSpec(l: Limits, d: Limits)
    requires NonNegative(d)
    ensures Setup(l, d).Failure? <==> (l.maxDepth < 0 || l.maxUrls < 0 || l.concurrency < 0 || l.timeout < 0)
    ensures Setup(l, d).Success? ==>
      var r := Setup(l, d).value;
      && (r.maxDepth == 0 ==> d.maxDepth == 0)
      && (r.maxUrls == 0 ==> d.maxUrls == 0)
      && (r.concurrency == 0 ==> d.concurrency == 0)
      && (r.timeout == 0 ==> d.timeout == 0)
      && (l.maxDepth != 0 ==> r.maxDepth == l.maxDepth)
      && (l.maxUrls != 0 ==> r.maxUrls == l.maxUrls)
      && (l.concurrency != 0 ==> r.concurrency == l.concurrency)
      && (l.timeout != 0 ==> r.timeout == l.timeout)
  {
  }

  /** The first negative limit is the one reported. */
  lemma SetupReportsFirstNegative(l: Limits, d: Limits)
    requires NonNegative(d)
    ensures l.maxDepth < 0 ==> Setup(l, d) == Failure(InvalidMaxDepth(l.maxDepth))
    ensures l.maxDepth >= 0 && l.maxUrls < 0 ==> Setup(l, d) == Failure(InvalidMaxUrls(l.maxUrls))
    ensures l.maxDepth >= 0 && l.maxUrls >= 0 && l.concurrency < 0 ==> Setup(l, d) == Failure(InvalidConcurrency(l.concurrency))
    ensures l.maxDepth >= 0 && l.maxUrls >= 0 && l.concurrency >= 0 && l.timeout < 0 ==> Setup(l, d) == Failure(InvalidTimeout(l.timeout))
  {
  }

  /** Start-up is idempotent: its output passes through it unchanged. */
  lemma SetupIdempotent(l: Limits, d: Limits)
    requires Setup(l, d).Success?
    ensures Setup(Setup(l, d).value, d) == Setup(l, d)
  {
  }
}
