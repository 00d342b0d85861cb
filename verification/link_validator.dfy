/**
 * src/validators/link_validator.py: the synchronous strict link check with its result
 * cache. HEAD is tried first, GET on failure, one retry on 403, and a soft-404 text test
 * with an optional remote renderer. Every answer is stored in a time-limited cache keyed by
 * the normalised URL. Network answers are input records; the clock is a parameter.
 */
module LinkValidator {
  import opened Wrappers
  import opened Text

  // ---------------------------------------------------------------- URL normalisation

  predicate IsSchemeChar(c: char) {
    IsAsciiLetter(c) || IsAsciiDigit(c) || c == '+' || c == '-' || c == '.'
  }

  /** The characters `urlsplit` strips from the front of a URL: the C0 controls and space. */
  predicate IsC0OrSpace(c: char) {
    c <= ' '
  }

  /** The characters `urlsplit` deletes wherever they occur: tab, carriage return, line feed. */
  predicate IsUnsafe(c: char) {
    c == '\t' || c == '\r' || c == '\n'
  }

  function TrimLeftC0(s: string): (r: string)
    ensures |r| <= |s| && r == s[|s| - |r|..]
    ensures r == [] || !IsC0OrSpace(r[0])
    decreases |s|
  {
    if s != [] && IsC0OrSpace(s[0]) then TrimLeftC0(s[1..]) else s
  }

  function RemoveUnsafe(s: string): (r: string)
    ensures |r| <= |s|
    decreases |s|
  {
    if s == [] then [] else (if IsUnsafe(s[0]) then [] else [s[0]]) + RemoveUnsafe(s[1..])
  }

  /** `RemoveUnsafe` only deletes: what it returns was there before. */
  lemma {:induction false} RemoveUnsafeOnlyDeletes(s: string, c: char)
    requires c in RemoveUnsafe(s)
    ensures c in s && !IsUnsafe(c)
    decreases |s|
  {
    if c !in (if IsUnsafe(s[0]) then [] else [s[0]]) {
      RemoveUnsafeOnlyDeletes(s[1..], c);
    }
  }

  /** The text `urlsplit` reads a scheme from: leading controls and spaces gone, then tab, CR and LF. */
  function SchemeView(s: string): string {
    RemoveUnsafe(TrimLeftC0(s))
  }

  /** A `:` after at least one character, the first an ASCII letter and all of them scheme characters. */
  predicate SchemeAtFront(v: string) {
    var i := Find(v, ":");
    i > 0 && IsAsciiLetter(v[0]) && forall k :: 0 <= k < i ==> IsSchemeChar(v[k])
  }

  /** `urlparse(s).scheme` is non-empty. */
  predicate HasScheme(s: string) {
    SchemeAtFront(SchemeView(s))
  }

  lemma {:induction false} RemoveUnsafeAppend(a: string, b: string)
    ensures RemoveUnsafe(a + b) == RemoveUnsafe(a) + RemoveUnsafe(b)
    decreases |a|
  {
    if a == [] {
      assert a + b == b;
    } else {
      assert (a + b)[1..] == a[1..] + b;
      RemoveUnsafeAppend(a[1..], b);
    }
  }

  lemma {:induction false} TrimLeftC0Append(a: string, b: string)
    ensures TrimLeftC0(a + b) == if TrimLeftC0(a) == [] then TrimLeftC0(b) else TrimLeftC0(a) + b
    decreases |a|
  {
    if a == [] {
      assert a + b == b;
    } else if IsC0OrSpace(a[0]) {
      assert (a + b)[1..] == a[1..] + b;
      TrimLeftC0Append(a[1..], b);
    }
  }

  lemma NoColonNoFront(v: string)
    requires ':' !in v
    ensures !SchemeAtFront(v)
  {
  }

  /** `normalize_url`: strip, complete `//host` and scheme-less URLs with https, drop trailing `/`. */
  function NormalizeUrl(url: string): (r: string)
    ensures NoTrailingSlash(r)
  {
    Complete(Strip(url))
  }

  /** Empty, or ending in something other than `/`. */
  predicate NoTrailingSlash(s: string) {
    s == [] || s[|s| - 1] != '/'
  }

  /** The steps of `normalize_url` after `strip()`. */
  function Complete(a: string): (r: string)
    ensures NoTrailingSlash(r)
  {
    var b := if StartsWith(a, "//") then "https:" + a else a;
    var c := if HasScheme(b) then b else "https://" + b;
    TrimRightChar(c, '/')
  }

  /** Dropping trailing slashes keeps a scheme: the `:` that ends it is not a slash. */
  lemma TrimKeepsScheme(c: string)
    requires HasScheme(c)
    ensures HasScheme(TrimRightChar(c, '/'))
  {
    var r := TrimRightChar(c, '/');
    var t := c[|r|..];
    assert c == r + t;
    SchemeViewOfSlashes(r, t);
    FrontOfExtension(SchemeView(r), t);
  }

  /** Trailing slashes after text with a scheme pass through to the end of its scheme view. */
  lemma SchemeViewOfSlashes(r: string, t: string)
    requires forall k :: |r| <= k < |r + t| ==> (r + t)[k] == '/'
    requires HasScheme(r + t)
    ensures ':' !in t && SchemeView(r + t) == SchemeView(r) + t
  {
    forall k | 0 <= k < |t| ensures t[k] == '/' {
      assert t[k] == (r + t)[|r| + k];
    }
    RemoveUnsafeAllKept(t);
    assert ':' !in t;
    TrimLeftC0Append(r, t);
    if TrimLeftC0(r) == [] {
      assert t == [] || !IsC0OrSpace(t[0]);
      assert TrimLeftC0(t) == t;
      NoColonNoFront(t);
      assert false;
    }
    RemoveUnsafeAppend(TrimLeftC0(r), t);
  }

  /** A scheme found in `v + t`, where `t` holds no `:`, was already in `v`. */
  lemma FrontOfExtension(v: string, t: string)
    requires ':' !in t && SchemeAtFront(v + t)
    ensures SchemeAtFront(v)
  {
    var w := v + t;
    var i := Find(w, ":");
    assert w[i..i + 1] == ":";
    assert w[i] == ':';
    assert i < |v|;
    assert OccursAt(v, ":", i) by {
      assert v[i..i + 1] == w[i..i + 1];
    }
    forall j | 0 <= j < i ensures !OccursAt(v, ":", j) {
      assert !OccursAt(w, ":", j);
      assert v[j..j + 1] == w[j..j + 1];
    }
    assert Find(v, ":") == i;
    forall k | 0 <= k < i ensures IsSchemeChar(v[k]) {
      assert v[k] == w[k];
    }
    assert v[0] == w[0];
  }

  /** Text holding no tab, CR or LF comes out of `RemoveUnsafe` unchanged. */
  lemma {:induction false} RemoveUnsafeAllKept(t: string)
    requires forall k :: 0 <= k < |t| ==> !IsUnsafe(t[k])
    ensures RemoveUnsafe(t) == t
    decreases |t|
  {
    if t != [] {
      RemoveUnsafeAllKept(t[1..]);
    }
  }

  /** `https:` in front of anything is a scheme. */
  lemma HttpsColonHasScheme(b: string)
    ensures HasScheme("https:" + b)
  {
    var c := "https:" + b;
    assert TrimLeftC0(c) == c;
    RemoveUnsafeAppend("https:", b);
    assert RemoveUnsafe("https:") == "https:";
    var v := SchemeView(c);
    assert v == "https:" + RemoveUnsafe(b);
    assert OccursAt(v, ":", 5);
    forall j | 0 <= j < 5 ensures !OccursAt(v, ":", j) {
      assert v[j] != ':';
    }
    assert Find(v, ":") == 5;
  }

  lemma HttpsHasScheme(b: string)
    ensures HasScheme("https://" + b)
  {
    assert "https://" + b == "https:" + ("//" + b);
    HttpsColonHasScheme("//" + b);
  }

  /** Every normalised URL carries a scheme and no trailing slash. */
  lemma NormalizedHasScheme(url: string)
    ensures HasScheme(NormalizeUrl(url))
  {
    var b := if StartsWith(Strip(url), "//") then "https:" + Strip(url) else Strip(url);
    if HasScheme(b) {
      TrimKeepsScheme(b);
    } else {
      HttpsHasScheme(b);
      TrimKeepsScheme("https://" + b);
    }
  }

  /** Text without a `:` has no scheme. */
  lemma NoColonNoScheme(s: string)
    requires ':' !in s
    ensures !HasScheme(s)
  {
    assert ':' !in TrimLeftC0(s);
    if ':' in SchemeView(s) {
      RemoveUnsafeOnlyDeletes(TrimLeftC0(s), ':');
    }
    NoColonNoFront(SchemeView(s));
  }

  /** `urlsplit` deletes a tab anywhere in the URL before it looks for the scheme. */
  lemma TabIsDeleted(a: string, b: string)
    requires a != [] && !IsC0OrSpace(a[0])
    requires forall k :: 0 <= k < |a| ==> !IsUnsafe(a[k])
    requires forall k :: 0 <= k < |b| ==> !IsUnsafe(b[k])
    ensures SchemeView(a + "\t" + b) == a + b
  {
    var u := a + "\t" + b;
    assert u[0] == a[0];
    assert TrimLeftC0(u) == u;
    RemoveUnsafeTab(a, b);
  }

  /** `RemoveUnsafe` deletes the one tab between two runs of safe text. */
  lemma RemoveUnsafeTab(a: string, b: string)
    requires forall k :: 0 <= k < |a| ==> !IsUnsafe(a[k])
    requires forall k :: 0 <= k < |b| ==> !IsUnsafe(b[k])
    ensures RemoveUnsafe(a + "\t" + b) == a + b
  {
    RemoveUnsafeAppend(a + "\t", b);
    TrailingTabRemoved(a);
    RemoveUnsafeAllKept(b);
  }

  /** `RemoveUnsafe` deletes a tab after safe text. */
  lemma TrailingTabRemoved(a: string)
    requires forall k :: 0 <= k < |a| ==> !IsUnsafe(a[k])
    ensures RemoveUnsafe(a + "\t") == a
  {
    RemoveUnsafeAppend(a, "\t");
    assert RemoveUnsafe("\t") == [] + RemoveUnsafe([]);
    RemoveUnsafeAllKept(a);
  }

  /**
   * A tab inside a URL does not hide its scheme, so `normalize_url` does not put a
   * second scheme in front.
   */
  lemma TabInsideSchemeIsIgnored(a: string, b: string)
    requires SchemeAtFront(a + b) && a != [] && b != [] && !IsSpace(b[|b| - 1])
    requires forall k :: 0 <= k < |a| ==> !IsUnsafe(a[k])
    requires forall k :: 0 <= k < |b| ==> !IsUnsafe(b[k])
    ensures HasScheme(a + "\t" + b)
    ensures NormalizeUrl(a + "\t" + b) == TrimRightChar(a + "\t" + b, '/')
  {
    SchemeTextFront(a, b);
    TabKeepsScheme(a, b);
    TabbedUrlIsStripped(a, b);
    CompleteWithScheme(a + "\t" + b);
  }

  /** The first character of text with a scheme in front is a letter. */
  lemma SchemeTextFront(a: string, b: string)
    requires SchemeAtFront(a + b) && a != []
    ensures IsAsciiLetter(a[0]) && !IsC0OrSpace(a[0])
  {
    assert a[0] == (a + b)[0];
  }

  /** A tab after the first character leaves the scheme visible. */
  lemma TabKeepsScheme(a: string, b: string)
    requires SchemeAtFront(a + b) && a != [] && !IsC0OrSpace(a[0])
    requires forall k :: 0 <= k < |a| ==> !IsUnsafe(a[k])
    requires forall k :: 0 <= k < |b| ==> !IsUnsafe(b[k])
    ensures HasScheme(a + "\t" + b)
  {
    TabIsDeleted(a, b);
  }

  /** A URL that already has a scheme only loses its trailing slashes. */
  lemma CompleteWithScheme(u: string)
    requires HasScheme(u) && !StartsWith(u, "//")
    ensures Complete(u) == TrimRightChar(u, '/')
  {
  }

  /** Text that starts with a scheme letter and ends in a non-space is its own `strip()`. */
  lemma TabbedUrlIsStripped(a: string, b: string)
    requires a != [] && IsAsciiLetter(a[0]) && b != [] && !IsSpace(b[|b| - 1])
    ensures Strip(a + "\t" + b) == a + "\t" + b
    ensures !StartsWith(a + "\t" + b, "//")
  {
    var u := a + "\t" + b;
    assert u[0] == a[0] && u[|u| - 1] == b[|b| - 1];
    StripTrimmed(u);
  }

  /** One trailing `/` after text that does not end in `/` is all `rstrip("/")` removes. */
  lemma TrimOneSlash(s: string)
    requires s != [] && s[|s| - 1] != '/'
    ensures TrimRightChar(s + "/", '/') == s
  {
    assert (s + "/")[..|s|] == s;
  }

  /** A protocol-relative `//host/` gets the https scheme and loses its one trailing slash. */
  lemma NormalizeProtocolRelative(a: string)
    requires |a| >= 3 && a[..2] == "//" && a[|a| - 1] == '/' && a[|a| - 2] != '/'
    ensures NormalizeUrl(a) == "https:" + a[..|a| - 1]
  {
    CompleteProtocolRelative(a);
    StripTrimmed(a);
  }

  lemma CompleteProtocolRelative(a: string)
    requires |a| >= 3 && a[..2] == "//" && a[|a| - 1] == '/' && a[|a| - 2] != '/'
    ensures Complete(a) == "https:" + a[..|a| - 1]
  {
    HttpsSnoc(a);
    CompleteDoubleSlash(a);
    TrimOneSlash("https:" + a[..|a| - 1]);
  }

  lemma HttpsSnoc(a: string)
    requires |a| >= 2 && a[|a| - 1] == '/'
    ensures var s := "https:" + a[..|a| - 1];
      "https:" + a == s + "/" && s[|s| - 1] == a[|a| - 2]
  {
    assert a == a[..|a| - 1] + "/";
  }

  /** Stripped text that starts with `//` is completed with `https:` and keeps that scheme. */
  lemma CompleteDoubleSlash(a: string)
    requires StartsWith(a, "//")
    ensures Complete(a) == TrimRightChar("https:" + a, '/')
  {
    HttpsPrefix(a);
    HttpsHasScheme(a[2..]);
  }

  lemma HttpsPrefix(a: string)
    requires StartsWith(a, "//")
    ensures "https:" + a == "https://" + a[2..]
  {
    assert a == "//" + a[2..];
  }

  /** A scheme-less `host/` gets the https scheme and loses its trailing slash. */
  lemma NormalizeSchemeless(host: string)
    requires host != [] && !IsSpace(host[0]) && host[0] != '/' && host[|host| - 1] != '/'
    requires ':' !in host
    ensures NormalizeUrl(host + "/") == "https://" + host
  {
    CompleteSchemeless(host);
    var a := host + "/";
    assert a[0] == host[0] && a[|a| - 1] == '/';
    StripTrimmed(a);
  }

  lemma CompleteSchemeless(host: string)
    requires host != [] && host[0] != '/' && host[|host| - 1] != '/'
    requires ':' !in host
    ensures Complete(host + "/") == "https://" + host
  {
    var a := host + "/";
    assert a[0] == host[0];
    assert !StartsWith(a, "//");
    assert ':' !in a;
    NoColonNoScheme(a);
    assert "https://" + a == ("https://" + host) + "/";
    TrimOneSlash("https://" + host);
  }

  // ---------------------------------------------------------------- error-page text

  const ErrorPhrases: seq<string> := ["page not found", "404", "not found", "error", "oops", "nicht gefunden", "no encontrado"]

  /**
   * `looks_like_error`: a missing or short body (under 500 characters once lower-cased and
   * stripped) looks like an error page; a longer one does when it holds one of the phrases.
   */
  predicate LooksLikeError(htmlText: string)
    ensures HasErrorPhrase(Lower(htmlText)) ==> LooksLikeError(htmlText)
    ensures !LooksLikeError(htmlText) ==> |htmlText| >= 500
  {
    var t := Lower(htmlText);
    StripLenIsStrip(t);
    StripLen(t) < 500 || HasErrorPhrase(t)
  }

  /** Some error phrase occurs in the text. */
  predicate HasErrorPhrase(t: string) {
    exists p :: p in ErrorPhrases && Contains(t, p)
  }

  /** A body under 500 characters once lower-cased and stripped always looks like an error. */
  lemma ShortBodyLooksLikeError(htmlText: string)
    requires |Strip(Lower(htmlText))| < 500
    ensures LooksLikeError(htmlText)
  {
    StripLenIsStrip(Lower(htmlText));
  }

  /** A long body looks like an error exactly when some phrase occurs in it, in any case. */
  lemma LongBodyErrorIffPhrase(htmlText: string)
    requires |Strip(Lower(htmlText))| >= 500
    ensures LooksLikeError(htmlText) <==> HasErrorPhrase(Lower(htmlText))
  {
    StripLenIsStrip(Lower(htmlText));
  }

  // ---------------------------------------------------------------- the result cache

  datatype SyncStatus = Ok | Broken | Soft404 | Ignored403 | Timeout | OkRendered

  function StatusText(s: SyncStatus): string {
    match s
    case Ok => "OK"
    case Broken => "BROKEN"
    case Soft404 => "SOFT_404"
    case Ignored403 => "IGNORED_403"
    case Timeout => "TIMEOUT"
    case OkRendered => "OK_RENDERED"
  }

  /** The result dictionary; `snippet` is a key only of soft-404 and rendered results. */
  datatype SyncResult = SyncResult(
    url: string, statusCode: Option<int>, status: SyncStatus, reason: string,
    finalUrl: Option<string>, snippet: Option<string>)

  /** A cache row: the stored value and the time it was written, in seconds. */
  datatype Entry = Entry(value: SyncResult, ts: int)

  /** The default time-to-live of `Cache.get`: two days. */
  const DefaultTtl: int := 172800

  /** What `Cache.get(key, ttl)` returns at time `now` from the rows `entries`. */
  function Lookup(entries: map<string, Entry>, key: string, ttl: int, now: int): (r: Option<SyncResult>)
    ensures key !in entries ==> r == None
    ensures key in entries ==> (r.Some? <==> now - entries[key].ts <= ttl)
    ensures r.Some? ==> r.value == entries[key].value
  {
    if key !in entries then None
    else if now - entries[key].ts > ttl then None
    else Some(entries[key].value)
  }

  /** A value just stored is read back until its time-to-live has passed, and not after. */
  lemma SetThenGet(entries: map<string, Entry>, key: string, v: SyncResult, stored: int, ttl: int, now: int)
    ensures Lookup(entries[key := Entry(v, stored)], key, ttl, now)
         == if now - stored <= ttl then Some(v) else None
  {
  }

  /** Storing under one key leaves every other key's answer as it was. */
  lemma SetLeavesOtherKeys(entries: map<string, Entry>, key: string, other: string, v: SyncResult, stored: int, ttl: int, now: int)
    requires other != key
    ensures Lookup(entries[key := Entry(v, stored)], other, ttl, now) == Lookup(entries, other, ttl, now)
  {
  }

  /** Once an entry has expired it stays expired. */
  lemma ExpiryIsPermanent(entries: map<string, Entry>, key: string, ttl: int, now: int, later: int)
    requires now <= later && Lookup(entries, key, ttl, now) == None
    ensures Lookup(entries, key, ttl, later) == None
  {
  }

  /** `Cache`: rows keyed by URL, each with the time it was stored. */
  class Cache {
    var entries: map<string, Entry>

    /**
     * `__init__`: opens the file at `path`; `CREATE TABLE IF NOT EXISTS` keeps the rows a
     * previous run stored there, passed in here as `stored` (empty for a new file).
     */
    constructor(stored: map<string, Entry>)
      ensures entries == stored
    {
      entries := stored;
    }

    /** `get`: `None` for a missing or expired row, else its value. */
    method Get(key: string, ttl: int, now: int) returns (r: Option<SyncResult>)
      ensures r == Lookup(entries, key, ttl, now)
    {
      if key !in entries {
        return None;
      }
      var row := entries[key];
      if now - row.ts > ttl {
        return None;
      }
      return Some(row.value);
    }

    /** `set`: replaces the row for `key`, stamped with `now`. */
    method Set(key: string, value: SyncResult, now: int)
      modifies this
      ensures entries == old(entries)[key := Entry(value, now)]
    {
      entries := entries[key := Entry(value, now)];
    }
  }

  // ---------------------------------------------------------------- the strict check

  /** HEAD on the URL; a `requests` HEAD reply has an empty body. */
  datatype HeadOutcome = HeadRaised | HeadReply(code: int, url: string)

  /** GET on the URL: a timeout, another request error with `str(e)`, or a reply. */
  datatype GetOutcome = GetTimeout | GetFailed(message: string) | GetReply(code: int, url: string, text: string)

  /** The second GET after a 403. */
  datatype RetryOutcome = RetryRaised | RetryReply(code: int, url: string, text: string)

  /**
   * The answers one check can receive; `render(rendertron, url)` is what `fetch_rendertron`
   * returns for the page (`None` on a non-200 answer or an error).
   */
  datatype Exchange = Exchange(head: HeadOutcome, get: GetOutcome, retry: RetryOutcome,
                               render: (string, string) -> Option<string>)

  /** The keyword arguments `rendertron` and `enable_js_fallback`. */
  datatype Options = Options(rendertron: Option<string>, enableJsFallback: bool)

  function HttpReason(code: int): string {
    "HTTP " + IntToString(code)
  }

  predicate IsHardBroken(code: int) {
    code == 404 || code == 410 || (500 <= code < 600)
  }

  predicate UsesGet(head: HeadOutcome) {
    head.HeadRaised? || head.code >= 400 || head.code == 405
  }

  /** The rendered page, when the renderer is switched on, configured, and answered with text. */
  function Rendered(finalUrl: string, ex: Exchange, opts: Options): Option<string>
  {
    if opts.enableJsFallback && opts.rendertron.Some? && opts.rendertron.value != "" then
      ex.render(opts.rendertron.value, finalUrl)
    else None
  }

  /** The body test and its outcome once the code, final URL and body are settled. */
  function BodyVerdict(url: string, code: int, finalUrl: string, text: string, ex: Exchange, opts: Options): (r: SyncResult)
    ensures r.url == url && r.statusCode == Some(code) && r.finalUrl == Some(finalUrl)
    ensures r.status in {Ok, Soft404, OkRendered}
  {
    if LooksLikeError(text) then
      var page := Rendered(finalUrl, ex, opts);
      if page.Some? && page.value != "" && !LooksLikeError(page.value) then
        SyncResult(url, Some(code), OkRendered, "rendertron_success", Some(finalUrl), Some(Take(page.value, 400)))
      else
        SyncResult(url, Some(code), Soft404, "soft_404_detected", Some(finalUrl), Some(Take(text, 400)))
    else
      SyncResult(url, Some(code), Ok, HttpReason(code), Some(finalUrl), None)
  }

  /**
   * The body test: a body that does not look like an error page is OK; otherwise the rendered
   * page rescues it when it is non-empty and clean, and it is a soft 404 when not.
   */
  lemma BodyVerdictOutcomes(url: string, code: int, finalUrl: string, text: string, ex: Exchange, opts: Options)
    ensures var r := BodyVerdict(url, code, finalUrl, text, ex, opts);
      && (r.status == Ok <==> !LooksLikeError(text))
      && (r.status == Ok ==> r.reason == HttpReason(code) && r.snippet == None)
      && (r.status == Soft404 ==> r.reason == "soft_404_detected" && r.snippet == Some(Take(text, 400)))
      && (r.status == OkRendered <==>
           LooksLikeError(text) && var page := Rendered(finalUrl, ex, opts);
           page.Some? && page.value != "" && !LooksLikeError(page.value))
      && (r.status == OkRendered ==>
           r.reason == "rendertron_success" && r.snippet == Some(Take(Rendered(finalUrl, ex, opts).value, 400)))
  {
  }

  /**
   * What the requests leave: either a result they settle on their own, or the code, final URL
   * and body that the body test then judges.
   */
  datatype Answer = Settled(result: SyncResult) | Tested(code: int, finalUrl: string, text: string)

  /** The HEAD, GET and 403-retry steps of `check_link_strict`. */
  function Answered(url: string, ex: Exchange): (a: Answer)
    ensures a.Settled? ==> a.result.url == url
  {
    if !UsesGet(ex.head) then Tested(ex.head.code, ex.head.url, "")
    else if ex.get.GetTimeout? then Settled(SyncResult(url, None, Timeout, "timeout", None, None))
    else if ex.get.GetFailed? then Settled(SyncResult(url, None, Broken, ex.get.message, None, None))
    else if IsHardBroken(ex.get.code) then
      Settled(SyncResult(url, Some(ex.get.code), Broken, HttpReason(ex.get.code), Some(ex.get.url), None))
    else if ex.get.code != 403 then Tested(ex.get.code, ex.get.url, ex.get.text)
    else if ex.retry.RetryRaised? then
      Settled(SyncResult(url, Some(403), Ignored403, "403 and retry failed", Some(ex.get.url), None))
    else if ex.retry.code == 403 then
      Settled(SyncResult(url, Some(403), Ignored403, "403 - likely bot protection", Some(ex.retry.url), None))
    else Tested(ex.retry.code, ex.retry.url, ex.retry.text)
  }

  /** The result `check_link_strict` computes for the normalised `url` when nothing is cached. */
  function Verdict(url: string, ex: Exchange, opts: Options): (r: SyncResult)
    ensures r.url == url
  {
    var a := Answered(url, ex);
    if a.Settled? then a.result else BodyVerdict(url, a.code, a.finalUrl, a.text, ex, opts)
  }

  /**
   * How the requests decide the result: a timeout or a failed GET, a hard-broken code, a 403
   * whose retry fails or answers 403 again, and otherwise the body test.
   */
  lemma VerdictOutcomes(url: string, ex: Exchange, opts: Options)
    ensures var r := Verdict(url, ex, opts);
      && (r.status == Timeout <==> UsesGet(ex.head) && ex.get.GetTimeout?)
      && (r.status == Timeout ==> r == SyncResult(url, None, Timeout, "timeout", None, None))
      && (UsesGet(ex.head) && ex.get.GetFailed? ==> r == SyncResult(url, None, Broken, ex.get.message, None, None))
      && (r.status == Broken && r.statusCode.Some? ==>
           UsesGet(ex.head) && ex.get.GetReply? && IsHardBroken(ex.get.code) && r.reason == HttpReason(ex.get.code))
      && (UsesGet(ex.head) && ex.get.GetReply? && IsHardBroken(ex.get.code) ==>
           r == SyncResult(url, Some(ex.get.code), Broken, HttpReason(ex.get.code), Some(ex.get.url), None))
      && (r.status == Ignored403 <==> UsesGet(ex.head) && ex.get.GetReply? && ex.get.code == 403
                                      && (ex.retry.RetryRaised? || ex.retry.code == 403))
      && (r.status == Ignored403 ==> r.statusCode == Some(403))
      && (r.status == Ignored403 ==>
           if ex.retry.RetryRaised? then r.reason == "403 and retry failed" && r.finalUrl == Some(ex.get.url)
           else r.reason == "403 - likely bot protection" && r.finalUrl == Some(ex.retry.url))
      // A HEAD below 400 leaves an empty body to test, which always looks like an error.
      && (!UsesGet(ex.head) ==> r.status in {Soft404, OkRendered})
  {
    if !UsesGet(ex.head) {
      ShortBodyLooksLikeError("");
      BodyVerdictOutcomes(url, ex.head.code, ex.head.url, "", ex, opts);
    }
  }

  /**
   * After a 403, a retry answer other than 403 is not re-tested for brokenness: with a clean
   * body even a retry answering 404 or 500 makes the link OK, reported with the retry's code.
   */
  lemma RetryIsNotRecheckedForBroken(url: string, ex: Exchange, opts: Options)
    requires UsesGet(ex.head) && ex.get.GetReply? && ex.get.code == 403
    requires ex.retry.RetryReply? && ex.retry.code != 403 && !LooksLikeError(ex.retry.text)
    ensures Verdict(url, ex, opts).status == Ok
    ensures Verdict(url, ex, opts).statusCode == Some(ex.retry.code)
    ensures Verdict(url, ex, opts).reason == HttpReason(ex.retry.code)
  {
    assert Answered(url, ex) == Tested(ex.retry.code, ex.retry.url, ex.retry.text);
    CleanBodyIsOk(url, ex.retry.code, ex.retry.url, ex.retry.text, ex, opts);
  }

  /** A body that does not look like an error page makes the link OK with the code's reason. */
  lemma CleanBodyIsOk(url: string, code: int, finalUrl: string, text: string, ex: Exchange, opts: Options)
    requires !LooksLikeError(text)
    ensures BodyVerdict(url, code, finalUrl, text, ex, opts) == SyncResult(url, Some(code), Ok, HttpReason(code), Some(finalUrl), None)
  {
  }



  /**
   * `check_link_strict`: a cached result for the normalised URL is returned with no request;
   * otherwise the requests decide the result, which is stored under the normalised URL.
   */
  method CheckLinkStrict(cache: Cache, rawUrl: string, ex: Exchange, opts: Options, lookupTime: int, storeTime: int)
    returns (result: SyncResult)
    modifies cache
    ensures var url := NormalizeUrl(rawUrl);
      var hit := Lookup(old(cache.entries), url, DefaultTtl, lookupTime);
      if hit.Some? then result == hit.value && cache.entries == old(cache.entries)
      else result == Verdict(url, ex, opts) && cache.entries == old(cache.entries)[url := Entry(result, storeTime)]
  {
    var url := NormalizeUrl(rawUrl);
    var cached := cache.Get(url, DefaultTtl, lookupTime);
    if cached.Some? {
      return cached.value;
    }
    result := Probe(url, ex, opts);
    cache.Set(url, result, storeTime);
  }

  /**
   * The requests of `check_link_strict` once the cache has missed: `code`, `final_url` and
   * the body are reassigned as HEAD, GET and the 403 retry answer, and every exit returns.
   */
  method Probe(url: string, ex: Exchange, opts: Options) returns (result: SyncResult)
    ensures result == Verdict(url, ex, opts)
  {
    var code: Option<int> := None;
    var finalUrl := url;
    var text := "";
    match ex.head {
      case HeadRaised =>
      case HeadReply(c, u) =>
        code := Some(c);
        finalUrl := u;
    }
    if code.None? || code.value >= 400 || code.value == 405 {
      match ex.get {
        case GetTimeout =>
          result := SyncResult(url, None, Timeout, "timeout", None, None);
          return;
        case GetFailed(msg) =>
          result := SyncResult(url, None, Broken, msg, None, None);
          return;
        case GetReply(c, u, t) =>
          code := Some(c);
          finalUrl := u;
          text := t;
      }
    }
    var status := code.value;
    if status == 404 || status == 410 || (500 <= status < 600) {
      result := SyncResult(url, Some(status), Broken, HttpReason(status), Some(finalUrl), None);
      return;
    }
    if status == 403 {
      match ex.retry {
        case RetryRaised =>
          result := SyncResult(url, Some(403), Ignored403, "403 and retry failed", Some(finalUrl), None);
          return;
        case RetryReply(c, u, t) =>
          if c == 403 {
            result := SyncResult(url, Some(403), Ignored403, "403 - likely bot protection", Some(u), None);
            return;
          }
          status := c;
          finalUrl := u;
          text := t;
      }
    }
    result := BodyTest(url, status, finalUrl, text, ex, opts);
  }

  /** The soft-404 test at the end of `check_link_strict`, with the renderer as a second chance. */
  method BodyTest(url: string, status: int, finalUrl: string, text: string, ex: Exchange, opts: Options)
    returns (result: SyncResult)
    ensures result == BodyVerdict(url, status, finalUrl, text, ex, opts)
  {
    if LooksLikeError(text) {
      var rendered := Rendered(finalUrl, ex, opts);
      if rendered.Some? && rendered.value != "" && !LooksLikeError(rendered.value) {
        result := SyncResult(url, Some(status), OkRendered, "rendertron_success", Some(finalUrl), Some(Take(rendered.value, 400)));
      } else {
        result := SyncResult(url, Some(status), Soft404, "soft_404_detected", Some(finalUrl), Some(Take(text, 400)));
      }
      return;
    }
    result := SyncResult(url, Some(status), Ok, HttpReason(status), Some(finalUrl), None);
  }
}
