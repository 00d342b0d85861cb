/**
 * src/validators/advanced_link_checker.py: the asynchronous strict link check.
 * A HEAD request is tried first; on failure the link is fetched with GET and classified
 * from its status and its page text, with a rescue through the locale-less URL.
 * Each network exchange is an input record; HTML parsing is reduced to a `PageView`.
 */
module AdvancedChecker {
  import opened Wrappers
  import opened Text

  // ---------------------------------------------------------------- soft-404 heuristic

  /** The literal entries of ERROR_PATTERNS; the tenth, `\b404\b`, is `HasWord404`. */
  const ErrorPhrases: seq<string> := [
    "page not found", "not found", "something went wrong", "an unexpected error",
    "error loading", "nicht gefunden", "oops", "unavailable", "se ha producido un error"
  ]

  /** A character of `\w`, over ASCII. */
  predicate IsWordChar(c: char) {
    IsAsciiLetter(c) || IsAsciiDigit(c) || c == '_'
  }

  /** `\b404\b` matches at `i`. */
  predicate Word404At(t: string, i: int) {
    OccursAt(t, "404", i)
    && (i == 0 || !IsWordChar(t[i - 1]))
    && (i + 3 == |t| || !IsWordChar(t[i + 3]))
  }

  predicate HasWord404(t: string) {
    exists i :: 0 <= i < |t| && Word404At(t, i)
  }

  /** A `\b404\b` match is an occurrence of `404`. */
  lemma Word404Occurs(t: string)
    ensures HasWord404(t) ==> Contains(t, "404")
  {
    if HasWord404(t) {
      var i :| 0 <= i < |t| && Word404At(t, i);
      ContainsAt(t, "404", i);
    }
  }

  /**
   * `any(re.search(p, t) for p in ERROR_PATTERNS)`: every phrase matches wherever it occurs,
   * and nothing matches unless a phrase or `404` occurs.
   */
  predicate MatchesErrorPattern(t: string)
    ensures (exists p :: p in ErrorPhrases && Contains(t, p)) ==> MatchesErrorPattern(t)
    ensures MatchesErrorPattern(t) ==> Contains(t, "404") || exists p :: p in ErrorPhrases && Contains(t, p)
  {
    Word404Occurs(t);
    (exists p :: p in ErrorPhrases && Contains(t, p)) || HasWord404(t)
  }

  /**
   * `_is_soft_404`: empty text is not soft; lower-cased text that is shorter than 200
   * characters once stripped is soft; longer text is soft exactly when an error pattern
   * occurs in it.
   */
  predicate IsSoft404(text: string)
    ensures text == [] ==> !IsSoft404(text)
    ensures text != [] && |text| < 200 ==> IsSoft404(text)
    ensures text != [] && MatchesErrorPattern(Lower(text)) ==> IsSoft404(text)
  {
    text != [] && (|Strip(Lower(text))| < 200 || MatchesErrorPattern(Lower(text)))
  }

  /** A long text is soft exactly when it holds an error pattern; the phrases ignore case. */
  lemma LongTextSoftIffPattern(text: string, p: string)
    requires |Strip(Lower(text))| >= 200
    ensures IsSoft404(text) <==> MatchesErrorPattern(Lower(text))
    ensures p in ErrorPhrases && Contains(Lower(text), p) ==> IsSoft404(text)
  {
    assert |Strip(Lower(text))| <= |text|;
  }

  /** `404` with a word character next to it is not the `\b404\b` pattern at that place. */
  lemma EmbeddedFourOhFourIsNotAWord(t: string, i: int)
    requires OccursAt(t, "404", i)
    requires (i > 0 && IsWordChar(t[i - 1])) || (i + 3 < |t| && IsWordChar(t[i + 3]))
    ensures !Word404At(t, i)
  {
  }

  /** `404` between non-word characters, or at either end of the text, matches. */
  lemma FourOhFourAloneMatches(t: string, i: int)
    requires OccursAt(t, "404", i)
    requires i == 0 || !IsWordChar(t[i - 1])
    requires i + 3 == |t| || !IsWordChar(t[i + 3])
    ensures HasWord404(t) && MatchesErrorPattern(t)
  {
    assert Word404At(t, i);
  }

  /** Examples: `404` inside a word or a number, and `404` on its own. */
  lemma FourOhFourExamples()
    ensures !HasWord404("x404")
    ensures !HasWord404("4040")
    ensures HasWord404("e 404.")
  {
    assert Word404At("e 404.", 2);
  }

  // ---------------------------------------------------------------- page analysis

  /** A parsed page: title string, `" ".join(stripped_strings)`, and the resolved canonical link. */
  datatype PageView = PageView(title: string, text: string, canonical: Option<string>)

  datatype Analysis = Analysis(title: string, snippet: string, canonical: Option<string>, soft: bool)

  /** `_analyze_html`. */
  function AnalyzeHtml(page: PageView): (a: Analysis)
    ensures a.title == page.title && a.canonical == page.canonical
    ensures |page.text| <= 400 ==> a.snippet == page.text
    ensures |page.text| > 400 ==> a.snippet == page.text[..400] + "..."
    ensures a.soft <==> IsSoft404(page.title + " " + Take(page.text, 5000))
  {
    var visible := Take(page.text, 5000);
    var snippet := if |visible| > 400 then Take(visible, 400) + "..." else visible;
    Analysis(page.title, snippet, page.canonical, IsSoft404(page.title + " " + visible))
  }

  /** A page whose title is short and whose text is empty counts as soft: the joined text is never empty. */
  lemma EmptyPageIsSoft(page: PageView)
    requires page.text == [] && |page.title| < 199
    ensures AnalyzeHtml(page).soft
  {
    assert |page.title + " " + Take(page.text, 5000)| < 200;
  }

  // ---------------------------------------------------------------- locale fallback

  /** A letter of `[a-z]` under `re.I`, over ASCII. */
  predicate IsLocaleLetter(c: char) {
    IsAsciiLetter(c)
  }

  /** LOCALE_RE, `/[a-z]{2}-[a-z]{2}/`, matches the seven characters at `i`. */
  predicate LocaleSegmentAt(s: string, i: int) {
    0 <= i && i + 7 <= |s|
    && s[i] == '/' && IsLocaleLetter(s[i + 1]) && IsLocaleLetter(s[i + 2]) && s[i + 3] == '-'
    && IsLocaleLetter(s[i + 4]) && IsLocaleLetter(s[i + 5]) && s[i + 6] == '/'
  }

  function FindLocaleSegmentFrom(s: string, from: nat): (r: int)
    requires from <= |s|
    ensures r == -1 || (from <= r && LocaleSegmentAt(s, r))
    ensures forall i :: from <= i && (r == -1 || i < r) ==> !LocaleSegmentAt(s, i)
    decreases |s| - from
  {
    if LocaleSegmentAt(s, from) then from
    else if from == |s| then -1
    else FindLocaleSegmentFrom(s, from + 1)
  }

  /**
   * `LOCALE_RE.sub("/", s, count=1)` when `LOCALE_RE.search(s)` succeeds: the leftmost
   * `/xx-yy/` segment becomes a single `/`; `None` when there is no such segment.
   */
  function LocaleFallbackUrl(s: string): (r: Option<string>)
    ensures r.Some? ==> |r.value| == |s| - 6
  {
    var i := FindLocaleSegmentFrom(s, 0);
    if i < 0 then None else Some(s[..i] + "/" + s[i + 7..])
  }

  /**
   * There is a rewrite exactly when some `/xx-yy/` segment occurs, and it replaces the
   * leftmost one by `/`, keeping what surrounds it.
   */
  lemma LocaleFallbackShape(s: string)
    ensures LocaleFallbackUrl(s).None? <==> forall i :: !LocaleSegmentAt(s, i)
    ensures LocaleFallbackUrl(s).Some? ==>
      exists i :: LocaleSegmentAt(s, i) && (forall j :: 0 <= j < i ==> !LocaleSegmentAt(s, j))
                  && LocaleFallbackUrl(s).value == s[..i] + "/" + s[i + 7..]
  {
    var i := FindLocaleSegmentFrom(s, 0);
    if i >= 0 {
      assert LocaleSegmentAt(s, i);
    } else {
      forall k ensures !LocaleSegmentAt(s, k) {
      }
    }
  }

  /** A path that starts with a locale segment loses exactly that segment. */
  lemma LeadingLocaleIsDropped(code: string, rest: string)
    requires |code| == 5 && code[2] == '-'
    requires IsLocaleLetter(code[0]) && IsLocaleLetter(code[1])
    requires IsLocaleLetter(code[3]) && IsLocaleLetter(code[4])
    ensures LocaleFallbackUrl("/" + code + "/" + rest) == Some("/" + rest)
  {
    var s := "/" + code + "/" + rest;
    assert s[1..6] == code;
    assert LocaleSegmentAt(s, 0);
    assert FindLocaleSegmentFrom(s, 0) == 0;
    assert s[7..] == rest;
    assert s[..0] + "/" + s[7..] == "/" + rest;
  }

  /** A path with no `-` has no locale segment, so it is not rewritten. */
  lemma NoDashNoFallback(s: string)
    requires '-' !in s
    ensures LocaleFallbackUrl(s) == None
  {
    forall i ensures !LocaleSegmentAt(s, i) {
      if 0 <= i && i + 7 <= |s| {
        assert s[i + 3] in s;
      }
    }
    LocaleFallbackShape(s);
  }

  lemma LocaleFallbackExample()
    ensures LocaleFallbackUrl("/de-de/") == Some("/")
    ensures LocaleFallbackUrl("/de/") == None
  {
    var s := "/de-de/";
    assert LocaleSegmentAt(s, 0);
    assert FindLocaleSegmentFrom(s, 0) == 0;
    assert s[..0] + "/" + s[7..] == "/";
  }

  // ---------------------------------------------------------------- the strict check

  datatype Status = Unknown | Ok | Broken | Soft404 | NotAvailable

  /** The `status` string a result carries. */
  function StatusText(s: Status): (r: string)
    ensures s != Unknown ==> r != "UNKNOWN"
  {
    match s
    case Unknown => "UNKNOWN"
    case Ok => "OK"
    case Broken => "BROKEN"
    case Soft404 => "SOFT_404"
    case NotAvailable => "N/A"
  }

  /** Different statuses are written differently. */
  lemma StatusTextInjective(a: Status, b: Status)
    ensures StatusText(a) == StatusText(b) ==> a == b
  {
  }

  /** The result dictionary of `check_link_strict`. */
  datatype CheckResult = CheckResult(
    url: string, finalUrl: string, status: Status, statusCode: Option<int>,
    reason: string, snippet: string, localizedRescue: bool, canonicalMatch: bool, jsRecovery: bool)

  /** The HEAD request on the URL: it raised, or replied with a status and the URL after redirects. */
  datatype HeadOutcome = HeadRaised | HeadReply(status: int, finalUrl: string)

  /** The GET request on the URL: it raised (with `str(e)`), or replied with a status, URL, body and parsed page. */
  datatype GetOutcome = GetRaised(message: string) | GetReply(status: int, finalUrl: string, html: string, page: PageView)

  /** The HEAD request on a locale-less fallback URL. */
  datatype FallbackOutcome = FallbackRaised | FallbackReply(status: int)

  /** What the network answers to the requests one check can make. */
  datatype Exchange = Exchange(head: HeadOutcome, get: GetOutcome, fallback: string -> FallbackOutcome)

  function Initial(url: string): (r: CheckResult)
    ensures r.status == Unknown && r.statusCode == None && r.finalUrl == url
  {
    CheckResult(url, url, Unknown, None, "", "", false, false, false)
  }

  function HttpReason(status: int): string {
    "HTTP " + IntToString(status)
  }

  /** The statuses of a GET that mark a link broken whatever its page says. */
  predicate IsHardBroken(status: int) {
    status == 404 || status == 410 || status >= 500
  }

  /** The comparison `analysed.get("canonical") == r.url`, of the canonical link with the response URL. */
  function CanonicalMatch(canonical: Option<string>, finalUrl: string): (r: bool)
    ensures r <==> canonical.Some? && canonical.value == finalUrl
  {
    canonical == Some(finalUrl)
  }

  /**
   * The same comparison as written: the response URL is a URL object, not a string, and a
   * string never compares equal to it.
   */
  function CanonicalMatchAsWritten(canonical: Option<string>, finalUrl: string): (r: bool)
    ensures !r
  {
    false
  }

  lemma CanonicalNeverMatchesAsWritten(u: string)
    ensures CanonicalMatch(Some(u), u) && !CanonicalMatchAsWritten(Some(u), u)
  {
  }

  /** The result of `check_link_strict(url)` for the given network answers. */
  function Classify(url: string, ex: Exchange): (r: CheckResult)
    ensures r.url == url
  {
    var init := Initial(url);
    if ex.head.HeadReply? && ex.head.status < 400 then
      init.(status := Ok, reason := HttpReason(ex.head.status),
            statusCode := Some(ex.head.status), finalUrl := ex.head.finalUrl)
    else
      var escalated := if ex.head.HeadReply? then init.(statusCode := Some(ex.head.status), finalUrl := ex.head.finalUrl) else init;
      match ex.get
      case GetRaised(msg) => escalated.(status := NotAvailable, statusCode := Some(0), reason := msg)
      case GetReply(status, finalUrl, html, page) => PageVerdict(escalated, ex.get, ex.fallback)
  }

  /** The decision once GET has answered: hard-broken status, soft page, locale rescue or OK. */
  function PageVerdict(escalated: CheckResult, get: GetOutcome, fallback: string -> FallbackOutcome): (r: CheckResult)
    requires get.GetReply?
    ensures r.url == escalated.url && r.statusCode == Some(get.status) && r.finalUrl == get.finalUrl
  {
    var fetched := escalated.(statusCode := Some(get.status), finalUrl := get.finalUrl);
    if IsHardBroken(get.status) then
      fetched.(status := Broken, reason := HttpReason(get.status),
               snippet := if get.html == [] then "" else Take(get.html, 400) + "...")
    else AnalysedVerdict(fetched, AnalyzeHtml(get.page), get.status, fallback)
  }

  /** The decision on a page that is not hard-broken, from its analysis. */
  function AnalysedVerdict(fetched: CheckResult, a: Analysis, status: int, fallback: string -> FallbackOutcome): (r: CheckResult)
    ensures r.url == fetched.url && r.statusCode == fetched.statusCode && r.finalUrl == fetched.finalUrl
  {
    var matched := if CanonicalMatch(a.canonical, fetched.finalUrl) then fetched.(canonicalMatch := true) else fetched;
    if a.soft then
      matched.(status := Soft404, reason := "Soft/visible error", snippet := a.snippet)
    else
      var url := LocaleFallbackUrl(fetched.finalUrl);
      if url.Some? && fallback(url.value) == FallbackReply(200) then
        matched.(status := Ok, reason := "Localized fallback", localizedRescue := true)
      else
        matched.(status := Ok, reason := HttpReason(status), snippet := a.snippet)
  }

  /**
   * What `check_link_strict` decides: a HEAD below 400 settles it; otherwise a raised GET gives
   * N/A, a hard-broken status Broken, a soft page Soft 404, and a clean page OK, rescued by
   * the locale fallback only on a fallback HEAD of exactly 200.
   */
  lemma ClassifyOutcomes(url: string, ex: Exchange)
    ensures var r := Classify(url, ex);
      && (r.url == url && r.status != Unknown && r.statusCode.Some? && !r.jsRecovery)
      // A HEAD below 400 settles the link without a GET.
      && (ex.head.HeadReply? && ex.head.status < 400 ==>
           r == Initial(url).(status := Ok, reason := HttpReason(ex.head.status),
           statusCode := Some(ex.head.status), finalUrl := ex.head.finalUrl))
      // Otherwise GET decides; a GET that raised gives N/A with code 0.
      && (r.status == NotAvailable <==> (ex.head.HeadRaised? || ex.head.status >= 400) && ex.get.GetRaised?)
      && (r.status == NotAvailable ==>
           && r.statusCode == Some(0) && r.reason == ex.get.message && r.snippet == ""
           && r.finalUrl == (if ex.head.HeadReply? then ex.head.finalUrl else url))
      && (r.status == Broken <==>
           (ex.head.HeadRaised? || ex.head.status >= 400) && ex.get.GetReply? && IsHardBroken(ex.get.status))
      && (r.status == Broken ==>
           && r.reason == HttpReason(ex.get.status) && r.statusCode == Some(ex.get.status)
           && r.snippet == (if ex.get.html == [] then "" else Take(ex.get.html, 400) + "..."))
      && (r.status == Soft404 <==>
           (ex.head.HeadRaised? || ex.head.status >= 400) && ex.get.GetReply? && !IsHardBroken(ex.get.status)
           && AnalyzeHtml(ex.get.page).soft)
      && (r.status == Soft404 ==> r.reason == "Soft/visible error" && r.snippet == AnalyzeHtml(ex.get.page).snippet)
      // The locale rescue: only after a clean GET, only on a fallback HEAD of exactly 200, URL kept.
      && (r.localizedRescue <==>
           (ex.head.HeadRaised? || ex.head.status >= 400) && ex.get.GetReply? && !IsHardBroken(ex.get.status)
           && !AnalyzeHtml(ex.get.page).soft && LocaleFallbackUrl(ex.get.finalUrl).Some?
           && ex.fallback(LocaleFallbackUrl(ex.get.finalUrl).value) == FallbackReply(200))
      && (r.localizedRescue ==> r.status == Ok && r.reason == "Localized fallback" && r.finalUrl == ex.get.finalUrl)
      && (r.canonicalMatch ==> ex.get.GetReply? && CanonicalMatch(ex.get.page.canonical, ex.get.finalUrl))
  {
  }


  /**
   * `check_link_strict`: starts from the UNKNOWN record and updates it step by step as the
   * requests answer, returning on the first decision.
   */
  method CheckLinkStrict(url: string, ex: Exchange) returns (result: CheckResult)
    ensures result == Classify(url, ex)
  {
    result := Initial(url);
    if ex.head.HeadReply? {
      result := result.(statusCode := Some(ex.head.status), finalUrl := ex.head.finalUrl);
      if ex.head.status < 400 {
        result := result.(status := Ok, reason := HttpReason(ex.head.status));
        return;
      }
    }
    match ex.get {
      case GetRaised(msg) =>
        result := result.(status := NotAvailable, statusCode := Some(0), reason := msg);
        return;
      case GetReply(_, _, _, _) =>
        result := CheckPage(result, ex.get, ex.fallback);
    }
  }

  /** The part of `check_link_strict` after a GET reply, updating the record as it goes. */
  method CheckPage(escalated: CheckResult, get: GetOutcome, fallback: string -> FallbackOutcome)
    returns (result: CheckResult)
    requires get.GetReply?
    ensures result == PageVerdict(escalated, get, fallback)
  {
    var status, finalUrl, html, page := get.status, get.finalUrl, get.html, get.page;
    result := escalated.(statusCode := Some(status));
    result := result.(finalUrl := finalUrl);
    if status == 404 || status == 410 || status >= 500 {
      result := result.(status := Broken);
      result := result.(reason := HttpReason(status));
      result := result.(snippet := if html != [] then Take(html, 400) + "..." else "");
      return;
    }
    var analysed := AnalyzeHtml(page);
    result := CheckAnalysed(result, analysed, status, fallback);
  }

  /** The canonical, soft-404 and locale-fallback steps of `check_link_strict`. */
  method CheckAnalysed(fetched: CheckResult, analysed: Analysis, status: int, fallback: string -> FallbackOutcome)
    returns (result: CheckResult)
    ensures result == AnalysedVerdict(fetched, analysed, status, fallback)
  {
    result := fetched;
    if analysed.canonical == Some(result.finalUrl) {
      result := result.(canonicalMatch := true);
    }
    if analysed.soft {
      result := result.(status := Soft404, reason := "Soft/visible error", snippet := analysed.snippet);
      return;
    }
    var fallbackUrl := LocaleFallbackUrl(result.finalUrl);
    if fallbackUrl.Some? {
      var answer := fallback(fallbackUrl.value);
      if answer.FallbackReply? && answer.status == 200 {
        result := result.(status := Ok, reason := "Localized fallback", localizedRescue := true);
        return;
      }
    }
    result := result.(status := Ok, reason := HttpReason(status), snippet := analysed.snippet);
  }

}
