/**
 * src/checker.py: the crawler run. Pages are fetched in batches and their link candidates
 * extracted, the candidates are de-duplicated by URL, each URL is validated under a
 * per-domain gate, and the broken results are projected onto CSV rows.
 * Fetching, HTML parsing, `urljoin` and `urlparse` are oracles bundled in a `Web` value.
 */
module Checker {
  import opened Wrappers
  import opened Text
  import opened PyDict
  import opened FirstByKey
  import opened Batching
  import AdvancedChecker

  /** BATCH_SIZE and PER_DOMAIN_CONCURRENCY at their defaults. */
  const BatchSize: nat := 400
  const PerDomainConcurrency: nat := 8

  const SkipExt: seq<string> := [
    ".pdf", ".jpg", ".jpeg", ".png", ".mp4", ".zip", ".webp", ".svg", ".gif", ".woff", ".ttf", ".css", ".js"
  ]

  // ---------------------------------------------------------------- utilities

  /** `domain_of`: the lower-cased network location, or "unknown" when `urlparse` raised. */
  function DomainOf(netloc: Option<string>): (r: string)
    ensures netloc.None? ==> r == "unknown"
    ensures netloc.Some? ==> r == Lower(netloc.value) && NoUpper(r)
  {
    if netloc.Some? then Lower(netloc.value) else "unknown"
  }

  /**
   * Hosts differing only in case share one gate, and a host literally named `unknown` shares
   * the gate of the URLs `urlparse` could not handle.
   */
  lemma DomainOfIgnoresCase(netloc: string)
    ensures DomainOf(Some(Lower(netloc))) == DomainOf(Some(netloc))
    ensures Lower(netloc) == "unknown" ==> DomainOf(Some(netloc)) == DomainOf(None)
  {
    LowerIdempotent(netloc);
  }

  /** The part of a URL `should_skip` inspects: lower-cased, before the first `?`, then before the first `#`. */
  function SkipView(url: string): (u: string)
    ensures '?' !in u && '#' !in u && NoUpper(u)
  {
    CutAt(CutAt(Lower(url), '?'), '#')
  }

  /** `should_skip`: empty URLs, static resources by extension, and non-HTTP schemes. */
  predicate ShouldSkip(url: string)
    ensures url == [] ==> ShouldSkip(url)
    ensures url != [] && SkipView(url) == [] ==> !ShouldSkip(url)
  {
    url == []
    || (exists e :: e in SkipExt && EndsWith(SkipView(url), e))
    || StartsWith(SkipView(url), "mailto:") || StartsWith(SkipView(url), "tel:")
    || StartsWith(SkipView(url), "javascript:")
  }

  /** A query string cannot hide a static resource or change the verdict on a URL. */
  lemma QueryIsIgnored(u: string, q: string)
    requires u != [] && '?' !in u && '#' !in u
    ensures ShouldSkip(u + "?" + q) == ShouldSkip(u)
  {
    assert u + "?" + q == u + ['?'] + q;
    LowerAppend(u + ['?'], q);
    LowerAppend(u, ['?']);
    assert Lower(['?']) == ['?'];
    assert '?' !in Lower(u);
    CutAtFirst(Lower(u), '?', Lower(q));
    CutAtAbsent(Lower(u), '?');
    assert SkipView(u + "?" + q) == SkipView(u);
  }

  /** Case does not matter: a URL is skipped exactly when its lower-cased form is. */
  lemma CaseIsIgnored(u: string)
    ensures ShouldSkip(Lower(u)) == ShouldSkip(u)
  {
    LowerIdempotent(u);
    assert SkipView(Lower(u)) == SkipView(u);
  }

  /** A URL ending in a static extension, with no query or fragment, is skipped. */
  lemma StaticExtensionIsSkipped(stem: string, e: string)
    requires e in SkipExt && NoUpper(stem) && '?' !in stem && '#' !in stem
    ensures ShouldSkip(stem + e)
  {
    var u := stem + e;
    SkipExtPlain(e);
    assert NoUpper(u);
    LowerNoUpper(u);
    CutAtAbsent(u, '?');
    CutAtAbsent(u, '#');
    assert SkipView(u) == u;
    assert u[|u| - |e|..] == e;
  }

  /** The static extensions are lower-case and hold no `?` or `#`. */
  lemma SkipExtPlain(e: string)
    requires e in SkipExt
    ensures NoUpper(e) && '?' !in e && '#' !in e
  {
  }

  lemma EmptyIsSkipped()
    ensures ShouldSkip("")
  {
  }

  // ---------------------------------------------------------------- link extraction

  /** An `<a>` or `<button>` element: its name, its `href` attribute, its stripped text. */
  datatype Tag = Tag(name: string, href: Option<string>, text: string)

  /** A link candidate: the `source_page`, `element`, `anchor_text` and `url` of one item. */
  datatype Link = Link(sourcePage: string, element: string, anchorText: string, url: string)

  /** The answer to the GET of a page: it raised (or could not be parsed), or its status and elements. */
  datatype PageFetch = FetchRaised | PageReply(status: int, tags: seq<Tag>)

  /** The `href` test of `fetch_page_links`, case-sensitive. */
  predicate KeepHref(href: Option<string>) {
    href.Some? && href.value != []
    && !StartsWith(href.value, "mailto:") && !StartsWith(href.value, "tel:")
    && !StartsWith(href.value, "javascript:") && !StartsWith(href.value, "#")
  }

  /**
   * The item one element contributes: `resolve(page, href)` is `urljoin`, `None` when it
   * raised.
   */
  function LinkOf(page: string, tag: Tag, resolve: (string, string) -> Option<string>): (r: Option<Link>)
    ensures r.Some? <==> KeepHref(tag.href) && resolve(page, tag.href.value).Some?
                         && !ShouldSkip(resolve(page, tag.href.value).value)
    ensures r.Some? ==> r.value == Link(page, tag.name, Take(tag.text, 160), resolve(page, tag.href.value).value)
  {
    if !KeepHref(tag.href) then None
    else
      var full := resolve(page, tag.href.value);
      if full.None? || ShouldSkip(full.value) then None
      else Some(Link(page, tag.name, Take(tag.text, 160), full.value))
  }

  function OptionSeq<T>(o: Option<T>): seq<T> {
    if o.Some? then [o.value] else []
  }

  /** The items of a parsed page: each element's item, if it has one, in element order. */
  function Items(page: string, tags: seq<Tag>, resolve: (string, string) -> Option<string>): seq<Link>
    decreases |tags|
  {
    if tags == [] then []
    else Items(page, tags[..|tags| - 1], resolve) + OptionSeq(LinkOf(page, tags[|tags| - 1], resolve))
  }

  lemma ItemsSoundComplete(page: string, tags: seq<Tag>, resolve: (string, string) -> Option<string>)
    ensures var r := Items(page, tags, resolve);
      && |r| <= |tags|
      && (forall l :: l in r ==> exists t :: t in tags && LinkOf(page, t, resolve) == Some(l))
      && (forall t :: t in tags && LinkOf(page, t, resolve).Some? ==> LinkOf(page, t, resolve).value in r)
  {
    ItemsLength(page, tags, resolve);
    ItemsSound(page, tags, resolve);
    ItemsComplete(page, tags, resolve);
  }

  lemma {:induction false} ItemsLength(page: string, tags: seq<Tag>, resolve: (string, string) -> Option<string>)
    ensures |Items(page, tags, resolve)| <= |tags|
    decreases |tags|
  {
    if tags != [] {
      ItemsLength(page, tags[..|tags| - 1], resolve);
    }
  }

  /** Every item comes from an element of the page. */
  lemma {:induction false} ItemsSound(page: string, tags: seq<Tag>, resolve: (string, string) -> Option<string>)
    ensures forall l :: l in Items(page, tags, resolve) ==> exists t :: t in tags && LinkOf(page, t, resolve) == Some(l)
    decreases |tags|
  {
    if tags != [] {
      var p, last := tags[..|tags| - 1], tags[|tags| - 1];
      ItemsSound(page, p, resolve);
      var r0, o := Items(page, p, resolve), OptionSeq(LinkOf(page, last, resolve));
      assert Items(page, tags, resolve) == r0 + o;
      forall l | l in r0 + o ensures exists t :: t in tags && LinkOf(page, t, resolve) == Some(l) {
        if l in r0 {
          var t :| t in p && LinkOf(page, t, resolve) == Some(l);
          assert t in tags;
        } else {
          assert last in tags && LinkOf(page, last, resolve) == Some(l);
        }
      }
    }
  }

  /** Every element that yields an item has its item collected. */
  lemma {:induction false} ItemsComplete(page: string, tags: seq<Tag>, resolve: (string, string) -> Option<string>)
    ensures forall t :: t in tags && LinkOf(page, t, resolve).Some? ==> LinkOf(page, t, resolve).value in Items(page, tags, resolve)
    decreases |tags|
  {
    if tags != [] {
      var p, last := tags[..|tags| - 1], tags[|tags| - 1];
      ItemsComplete(page, p, resolve);
      var r0, o := Items(page, p, resolve), OptionSeq(LinkOf(page, last, resolve));
      assert Items(page, tags, resolve) == r0 + o;
      forall t | t in tags && LinkOf(page, t, resolve).Some? ensures LinkOf(page, t, resolve).value in r0 + o {
        if t != last {
          assert t in p by {
            var k :| 0 <= k < |tags| && tags[k] == t;
            assert p[k] == t;
          }
        }
      }
    }
  }

  lemma {:induction false} ItemsAppend(page: string, a: seq<Tag>, b: seq<Tag>, resolve: (string, string) -> Option<string>)
    ensures Items(page, a + b, resolve) == Items(page, a, resolve) + Items(page, b, resolve)
    decreases |b|
  {
    if b == [] {
      assert a + b == a;
    } else {
      var q := b[..|b| - 1];
      ItemsAppend(page, a, q, resolve);
      assert (a + b)[..|a + b| - 1] == a + q;
      assert (a + b)[|a + b| - 1] == b[|b| - 1];
    }
  }

  /**
   * The items `fetch_page_links` collects from a parsed page: every element that qualifies
   * yields its item, and every item comes from such an element.
   */
  function ExtractFrom(page: string, tags: seq<Tag>, resolve: (string, string) -> Option<string>): (r: seq<Link>)
    ensures |r| <= |tags|
    ensures forall l :: l in r ==> l.sourcePage == page && !ShouldSkip(l.url) && |l.anchorText| <= 160
    ensures forall l :: l in r ==> exists t :: t in tags && LinkOf(page, t, resolve) == Some(l)
    ensures forall t :: t in tags && LinkOf(page, t, resolve).Some? ==> LinkOf(page, t, resolve).value in r
  {
    ItemsSoundComplete(page, tags, resolve);
    Items(page, tags, resolve)
  }

  /** Items keep element order: an element's item comes after those of earlier elements and before later ones. */
  lemma ExtractFromInOrder(page: string, a: seq<Tag>, t: Tag, b: seq<Tag>, resolve: (string, string) -> Option<string>)
    ensures ExtractFrom(page, a + [t] + b, resolve)
         == ExtractFrom(page, a, resolve) + OptionSeq(LinkOf(page, t, resolve)) + ExtractFrom(page, b, resolve)
  {
    ItemsAppend(page, a + [t], b, resolve);
    ItemsAppend(page, a, [t], resolve);
    assert [t][..0] == [];
  }

  /** What `fetch_page_links` returns for a page: nothing on an error status or an exception. */
  function PageLinks(page: string, fetch: PageFetch, resolve: (string, string) -> Option<string>): (r: seq<Link>)
    ensures fetch.FetchRaised? || fetch.status >= 400 ==> r == []
  {
    if fetch.FetchRaised? || fetch.status >= 400 then [] else ExtractFrom(page, fetch.tags, resolve)
  }

  /** `fetch_page_links`: walks the elements, appending an item for each kept `href`. */
  method FetchPageLinks(page: string, fetch: PageFetch, resolve: (string, string) -> Option<string>)
    returns (items: seq<Link>)
    ensures items == PageLinks(page, fetch, resolve)
  {
    if fetch.FetchRaised? || fetch.status >= 400 {
      return [];
    }
    var tags := fetch.tags;
    items := [];
    for i := 0 to |tags|
      invariant items == Items(page, tags[..i], resolve)
    {
      assert tags[..i + 1][..i] == tags[..i];
      var tag := tags[i];
      assert Items(page, tags[..i + 1], resolve) == items + OptionSeq(LinkOf(page, tag, resolve));
      if tag.href.None? || tag.href.value == [] {
        continue;
      }
      var href := tag.href.value;
      if StartsWith(href, "mailto:") || StartsWith(href, "tel:") || StartsWith(href, "javascript:") || StartsWith(href, "#") {
        continue;
      }
      var full := resolve(page, href);
      if full.None? {
        continue;
      }
      if ShouldSkip(full.value) {
        continue;
      }
      items := items + [Link(page, tag.name, Take(tag.text, 160), full.value)];
    }
    assert tags[..|tags|] == tags;
  }

  // ---------------------------------------------------------------- per-domain gates

  /** An `asyncio.Semaphore`; only its identity and its capacity matter here. */
  class Semaphore {
    const capacity: nat

    constructor(capacity: nat)
      ensures this.capacity == capacity
    {
      this.capacity := capacity;
    }
  }

  /** The shared `domain_locks` dictionary. */
  class DomainLocks {
    var gates: map<string, Semaphore>

    constructor()
      ensures gates == map[]
    {
      gates := map[];
    }

    /** `domain_locks.setdefault(dom, Semaphore(PER_DOMAIN_CONCURRENCY))`. */
    method SetDefault(dom: string) returns (gate: Semaphore)
      modifies this
      ensures dom in old(gates) ==> gates == old(gates) && gate == old(gates)[dom]
      ensures dom !in old(gates) ==> fresh(gate) && gate.capacity == PerDomainConcurrency
                                     && gates == old(gates)[dom := gate]
    {
      if dom in gates {
        gate := gates[dom];
      } else {
        gate := new Semaphore(PerDomainConcurrency);
        gates := gates[dom := gate];
      }
    }
  }

  // ---------------------------------------------------------------- validation

  /** A result dictionary, as written to the CSV. */
  type Row = map<string, Cell>

  /** The dictionary `check_link_strict` returns. */
  function ResultRow(r: AdvancedChecker.CheckResult): (row: Row)
    ensures "status" in row && row["status"] == Str(AdvancedChecker.StatusText(r.status))
    ensures "source_page" !in row && "element" !in row && "anchor_text" !in row
  {
    map["url" := Str(r.url), "final_url" := Str(r.finalUrl),
        "status" := Str(AdvancedChecker.StatusText(r.status)),
        "status_code" := (if r.statusCode.Some? then Int(r.statusCode.value) else Null),
        "reason" := Str(r.reason), "snippet" := Str(r.snippet),
        "localized_rescue" := Bool(r.localizedRescue), "canonical_match" := Bool(r.canonicalMatch),
        "js_recovery" := Bool(r.jsRecovery)]
  }

  /** The minimal error dictionary of `validate_link`. */
  function ErrorRow(url: string, message: string): (row: Row)
    ensures row.Keys == {"url", "status", "status_code", "reason"}
    ensures row["status"] == Str("N/A") && row["status_code"] == Int(0) && row["reason"] == Str(message)
    ensures "source_page" !in row && "element" !in row && "anchor_text" !in row
  {
    map["url" := Str(url), "status" := Str("N/A"), "status_code" := Int(0), "reason" := Str(message)]
  }

  /** A request `validate_link` makes on the URL: it raised with `str(exc)`, or answered. */
  datatype Probe = ProbeRaised(message: string) | ProbeAnswered

  /** The network, as the crawler run sees it. */
  datatype Web = Web(
    fetch: string -> PageFetch,
    resolve: (string, string) -> Option<string>,
    netloc: string -> Option<string>,
    head: string -> Probe,
    get: string -> Probe,
    exchange: string -> AdvancedChecker.Exchange)

  /** HEAD is tried for the project's own host and for local hosts. */
  predicate UsesHead(dom: string) {
    Contains(dom, "kwalee.com") || Contains(dom, "localhost") || Contains(dom, "127.0.0.1")
  }

  /** The message of the TypeError raised by passing `async_resp=` to `check_link_strict`. */
  const AsyncRespError: string := "check_link_strict() got an unexpected keyword argument 'async_resp'"

  /**
   * `validate_link` as written: whichever request answers, the call to `check_link_strict`
   * raises a TypeError, so every link ends in the error dictionary.
   */
  function ValidationAsWritten(url: string, web: Web): (row: Row)
    ensures "status" in row && row["status"] == Str("N/A")
  {
    match web.get(url)
    case ProbeRaised(m) => ErrorRow(url, m)
    case ProbeAnswered => ErrorRow(url, AsyncRespError)
  }

  /**
   * `validate_link` as evidently intended: once HEAD (for the own and local hosts) or GET
   * answers, the link is classified by the strict check; if GET raised, the error dictionary.
   */
  function Validation(url: string, web: Web): (row: Row)
    ensures "status" in row
    ensures "source_page" !in row && "element" !in row && "anchor_text" !in row
  {
    var dom := DomainOf(web.netloc(url));
    if UsesHead(dom) && web.head(url).ProbeAnswered? then ResultRow(AdvancedChecker.Classify(url, web.exchange(url)))
    else match web.get(url)
      case ProbeRaised(m) => ErrorRow(url, m)
      case ProbeAnswered => ResultRow(AdvancedChecker.Classify(url, web.exchange(url)))
  }

  /**
   * A link is reported N/A exactly when no request answered, or when one did and the strict
   * check itself reports N/A.
   */
  lemma ValidationStatus(url: string, web: Web)
    ensures Validation(url, web)["status"] == Str("N/A") <==>
      if (UsesHead(DomainOf(web.netloc(url))) && web.head(url).ProbeAnswered?) || web.get(url).ProbeAnswered?
      then AdvancedChecker.Classify(url, web.exchange(url)).status == AdvancedChecker.NotAvailable
      else true
  {
    var dom := DomainOf(web.netloc(url));
    if (UsesHead(dom) && web.head(url).ProbeAnswered?) || web.get(url).ProbeAnswered? {
      var r := AdvancedChecker.Classify(url, web.exchange(url));
      assert Validation(url, web) == ResultRow(r);
      ResultRowNotAvailable(r);
    }
  }

  lemma ResultRowNotAvailable(r: AdvancedChecker.CheckResult)
    ensures ResultRow(r)["status"] == Str("N/A") <==> r.status == AdvancedChecker.NotAvailable
  {
    AdvancedChecker.StatusTextInjective(r.status, AdvancedChecker.NotAvailable);
  }

  /** A link GET answers with a 404 is reported BROKEN as intended, and N/A as written. */
  lemma AsWrittenHidesBrokenLinks(url: string, web: Web)
    requires web.get(url).ProbeAnswered?
    requires !UsesHead(DomainOf(web.netloc(url)))
    requires web.exchange(url).head.HeadRaised?
    requires web.exchange(url).get.GetReply? && web.exchange(url).get.status == 404
    ensures Validation(url, web)["status"] == Str("BROKEN")
    ensures ValidationAsWritten(url, web)["status"] == Str("N/A")
  {
  }

  /** `validate_link`: takes the domain's gate, creating it on first use, then validates. */
  method ValidateLink(url: string, locks: DomainLocks, web: Web) returns (row: Row)
    modifies locks
    ensures row == Validation(url, web)
    ensures locks.gates.Keys == old(locks.gates.Keys) + {DomainOf(web.netloc(url))}
    ensures forall d :: d in old(locks.gates) ==> locks.gates[d] == old(locks.gates)[d]
  {
    var dom := DomainOf(web.netloc(url));
    var gate := locks.SetDefault(dom);
    row := ValidateUnderGate(url, dom, web);
  }

  /** The requests `validate_link` makes once it holds the gate of `dom`. */
  method ValidateUnderGate(url: string, dom: string, web: Web) returns (row: Row)
    requires dom == DomainOf(web.netloc(url))
    ensures row == Validation(url, web)
  {
    if UsesHead(dom) {
      match web.head(url) {
        case ProbeAnswered =>
          var res := AdvancedChecker.CheckLinkStrict(url, web.exchange(url));
          return ResultRow(res);
        case ProbeRaised(_) =>
      }
    }
    match web.get(url) {
      case ProbeRaised(m) =>
        row := ErrorRow(url, m);
      case ProbeAnswered =>
        var res := AdvancedChecker.CheckLinkStrict(url, web.exchange(url));
        row := ResultRow(res);
    }
  }

  // ---------------------------------------------------------------- the run

  /** One page's items, fetched through the environment. */
  function PageLinksIn(web: Web): string -> seq<Link> {
    (p: string) => PageLinks(p, web.fetch(p), web.resolve)
  }

  /** Every page's items, in page order. */
  function AllPageLinks(pages: seq<string>, web: Web): seq<Link> {
    ConcatMap(pages, PageLinksIn(web))
  }

  lemma AllPageLinksAppend(a: seq<string>, b: seq<string>, web: Web)
    ensures AllPageLinks(a + b, web) == AllPageLinks(a, web) + AllPageLinks(b, web)
  {
    ConcatMapAppend(a, b, PageLinksIn(web));
  }

  lemma AllPageLinksStep(pages: seq<string>, j: nat, web: Web)
    requires j < |pages|
    ensures AllPageLinks(pages[..j + 1], web)
         == AllPageLinks(pages[..j], web) + PageLinks(pages[j], web.fetch(pages[j]), web.resolve)
  {
    ConcatMapStep(pages, j, PageLinksIn(web));
  }

  lemma FlattenStep<T>(xss: seq<seq<T>>, b: nat)
    requires b < |xss|
    ensures Flatten(xss[..b + 1]) == Flatten(xss[..b]) + xss[b]
  {
    assert xss[..b + 1] == xss[..b] + [xss[b]];
    FlattenSnoc(xss[..b], xss[b]);
  }

  /** One extraction wave: the pages of a batch fetched together, their items in page order. */
  method ExtractBatch(batch: seq<string>, web: Web) returns (extracted: seq<Link>)
    ensures extracted == AllPageLinks(batch, web)
  {
    extracted := [];
    for j := 0 to |batch|
      invariant extracted == AllPageLinks(batch[..j], web)
    {
      var sub := FetchPageLinks(batch[j], web.fetch(batch[j]), web.resolve);
      AllPageLinksStep(batch, j, web);
      extracted := extracted + sub;
    }
    assert batch[..|batch|] == batch;
  }

  /** The extraction waves: each batch of pages in turn, their items appended in page order. */
  method ExtractAll(pages: seq<string>, web: Web) returns (extracted: seq<Link>)
    ensures extracted == AllPageLinks(pages, web)
  {
    var batches := Batches(pages, BatchSize);
    BatchesCover(pages, BatchSize);
    extracted := [];
    for b := 0 to |batches|
      invariant extracted == AllPageLinks(Flatten(batches[..b]), web)
    {
      var sub := ExtractBatch(batches[b], web);
      FlattenStep(batches, b);
      AllPageLinksAppend(Flatten(batches[..b]), batches[b], web);
      extracted := extracted + sub;
    }
    assert batches[..|batches|] == batches;
  }

  /** The de-duplication key: the URL without trailing slashes. */
  function UrlKey(l: Link): (k: string)
    ensures |k| <= |l.url| && k == l.url[..|k|]
    ensures k == [] || k[|k| - 1] != '/'
    ensures forall i :: |k| <= i < |l.url| ==> l.url[i] == '/'
  {
    TrimRightChar(l.url, '/')
  }

  /**
   * The `normalized` dictionary loop: the first item of each non-empty key, in first-seen
   * order. Skipping empty keys is starting with the empty key already seen.
   */
  method DedupLinks(extracted: seq<Link>, urlKey: Link -> string) returns (allLinks: seq<Link>)
    ensures allLinks == Firsts(extracted, urlKey, {""})
  {
    var normalized: Dict<string, Link> := Empty();
    for i := 0 to |extracted|
      invariant DedupInv(normalized, extracted[..i], urlKey)
    {
      var l := extracted[i];
      var key := urlKey(l);
      assert extracted[..i + 1] == extracted[..i] + [l];
      if key == [] {
        DedupSkip(normalized, extracted[..i], l, urlKey);
        continue;
      }
      if key !in normalized.vals {
        DedupAdd(normalized, extracted[..i], l, urlKey);
        normalized := Put(normalized, key, l);
      } else {
        DedupSkip(normalized, extracted[..i], l, urlKey);
      }
    }
    assert extracted[..|extracted|] == extracted;
    ValuesKeyedBy(normalized, Firsts(extracted, urlKey, {""}), urlKey);
    allLinks := Values(normalized);
  }

  /** The `normalized` dictionary after the items of `seen`: their first items, by non-empty key. */
  ghost predicate DedupInv(normalized: Dict<string, Link>, seen: seq<Link>, urlKey: Link -> string) {
    && normalized.vals.Keys == KeysOf(seen, urlKey) - {""}
    && KeyedBy(normalized, Firsts(seen, urlKey, {""}), urlKey)
  }

  /** An item with an empty or already stored key leaves the dictionary as it was. */
  lemma DedupSkip(normalized: Dict<string, Link>, seen: seq<Link>, l: Link, urlKey: Link -> string)
    requires DedupInv(normalized, seen, urlKey)
    requires urlKey(l) == [] || urlKey(l) in normalized.vals
    ensures DedupInv(normalized, seen + [l], urlKey)
  {
    FirstsSnoc(seen, l, urlKey, {""});
    KeysOfSnoc(seen, l, urlKey);
    assert urlKey(l) in {""} || urlKey(l) in KeysOf(seen, urlKey);
  }

  /** An item with a new non-empty key is stored under it, after the items stored before. */
  lemma DedupAdd(normalized: Dict<string, Link>, seen: seq<Link>, l: Link, urlKey: Link -> string)
    requires DedupInv(normalized, seen, urlKey)
    requires urlKey(l) != [] && urlKey(l) !in normalized.vals
    ensures DedupInv(Put(normalized, urlKey(l), l), seen + [l], urlKey)
  {
    FirstsSnoc(seen, l, urlKey, {""});
    KeysOfSnoc(seen, l, urlKey);
    assert urlKey(l) !in {""} && urlKey(l) !in KeysOf(seen, urlKey);
    KeyedByPut(normalized, Firsts(seen, urlKey, {""}), l, urlKey);
  }

  /** De-duplicated links have pairwise distinct URLs, so counting their URLs counts them. */
  lemma DedupUrlsDistinct(extracted: seq<Link>)
    ensures var links := Firsts(extracted, UrlKey, {""});
      forall i, j :: 0 <= i < j < |links| ==> links[i].url != links[j].url
  {
    FirstsDistinct(extracted, UrlKey, {""});
  }

  /** The number of distinct URLs among de-duplicated links is their number. */
  lemma {:induction false} DistinctUrlCount(links: seq<Link>)
    requires forall i, j :: 0 <= i < j < |links| ==> links[i].url != links[j].url
    ensures |set l | l in links :: l.url| == |links|
    decreases |links|
  {
    if links != [] {
      var p := links[..|links| - 1];
      var x := links[|links| - 1];
      DistinctUrlCount(p);
      assert (set l | l in links :: l.url) == (set l | l in p :: l.url) + {x.url};
      assert x.url !in (set l | l in p :: l.url);
    }
  }

  /** `[f(l) for l in links]`. */
  function MapLinks<R>(links: seq<Link>, f: Link -> R): (r: seq<R>)
    ensures |r| == |links|
    ensures forall i :: 0 <= i < |links| ==> r[i] == f(links[i])
  {
    seq(|links|, i requires 0 <= i < |links| => f(links[i]))
  }

  lemma MapLinksStep<R>(links: seq<Link>, j: nat, f: Link -> R)
    requires j < |links|
    ensures MapLinks(links[..j + 1], f) == MapLinks(links[..j], f) + [f(links[j])]
  {
  }

  lemma MapLinksAppend<R>(a: seq<Link>, b: seq<Link>, f: Link -> R)
    ensures MapLinks(a + b, f) == MapLinks(a, f) + MapLinks(b, f)
  {
    var l, r := MapLinks(a + b, f), MapLinks(a, f) + MapLinks(b, f);
    forall i | 0 <= i < |l| ensures l[i] == r[i] {
      if i >= |a| { assert (a + b)[i] == b[i - |a|]; }
    }
  }

  lemma KeysOfAppend<K(!new)>(a: seq<Link>, b: seq<Link>, key: Link -> K)
    ensures KeysOf(a + b, key) == KeysOf(a, key) + KeysOf(b, key)
  {
    forall k | k in KeysOf(a + b, key) ensures k in KeysOf(a, key) + KeysOf(b, key) {
      var i :| 0 <= i < |a + b| && key((a + b)[i]) == k;
      if i >= |a| { assert key(b[i - |a|]) == k; }
    }
    forall k | k in KeysOf(a, key) ensures k in KeysOf(a + b, key) {
      var i :| 0 <= i < |a| && key(a[i]) == k;
      assert key((a + b)[i]) == k;
    }
    forall k | k in KeysOf(b, key) ensures k in KeysOf(a + b, key) {
      var i :| 0 <= i < |b| && key(b[i]) == k;
      assert key((a + b)[|a| + i]) == k;
    }
  }

  function ValidationOf(web: Web): Link -> Row {
    (l: Link) => Validation(l.url, web)
  }

  function DomainOfLink(web: Web): Link -> string {
    (l: Link) => DomainOf(web.netloc(l.url))
  }

  /** The validation results, one per link, in link order. */
  function Validations(links: seq<Link>, web: Web): seq<Row> {
    MapLinks(links, ValidationOf(web))
  }

  /** The domains of the links' URLs. */
  function DomainsOf(links: seq<Link>, web: Web): set<string> {
    KeysOf(links, DomainOfLink(web))
  }

  /**
   * One validation wave: each link of the chunk validated under the shared gate map, which
   * gains the gates of the chunk's domains and keeps the gates it had.
   */
  method ValidateBatch(chunk: seq<Link>, locks: DomainLocks, web: Web) returns (results: seq<Row>)
    modifies locks
    ensures results == Validations(chunk, web)
    ensures locks.gates.Keys == old(locks.gates.Keys) + DomainsOf(chunk, web)
  {
    results := [];
    for j := 0 to |chunk|
      invariant results == Validations(chunk[..j], web)
      invariant locks.gates.Keys == old(locks.gates.Keys) + DomainsOf(chunk[..j], web)
    {
      var r := ValidateLink(chunk[j].url, locks, web);
      MapLinksStep(chunk, j, ValidationOf(web));
      FirstsStep(chunk, j, DomainOfLink(web), {});
      results := results + [r];
    }
    assert chunk[..|chunk|] == chunk;
  }

  /**
   * The validation waves over the links, batch by batch, under one fresh gate map: every
   * result is kept (none is falsy), and the map ends with one gate per domain met.
   */
  method ValidateAll(allLinks: seq<Link>, web: Web) returns (results: seq<Row>, locks: DomainLocks)
    ensures results == Validations(allLinks, web)
    ensures locks.gates.Keys == DomainsOf(allLinks, web)
  {
    locks := new DomainLocks();
    results := [];
    var batches := Batches(allLinks, BatchSize);
    BatchesCover(allLinks, BatchSize);
    for b := 0 to |batches|
      invariant results == Validations(Flatten(batches[..b]), web)
      invariant locks.gates.Keys == DomainsOf(Flatten(batches[..b]), web)
    {
      var rs := ValidateBatch(batches[b], locks, web);
      FlattenStep(batches, b);
      MapLinksAppend(Flatten(batches[..b]), batches[b], ValidationOf(web));
      KeysOfAppend(Flatten(batches[..b]), batches[b], DomainOfLink(web));
      results := results + rs;
    }
    assert batches[..|batches|] == batches;
  }

  /** `[r for r in results if r and r.get("status") == "BROKEN"]`. */
  function BrokenOf(results: seq<Row>): (broken: seq<Row>)
    ensures |broken| <= |results|
    ensures forall r :: r in broken <==> r in results && "status" in r && r["status"] == Str("BROKEN")
    decreases |results|
  {
    if results == [] then []
    else
      var p := BrokenOf(results[..|results| - 1]);
      var r := results[|results| - 1];
      assert forall x :: x in results <==> x in results[..|results| - 1] || x == r;
      if "status" in r && r["status"] == Str("BROKEN") then p + [r] else p
  }

  /** The CSV columns, in sorted order. */
  const Fields: seq<string> := [
    "anchor_text", "canonical_match", "element", "final_url", "js_recovery", "localized_rescue",
    "reason", "snippet", "source_page", "status", "status_code", "url"
  ]

  /** `safe_write_csv`'s row: every field, a missing or `None` value written as "". */
  function CsvRow(r: Row, fields: seq<string>): (out: Row)
    ensures out.Keys == set k | k in fields
    ensures forall k :: k in out ==> out[k] != Null
    ensures forall k :: k in out && k in r && r[k] != Null ==> out[k] == r[k]
    ensures forall k :: k in out && (k !in r || r[k] == Null) ==> out[k] == Str("")
  {
    map k | k in fields :: if k in r && r[k] != Null then r[k] else Str("")
  }

  /** Validation results do not carry where a link was found: those columns are always blank. */
  lemma SourceColumnsBlank(url: string, web: Web)
    ensures var out := CsvRow(Validation(url, web), Fields);
      && "source_page" in out && out["source_page"] == Str("")
      && "element" in out && out["element"] == Str("")
      && "anchor_text" in out && out["anchor_text"] == Str("")
  {
    var row := Validation(url, web);
    BlankWhenAbsent(row, "source_page");
    BlankWhenAbsent(row, "element");
    BlankWhenAbsent(row, "anchor_text");
  }

  lemma BlankWhenAbsent(r: Row, k: string)
    requires k in {"source_page", "element", "anchor_text"} && k !in r
    ensures k in CsvRow(r, Fields) && CsvRow(r, Fields)[k] == Str("")
  {
    assert Fields[0] == "anchor_text" && Fields[2] == "element" && Fields[8] == "source_page";
  }

  function CsvRows(rows: seq<Row>): (out: seq<Row>)
    ensures |out| == |rows|
    ensures forall i :: 0 <= i < |rows| ==> out[i] == CsvRow(rows[i], Fields)
  {
    seq(|rows|, i requires 0 <= i < |rows| => CsvRow(rows[i], Fields))
  }

  /**
   * `run_checker_async`: returns the broken results, the de-duplicated link candidates and
   * the rows written to both CSV files.
   */
  method RunChecker(pages: seq<string>, web: Web) returns (broken: seq<Row>, allLinks: seq<Link>, written: seq<Row>)
    ensures allLinks == Firsts(AllPageLinks(pages, web), UrlKey, {""})
    ensures broken == BrokenOf(Validations(allLinks, web))
    ensures written == CsvRows(broken)
  {
    var extracted := ExtractAll(pages, web);
    allLinks := DedupLinks(extracted, UrlKey);
    var results, locks := ValidateAll(allLinks, web);
    broken := BrokenOf(results);
    written := CsvRows(broken);
  }

  /** As written, no link is ever reported broken: every validation ends in N/A. */
  lemma {:induction false} AsWrittenNothingBroken(links: seq<Link>, web: Web)
    ensures BrokenOf(ValidationsAsWritten(links, web)) == []
    decreases |links|
  {
    if links != [] {
      AsWrittenNothingBroken(links[..|links| - 1], web);
    }
  }

  function ValidationsAsWritten(links: seq<Link>, web: Web): (rows: seq<Row>)
    ensures |rows| == |links|
    ensures forall i :: 0 <= i < |rows| ==> rows[i] == ValidationAsWritten(links[i].url, web)
    decreases |links|
  {
    if links == [] then []
    else ValidationsAsWritten(links[..|links| - 1], web) + [ValidationAsWritten(links[|links| - 1].url, web)]
  }
}
