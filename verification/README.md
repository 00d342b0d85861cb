# NetRunner link crawler — a Dafny model

NetRunner crawls a site locale by locale. Each locale has a URL list. The crawler:

- fetches those pages and extracts their link candidates;
- de-duplicates the links;
- validates each one with a strict checker (HEAD, then GET, soft-404 text heuristics, and a locale-less fallback rescue);
- writes the broken links and a per-locale summary to CSV;
- rolls the summaries up into a metrics document.

Side programs keep the locale configuration (built-in table, `data/locales.json`, the site's language switcher) and normalise old summary files.

This project models the decision logic and data shaping of that core, one Dafny module per source file:

| module | file | form |
|---|---|---|
| `Dedup` | `dedup.dfy` | `normalize_url` as a function; `remove_duplicate_urls` as a loop with its `seen` set |
| `Checker` | `checker.dfy` | `should_skip`, `fetch_page_links`, `validate_link` with the shared `domain_locks` map as a class, the extraction, de-duplication, validation and broken-filter loops of `run_checker_async`, and `safe_write_csv`'s row projection |
| `AdvancedChecker` | `advanced_link_checker.dfy` | the async `check_link_strict`: a method that updates its result record step by step, proved equal to a classification function; `_is_soft_404`, `_analyze_html`, `LOCALE_RE` |
| `LinkValidator` | `link_validator.dfy` | the sync `check_link_strict` with its TTL result cache (a class over a map, with the clock as a parameter), `normalize_url`, `looks_like_error` |
| `Orchestrator` | `main_orchestrator.dfy` | `find_locale_csvs`, `check_locale_homepage`, `compute_metrics`, `process_locale_worker`, the locale selection and results loop of `main` |
| `SummarySchema` | `summary_schema.dfy` | `reconcile_csv_schema` over a data frame class |
| `LocaleLoader` | `locale_loader.dfy` | `load_locales_config` and `resolved_enabled_locales` over JSON values |
| `MetricsBuilder` | `metrics_builder.dfy` | `_gather_locale_summaries` and the rollup loop of `build_metrics` |
| `LocaleUpdater` | `locale_updater.dfy` | the anchor loop of `fetch_language_switcher` and the output of `run` |

Shared modules:

- `Text` (`text.dfy`): the Python string operations used, over ASCII case.
- `PyDict`, `Sorting`, `FirstByKey` (`collections.dfy`): insertion-ordered dictionaries, `sorted` by a string key, and "first item per key".
- `Batching` (`batching.dfy`): `s[i:i + size]` for `i` in `range(0, len(s), size)`.
- `Wrappers` (`wrappers.dfy`): `Option` and result-dictionary cells.

Every network exchange is an input:

- a record of what HEAD, GET, the 403 retry or the fallback HEAD answered, or that it raised;
- HTML parsing results (`Tag`, `PageView`);
- `urljoin`, `urlparse(...).netloc` and the renderer are function-typed fields of those inputs. `urlparse(url).scheme` in `normalize_url` is modelled directly (`LinkValidator.HasScheme`).

Where the code as written cannot do what it evidently means to, the model keeps both: a member for the code as written, a lemma showing the difference, and the corrected member that the rest of the model uses (see "## Findings").

## Model

| member | source | states |
|---|---|---|
| Text.Lower | src/utils/dedup.py:16 | `s.lower()`: same length, each ASCII capital lowered, every other character kept |
| Text.Strip | src/utils/dedup.py:16 | `s.strip()`: the piece of `s` after its leading whitespace, neither starting nor ending with whitespace, with only whitespace cut from either end |
| Text.StripLenIsStrip | src/validators/link_validator.py:45 | the length counted by the recursive strip measure is the length of the stripped text |
| Text.TrimRightChar | src/validators/link_validator.py:67 | `s.rstrip(c)`: a prefix of `s` not ending in `c`, and everything removed was `c` |
| Text.CutAt | src/checker.py:131 | `s.split(c)[0]`: the prefix before the first `c`, holding no `c`, and followed by `c` when shorter than `s` |
| Text.LastPiece | src/main.py:42 | `s.split(p)[-1]`: a suffix of `s` holding no `p`; unless it is all of `s`, an occurrence of `p` ends right where it starts |
| Text.SplitJoin | src/main.py:188 | joining the pieces of `s.split(c)` with `c` gives back `s` |
| Text.Take | src/checker.py:177 | `s[:n]`: the first `min(n, len(s))` characters |
| Text.NatToStringRoundTrip | src/main.py:148 | the decimal text of a count parses back to that count |
| Text.LessEqTotal | src/main.py:44 | Python string order is total |
| Text.LessEqTransitive | src/main.py:44 | Python string order is transitive |
| Text.LessEqAntisymmetric | src/main.py:44 | Python string order is antisymmetric |
| PyDict.Put | src/checker.py:313 | `d[k] = v`: the value is replaced; a new key goes last, an existing key keeps its place; keys stay distinct |
| PyDict.Get | src/locales/loader.py:34 | `d.get(k, default)`: the stored value when present, else the default |
| PyDict.Values | src/checker.py:314 | `list(d.values())`: one value per key, in key order |
| PyDict.ValuesKeyedBy | src/checker.py:314 | a dictionary built from items in order, keyed by their keys, lists exactly those items |
| PyDict.KeyedByPut | src/checker.py:312-313 | storing an item under its new key extends the items the dictionary is keyed by |
| PyDict.PutAllKey | src/main.py:209 | after assigning each kept item under its key, a key is present exactly when some kept item has it |
| PyDict.PutAllValue | src/main.py:209 | the value under a key is the one of the last kept item with that key |
| PyDict.PutAllLastWins | src/main.py:205-213 | the keys are those of the kept items and each holds the value of the last item with it |
| Sorting.Insert | src/main.py:44 | inserting into a sorted list keeps it sorted and adds exactly the item |
| Sorting.SortBy | src/main.py:44 | `sorted(xs, key=...)`: ordered by the key and a permutation of the input |
| Sorting.SortStrings | src/locales/loader.py:71 | `sorted(xs)`: ordered and a permutation of the input |
| FirstByKey.KeysOf | src/utils/dedup.py:29-34 | the set of keys of the items seen |
| FirstByKey.FirstIndices | src/utils/dedup.py:31-35 | the kept positions are in range and strictly increasing |
| FirstByKey.FirstsSelect | src/utils/dedup.py:31-35 | the kept items are the input items at first-occurrence positions, in input order |
| FirstByKey.FirstsKeys | src/utils/dedup.py:31-35 | the kept keys are the input's keys except those already seen |
| FirstByKey.FirstsDistinct | src/utils/dedup.py:31-35 | no two kept items share a key |
| FirstByKey.FirstsOfDistinct | src/utils/dedup.py:31-35 | an input with distinct, unseen keys is kept whole |
| FirstByKey.FirstsIdempotent | src/utils/dedup.py:24-36 | keeping firsts a second time changes nothing |
| FirstByKey.FirstsStep | src/utils/dedup.py:31-35 | one more item is kept exactly when its key is new |
| Batching.Batches | src/checker.py:297-298 | the slices are non-empty, at most `size` long, and all but the last exactly `size` |
| Batching.BatchesCover | src/checker.py:297-302 | the batches, concatenated in order, are the whole list |
| Batching.BatchCount | src/checker.py:326 | there are `ceil(len / size)` batches |
| Batching.BatchIsSlice | src/checker.py:327-328 | batch `b` is `s[b * size : b * size + size]` |
| Batching.ConcatMapAppend | src/checker.py:301-302 | extending the result page by page: the results of two lists, concatenated, are those of the joined list |
| Batching.CeilSteps | src/checker.py:326 | the ceiling count is 0 for none, 1 up to `size`, and one more per `size` |
| Dedup.CutToEndWithoutBreaks | src/utils/dedup.py:17-18 | on text without line breaks, `re.sub(c + ".*$", "", s)` cuts at the first `c` |
| Dedup.CutToEnd | src/utils/dedup.py:17-18 | `re.sub(c + ".*$", "", s)` keeps only characters of the text and never lengthens it |
| Dedup.NormalizeUrl | src/utils/dedup.py:9-21 | for every URL, line breaks included, the key is no longer than the URL and holds no capital |
| Dedup.NormalizeUrlShape | src/utils/dedup.py:9-21 | for a URL without line breaks the key is the stripped, lower-cased text before the first `#`, then before the first `?`, less one trailing `/`; it holds no `#`, `?` or capital and does not start with whitespace |
| Dedup.CutStages | src/utils/dedup.py:17-18 | the fragment is cut first, then the query; what is left is a prefix of the text |
| Dedup.OneSlashRemoved | src/utils/dedup.py:19-20 | only one trailing `/` goes: `x//` keeps one |
| Dedup.SpaceBeforeFragmentSurvives | src/utils/dedup.py:16-17 | whitespace before a fragment stays in the key, because stripping happens before the cut |
| Dedup.RemoveDuplicateUrls | src/utils/dedup.py:24-36 | returns the first original URL of each normalised key, in input order |
| Dedup.KeepFirsts | src/utils/dedup.py:29-35 | the `seen`/`unique` loop computes the first item per key |
| Dedup.RemoveDuplicateUrlsKeys | src/utils/dedup.py:31-35 | the kept URLs have pairwise distinct keys, and every input's key is the key of a kept URL |
| Dedup.RemoveDuplicateUrlsFirsts | src/utils/dedup.py:33-35 | the kept URLs are the input URLs at first-occurrence positions, in order: a subsequence of the original strings |
| Dedup.RemoveDuplicateUrlsIdempotent | src/utils/dedup.py:24-36 | de-duplicating the output again returns it unchanged |
| Checker.DomainOf | src/checker.py:121-125 | the netloc lower-cased, character by character, so it holds no capital; `unknown` when parsing raised |
| Checker.DomainOfIgnoresCase | src/checker.py:121-125 | two netlocs differing only in case share a domain; a netloc reading `unknown` shares the gate of the URLs that did not parse |
| Checker.ShouldSkip | src/checker.py:128-137 | the empty URL is skipped; a non-empty URL whose inspected part is empty is not |
| Checker.SkipView | src/checker.py:131 | the inspected part holds no `?`, `#` or capital |
| Checker.QueryIsIgnored | src/checker.py:128-137 | appending a query string never changes the skip decision |
| Checker.CaseIsIgnored | src/checker.py:131 | a URL is skipped exactly when its lower-cased form is |
| Checker.StaticExtensionIsSkipped | src/checker.py:131-134 | a URL ending in a `SKIP_EXT` suffix, with no query or fragment, is skipped |
| Checker.SkipExtPlain | src/checker.py:101-115 | the suffixes are lower-case and hold no `?` or `#` |
| Checker.EmptyIsSkipped | src/checker.py:129-130 | the empty URL is skipped |
| Checker.LinkOf | src/checker.py:162-179 | an element yields an item exactly when its href is non-empty, has none of the excluded prefixes (case-sensitive), resolves, and is not skipped; the item records the page, tag name, text cut to 160, and resolved URL |
| Checker.ExtractFrom | src/checker.py:160-179 | at most one item per element; every item comes from an element, its URL not skipped and its text at most 160 long; every element that yields an item has its item in the result |
| Checker.ItemsSoundComplete | src/checker.py:160-179 | the element loop's items are exactly those the elements yield, at most one each |
| Checker.ItemsAppend | src/checker.py:160-179 | the items of two element lists, concatenated, are those of the joined list |
| Checker.ExtractFromInOrder | src/checker.py:160-179 | items come in element order: those of the elements before an element, then its own, then those after |
| Checker.PageLinks | src/checker.py:152-188 | an error status or a raised fetch gives no items |
| Checker.FetchPageLinks | src/checker.py:147-188 | the element loop returns exactly the items of the page |
| Checker.Semaphore.constructor | src/checker.py:203 | a new gate has the per-domain capacity |
| Checker.DomainLocks.constructor | src/checker.py:318 | the gate map starts empty |
| Checker.DomainLocks.SetDefault | src/checker.py:203 | a domain already present keeps its gate and nothing changes; a new domain gets a fresh gate of capacity 8, added to the map and touching no other entry |
| Checker.ResultRow | src/validators/advanced_link_checker.py:83-88 | the result dictionary carries the status text and no source columns |
| Checker.ErrorRow | src/checker.py:246 | the error dictionary has status `N/A`, code 0 and the exception text |
| Checker.ValidationAsWritten | src/checker.py:207-248 | as written every link ends in `N/A` |
| Checker.Validation | src/checker.py:207-248 | the intended result always carries a status and no source columns |
| Checker.ValidationStatus | src/checker.py:207-248 | a link is `N/A` exactly when no request answered, or one did and the strict check says `N/A` |
| Checker.ResultRowNotAvailable | src/validators/advanced_link_checker.py:151-153 | a result row reads `N/A` exactly when the strict check's status is N/A |
| Checker.AsWrittenHidesBrokenLinks | src/checker.py:229-230 | a link GET answers with 404 is `BROKEN` as intended and `N/A` as written |
| Checker.ValidateLink | src/checker.py:194-248 | the row is the link's validation; the gate map gains the link's domain and keeps its old gates |
| Checker.ValidateUnderGate | src/checker.py:206-248 | the HEAD-then-GET requests give the link's validation |
| Checker.AllPageLinksAppend | src/checker.py:294-303 | the items of two page lists, concatenated, are those of the joined list |
| Checker.AllPageLinksStep | src/checker.py:301-302 | one more page appends that page's items |
| Checker.FlattenStep | src/checker.py:297-298 | one more batch appends that batch's items |
| Checker.ExtractBatch | src/checker.py:298-302 | a batch's items are its pages' items, in page order |
| Checker.ExtractAll | src/checker.py:293-303 | batch by batch, the extracted items are all pages' items, in page order |
| Checker.DedupLinks | src/checker.py:305-314 | `normalized`'s values are the first item of each non-empty key, in first-seen order |
| Checker.UrlKey | src/checker.py:308 | `(url or "").rstrip("/")`: a prefix of the URL not ending in `/`, everything cut being `/` |
| Checker.DedupSkip | src/checker.py:308-312 | an item with an empty or known key leaves the dictionary as it was |
| Checker.DedupAdd | src/checker.py:312-313 | an item with a new non-empty key is stored under it, after earlier items |
| Checker.DedupUrlsDistinct | src/checker.py:305-314 | the de-duplicated links have pairwise distinct URLs |
| Checker.DistinctUrlCount | src/main.py:141 | links with distinct URLs have as many URLs as links |
| Checker.KeysOfAppend | src/checker.py:327-328 | the domains of two link lists together are those of the joined list |
| Checker.MapLinks | src/checker.py:319 | one result per link, in link order |
| Checker.MapLinksAppend | src/checker.py:327-348 | the results of two chunks, concatenated, are those of the joined chunks |
| Checker.ValidateBatch | src/checker.py:328-348 | a chunk's rows are its links' validations, in order; the gate map gains the chunk's domains |
| Checker.ValidateAll | src/checker.py:318-349 | batch by batch, the rows are all links' validations in order, and the map ends with one gate per domain met |
| Checker.BrokenOf | src/checker.py:352 | `broken` holds exactly the results with status `BROKEN`, so it is within `results` |
| Checker.CsvRow | src/checker.py:261 | each row has every field; a missing or `None` value is written as `""`; other values are kept |
| Checker.SourceColumnsBlank | src/checker.py:360-377 | validation results carry no source page, element or anchor text, so those CSV columns are blank |
| Checker.BlankWhenAbsent | src/checker.py:261 | a source column missing from a result is written blank |
| Checker.CsvRows | src/checker.py:260-262 | one CSV row per broken result, in order |
| Checker.RunChecker | src/checker.py:270-380 | `all_links` is the first item per non-empty key of all pages' items; `broken` is the broken validations of those links; the broken-links CSV receives one row per broken result |
| Checker.AsWrittenNothingBroken | src/checker.py:352 | as written, `broken` is always empty |
| Checker.ValidationsAsWritten | src/checker.py:319-348 | as written, one `N/A` row per link |
| AdvancedChecker.LongTextSoftIffPattern | src/validators/advanced_link_checker.py:57-63 | longer text is soft exactly when an error pattern occurs in its lower-cased form |
| AdvancedChecker.EmbeddedFourOhFourIsNotAWord | src/validators/advanced_link_checker.py:33 | for any text, `404` with a word character on either side is not a `\b404\b` match at that place |
| AdvancedChecker.FourOhFourAloneMatches | src/validators/advanced_link_checker.py:33 | `404` between non-word characters or the ends of the text is a match, so the text matches an error pattern |
| AdvancedChecker.Word404Occurs | src/validators/advanced_link_checker.py:33 | a `\b404\b` match is an occurrence of `404` |
| AdvancedChecker.FourOhFourExamples | src/validators/advanced_link_checker.py:33 | `x404` and `4040` do not match; `e 404.` does |
| AdvancedChecker.MatchesErrorPattern | src/validators/advanced_link_checker.py:32-36 | every literal phrase matches wherever it occurs; nothing matches unless a phrase or `404` occurs |
| AdvancedChecker.IsSoft404 | src/validators/advanced_link_checker.py:57-63 | empty text is never soft; non-empty text under 200 characters always is; non-empty text holding an error pattern always is |
| AdvancedChecker.AnalyzeHtml | src/validators/advanced_link_checker.py:66-78 | the snippet is the text if at most 400 long, else its first 400 plus `...`; soft is the soft-404 test on the title, a space and the text capped at 5000 |
| AdvancedChecker.EmptyPageIsSoft | src/validators/advanced_link_checker.py:77 | a page with no text and a short title is soft |
| AdvancedChecker.FindLocaleSegmentFrom | src/validators/advanced_link_checker.py:38 | the leftmost `/xx-yy/` segment from a position, or none |
| AdvancedChecker.LocaleFallbackUrl | src/validators/advanced_link_checker.py:130-131 | a rewrite is six characters shorter |
| AdvancedChecker.LocaleFallbackShape | src/validators/advanced_link_checker.py:129-131 | a rewrite exists exactly when some `/xx-yy/` occurs, and replaces the leftmost one by `/` |
| AdvancedChecker.LeadingLocaleIsDropped | src/validators/advanced_link_checker.py:129-131 | a path starting with `/xx-yy/` loses exactly that segment |
| AdvancedChecker.NoDashNoFallback | src/validators/advanced_link_checker.py:38 | a URL without `-` is never rewritten |
| AdvancedChecker.LocaleFallbackExample | src/validators/advanced_link_checker.py:38 | `/de-de/` is rewritten to `/`; `/de/` is not rewritten |
| AdvancedChecker.StatusText | src/validators/advanced_link_checker.py:85 | only the initial status is written `UNKNOWN` |
| AdvancedChecker.StatusTextInjective | src/validators/advanced_link_checker.py:85-152 | distinct statuses are written differently |
| AdvancedChecker.Initial | src/validators/advanced_link_checker.py:83-88 | the initial record is `UNKNOWN`, with no code and final URL equal to the URL |
| AdvancedChecker.CanonicalMatch | src/validators/advanced_link_checker.py:118-119 | intended: true exactly when the canonical link equals the response URL |
| AdvancedChecker.CanonicalMatchAsWritten | src/validators/advanced_link_checker.py:118 | as written: never true |
| AdvancedChecker.CanonicalNeverMatchesAsWritten | src/validators/advanced_link_checker.py:118-119 | a canonical equal to the response URL matches as intended and not as written |
| AdvancedChecker.Classify | src/validators/advanced_link_checker.py:82-153 | the result keeps the checked URL |
| AdvancedChecker.PageVerdict | src/validators/advanced_link_checker.py:105-149 | after GET, the code and final URL are GET's |
| AdvancedChecker.AnalysedVerdict | src/validators/advanced_link_checker.py:117-149 | the analysis never changes the URL, code or final URL |
| AdvancedChecker.ClassifyOutcomes | src/validators/advanced_link_checker.py:82-153 | never `UNKNOWN`. HEAD under 400 gives OK with no body analysis. A raised GET gives N/A, code 0. GET 404, 410 or 500+ gives BROKEN with its snippet. A soft page gives SOFT_404 before any fallback. The locale rescue happens exactly on a clean page whose fallback HEAD answers exactly 200, and keeps the final URL |
| AdvancedChecker.CheckLinkStrict | src/validators/advanced_link_checker.py:82-153 | updating the record step by step computes the classification |
| AdvancedChecker.CheckPage | src/validators/advanced_link_checker.py:105-149 | the steps after GET compute the page verdict |
| AdvancedChecker.CheckAnalysed | src/validators/advanced_link_checker.py:117-149 | the canonical, soft and fallback steps compute the analysed verdict |
| LinkValidator.NormalizeUrl | src/validators/link_validator.py:61-67 | the normalised URL never ends in `/`; the scheme test reads the URL as `urlsplit` does (LinkValidator.TabInsideSchemeIsIgnored) |
| LinkValidator.TrimLeftC0 | src/validators/link_validator.py:65 | `urlsplit`'s `lstrip` of C0 controls and space: a suffix of the URL not starting with one |
| LinkValidator.RemoveUnsafeOnlyDeletes | src/validators/link_validator.py:65 | removing tab, CR and LF keeps only characters of the URL other than those |
| LinkValidator.TabIsDeleted | src/validators/link_validator.py:65 | a tab inside a URL is removed before the scheme is read |
| LinkValidator.TabInsideSchemeIsIgnored | src/validators/link_validator.py:61-67 | a tab inside a URL with a scheme does not make `normalize_url` add `https://` |
| LinkValidator.FrontOfExtension | src/validators/link_validator.py:65 | a scheme read from `v + t`, where `t` holds no `:`, is read from `v` already |
| LinkValidator.HttpsColonHasScheme | src/validators/link_validator.py:64 | `https:` + anything has a scheme |
| LinkValidator.Complete | src/validators/link_validator.py:63-67 | the completed URL never ends in `/` |
| LinkValidator.NormalizedHasScheme | src/validators/link_validator.py:61-67 | every normalised URL has a scheme |
| LinkValidator.TrimKeepsScheme | src/validators/link_validator.py:65-67 | dropping trailing slashes keeps a scheme |
| LinkValidator.HttpsHasScheme | src/validators/link_validator.py:66 | `https://` + anything has a scheme |
| LinkValidator.NoColonNoScheme | src/validators/link_validator.py:65 | text without `:` has no scheme |
| LinkValidator.TrimOneSlash | src/validators/link_validator.py:67 | one trailing `/` is all `rstrip` removes from text not ending in `/` |
| LinkValidator.NormalizeProtocolRelative | src/validators/link_validator.py:61-67 | `//host/` becomes `https://host` |
| LinkValidator.CompleteDoubleSlash | src/validators/link_validator.py:63-64 | a `//` URL is prefixed with `https:` and keeps that scheme |
| LinkValidator.NormalizeSchemeless | src/validators/link_validator.py:61-67 | `host/` becomes `https://host` |
| LinkValidator.ShortBodyLooksLikeError | src/validators/link_validator.py:43-46 | a body under 500 characters once lower-cased and stripped looks like an error |
| LinkValidator.LongBodyErrorIffPhrase | src/validators/link_validator.py:43-50 | a longer body looks like an error exactly when a pattern is a substring of its lower-cased form |
| LinkValidator.LooksLikeError | src/validators/link_validator.py:43-50 | a phrase in the lower-cased body always makes it look like an error; a body that does not look like one is at least 500 characters long |
| LinkValidator.Lookup | src/validators/link_validator.py:24-30 | `None` for a missing key or an entry older than the time-to-live; otherwise the stored value |
| LinkValidator.SetThenGet | src/validators/link_validator.py:24-34 | a stored value reads back until its time-to-live has passed, and not after |
| LinkValidator.SetLeavesOtherKeys | src/validators/link_validator.py:31-34 | storing under one key leaves every other key's answer unchanged |
| LinkValidator.ExpiryIsPermanent | src/validators/link_validator.py:28-29 | an expired entry stays expired |
| LinkValidator.Cache.constructor | src/validators/link_validator.py:21-23 | the cache holds the rows earlier runs stored in the file (none for a new file) |
| LinkValidator.Cache.Get | src/validators/link_validator.py:24-30 | answers the lookup of the current rows |
| LinkValidator.Cache.Set | src/validators/link_validator.py:31-34 | replaces the key's row, stamped with the current time; other rows unchanged |
| LinkValidator.BodyVerdict | src/validators/link_validator.py:139-157 | the body test gives OK, SOFT_404 or OK_RENDERED with the code and final URL |
| LinkValidator.BodyVerdictOutcomes | src/validators/link_validator.py:139-157 | OK exactly when the body does not look like an error. OK_RENDERED exactly when it does and the enabled renderer returns a non-empty page that does not. Otherwise SOFT_404 with a 400-character snippet |
| LinkValidator.Answered | src/validators/link_validator.py:86-130 | a result settled by the requests keeps the URL |
| LinkValidator.Verdict | src/validators/link_validator.py:80-157 | the result keeps the URL |
| LinkValidator.VerdictOutcomes | src/validators/link_validator.py:86-157 | TIMEOUT exactly on a GET timeout after HEAD failed. A failed GET gives BROKEN with the error text. GET 404, 410 or 5xx gives BROKEN. IGNORED_403 exactly when the retry raised or answered 403 again. HEAD below 400 leaves an empty body, so it ends SOFT_404 or OK_RENDERED |
| LinkValidator.RetryIsNotRecheckedForBroken | src/validators/link_validator.py:116-127 | after a 403, a retry answering any other code, 404 included, with a clean body makes the link OK with that code and reason |
| LinkValidator.CleanBodyIsOk | src/validators/link_validator.py:154-157 | a body that does not look like an error gives OK with reason `HTTP <code>` |
| LinkValidator.CheckLinkStrict | src/validators/link_validator.py:69-157 | a cache hit on the normalised URL is returned with no request and no store; otherwise the requests' verdict is returned and stored under the normalised URL |
| LinkValidator.Probe | src/validators/link_validator.py:80-157 | reassigning code, final URL and body through HEAD, GET and the retry computes the verdict |
| LinkValidator.BodyTest | src/validators/link_validator.py:139-157 | computes the body verdict |
| Orchestrator.CsvTargets | src/main.py:40-43 | every URL-list name gives a target, and every target comes from one |
| Orchestrator.CsvTargetsStep | src/main.py:40-43 | one more name adds its target when it is a URL list |
| Orchestrator.LocaleCsvs | src/main.py:36-44 | sorted by locale, a permutation of the listed targets; nothing without a data directory |
| Orchestrator.FindLocaleCsvs | src/main.py:36-44 | the listing loop and the sort give those targets |
| Orchestrator.CsvNameRoundTrip | src/main.py:41-42 | the URL list written for a locale without `_` or `.` is read back as that locale |
| Orchestrator.LocaleOfCsvName | src/main.py:42 | the locale is no longer than the name; a name holding neither `urls_to_check_` nor `.csv` is its own locale |
| Orchestrator.HomepageUrl | src/main.py:65-71 | the homepage starts with the base without trailing `/`, then `/`, and ends in `/` |
| Orchestrator.HomepageUrlPath | src/main.py:65-71 | what follows the base is the locale's path (`map.get(code, code)`), empty for an empty path |
| Orchestrator.HomepageIgnoresTrailingSlash | src/main.py:69-71 | a trailing `/` on the base does not change the homepage |
| Orchestrator.CheckLocaleHomepageAsWritten | src/main.py:74-87 | as written the homepage is always reported down |
| Orchestrator.CheckLocaleHomepage | src/main.py:56-87 | intended: alive exactly when HEAD of the homepage answers 200, 301 or 302; a raised request is down |
| Orchestrator.HomepageAsWrittenReportsLiveSiteDown | src/main.py:74-87 | a homepage answering 200 is alive as intended and down as written |
| Orchestrator.Percent | src/main.py:91 | a part of a whole is between 0 and 100 percent; 0 and the whole give 0 and 100 |
| Orchestrator.ComputeMetrics | src/main.py:90-99 | duplicates are total minus unique; zero total gives success 100 and efficiency 0; both rates lie in 0..100 |
| Orchestrator.CheckerRun | src/checker.py:386-398 | the run's links are the de-duplicated page items |
| Orchestrator.SkipRow | src/main.py:118-124 | a skip entry has the locale, the status and `pages_checked` 0 |
| Orchestrator.ErrorEntry | src/main.py:131-133 | an error entry has status `error` and the exception text |
| Orchestrator.StatusText | src/main.py:148 | `✅ Healthy` exactly when nothing is broken, else a warning |
| Orchestrator.StatusTextNamesCount | src/main.py:148 | a warning status reads back the number of broken links |
| Orchestrator.SummaryRow | src/main.py:135-149 | the summary's columns; duplicates are links minus distinct URLs; healthy exactly with no broken link |
| Orchestrator.WorkerAsWritten | src/main.py:102-124 | as written a worker with URLs always raises the `cfg` NameError |
| Orchestrator.Worker | src/main.py:102-161 | intended: never raises; `skipped_no_urls` exactly without URLs; `error` exactly when the crawl raised after a live homepage; healthy exactly when it finished with nothing broken |
| Orchestrator.WorkerReportsNoDuplicates | src/main.py:135-142 | with the checker's run, the summary reports no duplicates and as many unique links as links found |
| Orchestrator.CheckerRunDistinctUrls | src/main.py:141 | a run's links have as many distinct URLs as links |
| Orchestrator.DedupedUrlsCount | src/main.py:141 | de-duplicated links count as many URLs as links |
| Orchestrator.SummaryCountsDistinctUrls | src/main.py:140-142 | distinct URLs give duplicate count 0 |
| Orchestrator.CliLocales | src/main.py:187-188 | the stripped, non-empty comma-separated names, and only those |
| Orchestrator.AllowedLocales | src/main.py:186-191 | the CLI list if given; else the enabled locales if any; else every CSV locale |
| Orchestrator.Targets | src/main.py:194 | a target is kept exactly when its locale is allowed |
| Orchestrator.TargetsKeepOrder | src/main.py:194 | the kept targets stay in locale order |
| Orchestrator.EveryCsvRunsByDefault | src/main.py:191-194 | without a CLI list or enabled locales every URL list runs |
| Orchestrator.TargetsAllKept | src/main.py:194 | all targets kept when all are allowed |
| Orchestrator.EntryOf | src/main.py:207-213 | a raising worker is recorded as an error entry, otherwise its summary |
| Orchestrator.Results | src/main.py:200-213 | the results form a dictionary |
| Orchestrator.ResultsOnePerLocale | src/main.py:203-213 | each target locale has exactly one entry, from its last target |
| Orchestrator.RunSpec | src/main.py:172-213 | a finished run had a listing and has at least one entry |
| Orchestrator.CollectResults | src/main.py:203-213 | the futures loop fills the results dictionary |
| Orchestrator.Run | src/main.py:172-213 | `main`'s early exits, selection and results are the specified run |
| Orchestrator.AsWrittenRunCrawlsNothing | src/main.py:122 | as written every entry is the `cfg` NameError or a skip for an empty list |
| Orchestrator.IntendedErrorsComeFromCrawl | src/main.py:128-133 | intended: an entry is an error exactly when that locale's crawl raised |
| SummarySchema.Absent | src/utils/Summary_fixed.py:48-49 | `[c for c in s if c not in other]`: exactly the items of `s` absent from `other` |
| SummarySchema.Present | src/utils/Summary_fixed.py:71 | `[c for c in s if c in other]`: exactly the items of `s` present in `other` |
| SummarySchema.AbsentAppend | src/utils/Summary_fixed.py:68 | filtering distributes over concatenation |
| SummarySchema.AbsentDistinct | src/utils/Summary_fixed.py:48 | filtering keeps columns distinct |
| SummarySchema.AbsentNone | src/utils/Summary_fixed.py:68 | nothing is left when every item is excluded |
| SummarySchema.PresentAll | src/utils/Summary_fixed.py:71 | everything is kept when every item is present |
| SummarySchema.Default | src/utils/Summary_fixed.py:65 | 0 exactly for `duration_`, `total_`, `broken_` and `crawler_` columns, else `""` |
| SummarySchema.WithDefaults | src/utils/Summary_fixed.py:64-65 | adding defaults keeps the row count |
| SummarySchema.WithDefaultsColumns | src/utils/Summary_fixed.py:64-65 | after the defaults, the columns are the old ones and the added ones |
| SummarySchema.WithDefaultsStep | src/utils/Summary_fixed.py:64-65 | one more column assigns its default |
| SummarySchema.WithDefaultsNew | src/utils/Summary_fixed.py:64-65 | new columns go last in order, holding their defaults; the others are unchanged |
| SummarySchema.AssignNew | src/utils/Summary_fixed.py:65 | assigning a new column appends it |
| SummarySchema.Reconciled | src/utils/Summary_fixed.py:21-78 | a rewrite only for a readable file with missing or extra columns |
| SummarySchema.ExpectedDistinct | src/utils/Summary_fixed.py:34-45 | the canonical columns are distinct |
| SummarySchema.OrderAfterDefaults | src/utils/Summary_fixed.py:68-71 | after the defaults, the order is the expected columns then the header's extras |
| SummarySchema.NormalizedShape | src/utils/Summary_fixed.py:60-74 | the rewrite has the ten expected columns in order, then the extras in header order; added columns hold defaults; existing columns keep their values; no row or column is lost |
| SummarySchema.Normalized | src/utils/Summary_fixed.py:60-74 | for any frame, the rewrite keeps the row count and its columns are exactly the frame's and the missing ones |
| SummarySchema.NoRewriteCases | src/utils/Summary_fixed.py:21-53 | a missing file, unreadable header or header already in shape is not rewritten |
| SummarySchema.Frame.constructor | src/utils/Summary_fixed.py:61 | the frame holds the table read |
| SummarySchema.Frame.Put | src/utils/Summary_fixed.py:65 | `df[col] = v` assigns the column |
| SummarySchema.Frame.Select | src/utils/Summary_fixed.py:71 | `df[order]` reindexes the frame |
| SummarySchema.AddDefaults | src/utils/Summary_fixed.py:64-65 | the loop adds every missing column's default |
| SummarySchema.ReconcileCsvSchema | src/utils/Summary_fixed.py:9-78 | writes back exactly the reconciled frame, or nothing |
| LocaleLoader.KeyList | src/locales/loader.py:35 | `list(d.keys())` in key order |
| LocaleLoader.DefaultLocales | src/locales/constants.py:14-34 | the built-in table has the nineteen codes in order |
| LocaleLoader.LoadLocalesConfig | src/locales/loader.py:21-48 | a file that is absent or does not parse gives the fallback; any other answer comes from a JSON object document |
| LocaleLoader.LoadedWithoutReleased | src/locales/loader.py:34-38 | a file without `released` releases its locale keys |
| LocaleLoader.FallbackReleasesEveryDefault | src/locales/loader.py:45-48 | the fallback releases exactly the built-in codes, in order |
| LocaleLoader.StringItems | src/locales/loader.py:71 | the strings of a list exactly when all items are strings |
| LocaleLoader.SortedLocales | src/locales/loader.py:71 | `sorted(released)` succeeds exactly for a list of strings, an object or a string; the result is sorted and is a permutation of the strings or of the keys, one entry per character for a string |
| LocaleLoader.ResolvedEnabledLocales | src/locales/loader.py:54-74 | an empty configuration gives `[]`; any result is sorted |
| LocaleLoader.AsDict | src/locales/loader.py:38 | the dictionary has keys `locales` and `released` |
| LocaleLoader.EmptyConfigEnablesNothing | src/locales/loader.py:64-66 | an empty configuration enables nothing |
| LocaleLoader.ReleasedListIsSorted | src/locales/loader.py:68-71 | a `released` list of strings is enabled sorted, as a permutation (duplicates kept) |
| LocaleLoader.ReleasedTextEnablesCharacters | src/locales/loader.py:71 | a `released` string enables its characters, sorted |
| LocaleLoader.ReleasedDefaultsToLocaleKeys | src/locales/loader.py:68-71 | without `released`, the locale keys sorted, as a permutation |
| LocaleUpdater.CodeOf | src/locales/updater.py:31-32 | the code is the path's first segment: a prefix of the path holding no `/`, empty exactly when the path is empty or starts with `/` |
| LocaleUpdater.PathOf | src/locales/updater.py:31 | the path neither starts nor ends with `/`; an href without the site root is only stripped of `/` |
| LocaleUpdater.SwitcherMapping | src/locales/updater.py:24-34 | the mapping is a dictionary |
| LocaleUpdater.SwitcherMappingLastWins | src/locales/updater.py:26-34 | the codes are those of contributing anchors, each mapped to the path of the last anchor with it |
| LocaleUpdater.SwitcherCodesAreSegments | src/locales/updater.py:32-34 | every code is non-empty and one segment |
| LocaleUpdater.FetchLanguageSwitcher | src/locales/updater.py:18-39 | the anchor loop gives the switcher result |
| LocaleUpdater.SwitcherResult | src/locales/updater.py:18-39 | a mapping only from a page that did not fail, and never empty |
| LocaleUpdater.NoContributionNoMapping | src/locales/updater.py:36 | no contributing anchor gives `None` |
| LocaleUpdater.UpdaterDoc | src/locales/updater.py:48-51 | as written: the document has `enabled_locales` and `locales_map` |
| LocaleUpdater.UpdaterOutputEnablesNothing | src/locales/updater.py:48-51 | the file the updater writes loads with no locales and enables nothing |
| LocaleUpdater.LoaderDoc | src/locales/updater.py:48-51 | intended: the document has `locales` and `released`, the names the loader reads |
| LocaleUpdater.LoaderDocEnablesCodes | src/locales/updater.py:48-51 | intended: the written file enables exactly the fetched codes, sorted, as a permutation |
| LocaleUpdater.Run | src/locales/updater.py:41-55 | writes the document and answers true exactly when there is a mapping; intended: the document is written under the loader's names |
| MetricsBuilder.PointOf | src/analytics/metrics_builder.py:41-50 | a row converts exactly when its four counts convert with `int` and its two rates with `float`; the point keeps the run time and status and holds the converted counts |
| MetricsBuilder.IntOf | src/analytics/metrics_builder.py:43-46 | integers and booleans convert, a missing value raises, text converts exactly when, stripped, it is an optionally signed run of digits with single underscores between digits |
| MetricsBuilder.IntOfIntText | src/analytics/metrics_builder.py:43-46 | `int(str(n)) == n` for every integer |
| MetricsBuilder.IntTextIsFloatText | src/analytics/metrics_builder.py:43-48 | text that `int` reads, `float` reads too |
| MetricsBuilder.FractionIsFloatText | src/analytics/metrics_builder.py:47-48 | digits, a point, digits and an exponent form float text |
| MetricsBuilder.SpecialFloatText | src/analytics/metrics_builder.py:47-48 | `inf`, `infinity` and `nan`, in any case and with any sign, are float text |
| MetricsBuilder.MissingCountsAreZero | src/analytics/metrics_builder.py:43-48 | a row without count or rate columns converts, with zero counts |
| MetricsBuilder.RunTimeKey | src/analytics/metrics_builder.py:38 | the sort key of a row with a run time is that text |
| MetricsBuilder.Timed | src/analytics/metrics_builder.py:38 | the rows with a run time, in input order |
| MetricsBuilder.Untimed | src/analytics/metrics_builder.py:38 | the rows without a run time, in input order |
| MetricsBuilder.TimedUntimedSplit | src/analytics/metrics_builder.py:38 | splitting by run time loses and adds no row |
| MetricsBuilder.OrderedIsRunTimeOrder | src/analytics/metrics_builder.py:38 | `sort_values("run_time")`: a permutation of the rows, ascending by run time, the rows without one last and in input order |
| MetricsBuilder.Tail | src/analytics/metrics_builder.py:38 | `tail(n)`: the last `min(n, len)` items |
| MetricsBuilder.LatestRows | src/analytics/metrics_builder.py:38 | the last `min(14, len)` rows of that order |
| MetricsBuilder.LatestRowsAreTheLatest | src/analytics/metrics_builder.py:38 | the kept rows are in run-time order and come from the table; no dropped row has a later run time than a kept one, and a dropped row without a run time means no kept row has one |
| MetricsBuilder.MissingRunTimeIsLast | src/analytics/metrics_builder.py:38 | a row without a run time after a timed row stays last, so it gives the summary |
| MetricsBuilder.LocaleOf | src/analytics/metrics_builder.py:36 | the locale is no longer than the path |
| MetricsBuilder.DataOf | src/analytics/metrics_builder.py:51-55 | an unusable file gives no series; a usable file's series is its converted latest rows; the last point gives the latest run and the summary |
| MetricsBuilder.Points | src/analytics/metrics_builder.py:39-50 | one point per row, or a row that fails to convert |
| MetricsBuilder.PointsFailurePersists | src/analytics/metrics_builder.py:39-50 | a failing prefix fails the whole |
| MetricsBuilder.SeriesOf | src/analytics/metrics_builder.py:39-50 | the series loop computes the points |
| MetricsBuilder.UsableDataHasSummary | src/analytics/metrics_builder.py:51-55 | one to fourteen points; the last gives the run time and summary |
| MetricsBuilder.GatherLocaleSummaries | src/analytics/metrics_builder.py:28-58 | the file loop stores each usable file's entry under its locale |
| MetricsBuilder.GatheredEntries | src/analytics/metrics_builder.py:28-58 | the locales are those of usable files, each from the last such file, each with a summary |
| MetricsBuilder.GatheredEntryHasSummary | src/analytics/metrics_builder.py:51-55 | a gathered entry has a summary |
| MetricsBuilder.Rollup | src/analytics/metrics_builder.py:73-80 | at most one run per entry |
| MetricsBuilder.OverallSuccessRate | src/analytics/metrics_builder.py:86 | 100 when no link was checked |
| MetricsBuilder.SuccessRateBounds | src/analytics/metrics_builder.py:86 | between 0 and 100 when broken links are within the links |
| MetricsBuilder.BuildMetrics | src/analytics/metrics_builder.py:61-87 | the rollup loop computes the totals and the rate |
| MetricsBuilder.EveryEntryIsARun | src/analytics/metrics_builder.py:76-78 | entries with summaries count one run each |
| MetricsBuilder.GatheredRunsAreLocales | src/analytics/metrics_builder.py:73-78 | the run count is the number of gathered locales |

## Left out

- HTTP, HTML and URL parsing:
  - HTTP I/O (sessions, connectors, headers, user agents, timeouts) is not modelled: each request's answer is an input.
  - HTML parsing (BeautifulSoup) is not modelled: a parsed page is an input (`Tag`, `PageView`).
  - `urljoin` and `urlparse(...).netloc` are not modelled: they are function-typed inputs. `urlparse(url).scheme` is modelled as `urlsplit` reads it: leading C0 controls and spaces dropped, tab, CR and LF removed, then the text before the first `:`, non-empty, starting with an ASCII letter and made of letters, digits, `+`, `-` and `.`.
- Concurrency:
  - semaphore acquisition, `asyncio.gather`, uvloop and the process pool are not modelled;
  - `run_batch_check` (src/validators/advanced_link_checker.py:157-175) is not modelled, because it is only concurrency around `check_link_strict`;
  - `as_completed` order is taken to be target order.
- Orchestrator.ResultsOnePerLocale: with two targets of the same locale, the entry that wins depends on completion order in the source. The model uses the last target.
- Files and storage:
  - the sqlite storage of `Cache` is not modelled: the cache is a map, the rows earlier runs left in the file are the constructor's argument, and the clock is a parameter (`lookupTime`, `storeTime`);
  - pandas and CSV/JSON reading and writing, directory creation, `read_urls`, and the summary CSV append are not modelled.
  - `metrics.json` writing, the injection of the latest broken links and the `build_metrics` call in `main` (with `--skip-metrics`) are not modelled.
- Floating point:
  - `round`, `duration_sec`, `duration_mins`, `crawler_efficiency`, `success_rate` and the `_timing_ms` field are not modelled;
  - Orchestrator.ComputeMetrics: the rates are exact reals, without `round(…, 2)`;
  - Orchestrator.SummaryRow: the float columns are not modelled.
- src/logger.py, src/emailer.py and src/utils/reset_project.py are not part of this model. `fetch_rendertron` is not modelled: it is the renderer input `render`.
- Text.Lower: only ASCII letters are lowered; Python's `lower()` folds all of Unicode. `LOCALE_RE`'s `re.I` and `\b`'s word characters are ASCII too.
- AdvancedChecker.MatchesErrorPattern: the regular expressions are modelled as substring tests, with `\b404\b` as a word-bounded match. The remaining patterns are plain literals.
- Dedup.NormalizeUrlShape: stated for URLs without line breaks. Dedup.CutToEnd models `.` and `$` around line breaks, but no property is proved for such input.
- Dedup.NormalizeUrlShape: the key does not start with whitespace, but it can end with it (Dedup.SpaceBeforeFragmentSurvives), so "trimmed" holds only at the front.
- AdvancedChecker.Classify: an exception raised while parsing the page or reading its text is not modelled; such an exception would also give N/A.
- LinkValidator.CheckLinkStrict:
  - a `requests` HEAD reply is taken to have an empty body, and reading `r.text` is taken never to raise;
  - the `if cached:` truthiness test is a presence test, because stored results are never empty.
- LocaleLoader.SortedLocales: only lists of strings are sorted. Python also sorts lists of numbers, of booleans or of string lists, and any one-item list such as `[5]` or `[null]` (no comparison happens); the model treats all of these as raising. JSON numbers are integers.
- MetricsBuilder.IntOf:
  - cells are text, integers, booleans or missing; float cells (`int(3.0)`) are not modelled;
  - `int` of text is modelled over ASCII: non-ASCII digits and non-ASCII whitespace are not accepted.
- MetricsBuilder.PointOf: the two rate columns are only checked to convert with `float` (ASCII text, as above); their values are not kept in the point.
- MetricsBuilder.LatestRows: run times are compared as text, and rows with equal run times keep their input order, an order pandas' default sort does not promise. A `run_time` cell that is a number or a boolean is treated as missing, where pandas would sort a numeric column by value.
- Checker.BatchSize and Checker.PerDomainConcurrency: `BATCH_SIZE` and `PER_DOMAIN_CONCURRENCY` are fixed at their environment defaults, 400 and 8; other values read from the environment are not modelled.
- SummarySchema.NormalizedShape: stated for a frame whose columns are the distinct header columns. pandas renames duplicate headers, and that renaming is not modelled.
- Sorting.SortBy: sortedness and permutation are proved; stability is not stated.
- Orchestrator.CheckerRun: the crawl is the model of `run_checker_async`. The worker receives any run outcome as input, including a raised one, and the model does not say which exceptions the real crawl raises.

## Findings

| source | as written | input that shows it | evidently intended | confidence | as-written member | corrected member |
|---|---|---|---|---|---|---|
| src/checker.py:214 | `check_link_strict(url, session=session, async_resp=resp)` passes a keyword the advanced `check_link_strict` (src/validators/advanced_link_checker.py:82) does not accept, so it raises `TypeError`, which the handler turns into `N/A` | any link whose GET answers, e.g. a 404 page: `Checker.AsWrittenHidesBrokenLinks`; over a run, `Checker.AsWrittenNothingBroken` shows that nothing is ever reported broken | classify the link with the strict check once a request answered | high (not executed) | Checker.ValidationAsWritten | Checker.Validation |
| src/main.py:75 | `requests.head(...)` with `requests` never imported raises `NameError`, caught at :85, so every homepage is reported down | a homepage answering 200: `Orchestrator.HomepageAsWrittenReportsLiveSiteDown` | alive exactly on 200, 301 or 302 | high (not executed) | Orchestrator.CheckLocaleHomepageAsWritten | Orchestrator.CheckLocaleHomepage |
| src/main.py:122 | `cfg["locales"]` reads a name local to `main`, so any worker with URLs raises `NameError`, recorded as an error entry | any locale with a non-empty URL list: `Orchestrator.AsWrittenRunCrawlsNothing` | pass the loaded configuration's locale paths to the homepage check | high (not executed) | Orchestrator.WorkerAsWritten | Orchestrator.Worker |
| src/validators/advanced_link_checker.py:118 | `analysed.get("canonical") == r.url` compares a string with a URL object, which is never equal, so `canonical_match` is never set | a page whose canonical link is its own response URL: `AdvancedChecker.CanonicalNeverMatchesAsWritten` | compare the canonical link with the response URL as text | medium (not executed) | AdvancedChecker.CanonicalMatchAsWritten | AdvancedChecker.CanonicalMatch |
| src/locales/updater.py:48-51 | `run` writes the codes and paths under `enabled_locales` and `locales_map`, names the loader (src/locales/loader.py:34-35) never reads | any fetched mapping: `LocaleUpdater.UpdaterOutputEnablesNothing` shows the written file loads with no locales and enables nothing | write the paths under `locales` and the codes under `released` | medium (not executed) | LocaleUpdater.UpdaterDoc | LocaleUpdater.LoaderDoc |
