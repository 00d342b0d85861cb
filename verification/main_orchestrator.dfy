/**
 * src/main.py: finds the per-locale URL lists, decides which locales run, runs one worker
 * per locale, and gathers each locale's summary into the results dictionary.
 */
module Orchestrator {
  import opened Wrappers
  import opened Text
  import opened PyDict
  import opened Sorting
  import opened FirstByKey
  import LocaleLoader
  import Checker

  // ---------------------------------------------------------------- locale CSV files

  const CsvPrefix: string := "urls_to_check_"
  const CsvSuffix: string := ".csv"

  /** A locale to run and the path of its URL list. */
  datatype Target = Target(locale: string, path: string)

  function TargetLocale(t: Target): string { t.locale }

  /** A directory entry that names a locale's URL list. */
  predicate IsLocaleCsv(fn: string) {
    StartsWith(fn, CsvPrefix) && EndsWith(fn, CsvSuffix)
  }

  /** `fn.split("urls_to_check_")[-1].replace(".csv", "")`. */
  function LocaleOfCsvName(fn: string): (loc: string)
    ensures |loc| <= |fn|
    ensures !Contains(fn, CsvPrefix) && !Contains(fn, CsvSuffix) ==> loc == fn
  {
    RemoveAll(LastPiece(fn, CsvPrefix), CsvSuffix)
  }

  function TargetOf(fn: string, dataDir: string): Target {
    Target(LocaleOfCsvName(fn), dataDir + "/" + fn)
  }

  /** The targets of the listed names, in listing order. */
  function CsvTargets(listing: seq<string>, dataDir: string): (r: seq<Target>)
    ensures forall fn :: fn in listing && IsLocaleCsv(fn) ==> TargetOf(fn, dataDir) in r
    ensures forall t :: t in r ==> exists fn :: fn in listing && IsLocaleCsv(fn) && t == TargetOf(fn, dataDir)
    decreases |listing|
  {
    if listing == [] then []
    else
      var p := listing[..|listing| - 1];
      var fn := listing[|listing| - 1];
      assert listing == p + [fn];
      var rest := CsvTargets(p, dataDir);
      if IsLocaleCsv(fn) then rest + [TargetOf(fn, dataDir)] else rest
  }

  lemma CsvTargetsStep(listing: seq<string>, i: nat, dataDir: string)
    requires i < |listing|
    ensures CsvTargets(listing[..i + 1], dataDir)
         == CsvTargets(listing[..i], dataDir) + (if IsLocaleCsv(listing[i]) then [TargetOf(listing[i], dataDir)] else [])
  {
    assert listing[..i + 1][..i] == listing[..i];
  }

  /**
   * `find_locale_csvs`: nothing when the data directory is missing; otherwise the targets of
   * the listed URL lists, ordered by locale (a stable sort).
   */
  function LocaleCsvs(listing: Option<seq<string>>, dataDir: string): (r: seq<Target>)
    ensures SortedBy(r, TargetLocale)
    ensures listing.None? ==> r == []
    ensures listing.Some? ==> multiset(r) == multiset(CsvTargets(listing.value, dataDir))
  {
    if listing.None? then [] else SortBy(CsvTargets(listing.value, dataDir), TargetLocale)
  }

  /** `find_locale_csvs`, with the directory listing as input (None: no such directory). */
  method FindLocaleCsvs(listing: Option<seq<string>>, dataDir: string) returns (out: seq<Target>)
    ensures out == LocaleCsvs(listing, dataDir)
  {
    if listing.None? {
      return [];
    }
    var names := listing.value;
    var found: seq<Target> := [];
    for i := 0 to |names|
      invariant found == CsvTargets(names[..i], dataDir)
    {
      CsvTargetsStep(names, i, dataDir);
      var fn := names[i];
      if StartsWith(fn, CsvPrefix) && EndsWith(fn, CsvSuffix) {
        var locale := RemoveAll(LastPiece(fn, CsvPrefix), CsvSuffix);
        found := found + [Target(locale, dataDir + "/" + fn)];
      }
    }
    assert names[..|names|] == names;
    out := SortBy(found, TargetLocale);
  }

  /** A text without some character of `p` does not contain `p`. */
  lemma NotContainedWithout(s: string, p: string, k: nat)
    requires k < |p| && p[k] !in s
    ensures !Contains(s, p)
  {
  }

  /**
   * The file name of a locale code without `_` and `.` gives that code back: the name
   * written for a locale is read as that locale.
   */
  lemma CsvNameRoundTrip(loc: string)
    requires '_' !in loc && '.' !in loc
    ensures IsLocaleCsv(CsvPrefix + loc + CsvSuffix)
    ensures LocaleOfCsvName(CsvPrefix + loc + CsvSuffix) == loc
  {
    var fn := CsvPrefix + loc + CsvSuffix;
    var rest := loc + CsvSuffix;
    assert fn[..|CsvPrefix|] == CsvPrefix;
    assert fn[|fn| - |CsvSuffix|..] == CsvSuffix;
    assert OccursAt(fn, CsvPrefix, 0);
    assert fn[|CsvPrefix|..] == rest;
    NotContainedWithout(rest, CsvPrefix, 4);
    assert LastPiece(fn, CsvPrefix) == LastPiece(rest, CsvPrefix) == rest;
    assert OccursAt(rest, CsvSuffix, |loc|);
    forall i | 0 <= i < |loc|
      ensures !OccursAt(rest, CsvSuffix, i)
    {
      assert rest[i] == loc[i];
    }
    assert Find(rest, CsvSuffix) == |loc|;
    assert rest[|loc| + |CsvSuffix|..] == [];
    assert Find([], CsvSuffix) == -1;
    assert rest[..|loc|] == loc;
  }

  // ---------------------------------------------------------------- locale homepage

  /** `locale_path_map.get(code, code)`. */
  function LocalePath(code: string, paths: map<string, string>): string {
    if code in paths then paths[code] else code
  }

  /** The homepage of a locale: the base without trailing `/`, then `/`, then the path and `/`. */
  function HomepageUrl(code: string, paths: map<string, string>, base: string): (url: string)
    ensures StartsWith(url, TrimRightChar(base, '/') + "/")
    ensures EndsWith(url, "/")
  {
    var root := TrimRightChar(base, '/');
    var path := LocalePath(code, paths);
    if path == "" then root + "/" else root + "/" + path + "/"
  }

  /** What follows the base in the homepage URL is the locale's path, empty for an empty path. */
  lemma HomepageUrlPath(code: string, paths: map<string, string>, base: string)
    ensures var url := HomepageUrl(code, paths, base);
      var n := |TrimRightChar(base, '/')| + 1;
      && n <= |url|
      && (LocalePath(code, paths) == "" <==> |url| == n)
      && (LocalePath(code, paths) != "" ==> url[n..|url| - 1] == LocalePath(code, paths))
  {
    var root := TrimRightChar(base, '/');
    var path := LocalePath(code, paths);
    if path != "" {
      var url := root + "/" + path + "/";
      assert url[|root| + 1..|url| - 1] == path;
    }
  }

  /** Trailing slashes on the base do not change the homepage URL. */
  lemma HomepageIgnoresTrailingSlash(code: string, paths: map<string, string>, base: string)
    ensures HomepageUrl(code, paths, base + "/") == HomepageUrl(code, paths, base)
  {
    assert (base + "/")[..|base|] == base;
  }

  /** The HEAD statuses taken as a live homepage. */
  predicate AliveStatus(reply: Option<int>) {
    reply == Some(200) || reply == Some(301) || reply == Some(302)
  }

  /**
   * `check_locale_homepage` as written: `requests` is never imported, so the HEAD call raises
   * a NameError, which the handler turns into "down" for every locale.
   */
  function CheckLocaleHomepageAsWritten(code: string, paths: map<string, string>, base: string,
                                        head: string -> Option<int>): (alive: bool)
    ensures !alive
  {
    false
  }

  /**
   * `check_locale_homepage` with the HEAD request made: alive exactly when HEAD of the
   * homepage answers 200, 301 or 302; a raised request (None) is down.
   */
  function CheckLocaleHomepage(code: string, paths: map<string, string>, base: string,
                               head: string -> Option<int>): (alive: bool)
    ensures alive ==> head(HomepageUrl(code, paths, base)).Some?
    ensures alive <==> head(HomepageUrl(code, paths, base)) in {Some(200), Some(301), Some(302)}
  {
    AliveStatus(head(HomepageUrl(code, paths, base)))
  }

  /** As written, even a homepage answering 200 is reported down. */
  lemma HomepageAsWrittenReportsLiveSiteDown(code: string, paths: map<string, string>, base: string,
                                             head: string -> Option<int>)
    requires head(HomepageUrl(code, paths, base)) == Some(200)
    ensures CheckLocaleHomepage(code, paths, base, head)
    ensures !CheckLocaleHomepageAsWritten(code, paths, base, head)
  {
  }

  // ---------------------------------------------------------------- metrics

  /** `compute_metrics` before rounding: percentages as reals. */
  datatype Metrics = Metrics(successRate: real, duplicateCount: int, efficiency: real)

  /** `part / whole * 100`, between 0 and 100 when the part is within the whole. */
  function Percent(part: nat, whole: nat): (p: real)
    requires whole > 0
    ensures part <= whole ==> 0.0 <= p <= 100.0
    ensures part == 0 ==> p == 0.0
    ensures part == whole ==> p == 100.0
  {
    var q := part as real / whole as real;
    assert q * whole as real == part as real;
    q * 100.0
  }

  function ComputeMetrics(total: nat, broken: nat, unique: nat): (m: Metrics)
    ensures m.duplicateCount == total - unique
    ensures total == 0 ==> m.successRate == 100.0 && m.efficiency == 0.0
    ensures broken == 0 ==> m.successRate == 100.0
    ensures broken <= total ==> 0.0 <= m.successRate <= 100.0
    ensures unique <= total ==> 0.0 <= m.efficiency <= 100.0
    ensures 0 < total == unique ==> m.efficiency == 100.0
  {
    var successRate := 100.0 - (if total != 0 then Percent(broken, total) else 0.0);
    var efficiency := if total != 0 then Percent(unique, total) else 0.0;
    Metrics(successRate, total - unique, efficiency)
  }

  // ---------------------------------------------------------------- the worker

  type Row = Checker.Row

  /** What `run_checker` did for a locale's URLs. */
  datatype RunOutcome = RunRaised(message: string) | RunDone(invalidLinks: seq<Row>, allLinks: seq<Checker.Link>)

  /** `run_checker` as the crawl model computes it. */
  function CheckerRun(urls: seq<string>, web: Checker.Web): (r: RunOutcome)
    ensures r.RunDone? && r.allLinks == Firsts(Checker.AllPageLinks(urls, web), Checker.UrlKey, {""})
  {
    var allLinks := Firsts(Checker.AllPageLinks(urls, web), Checker.UrlKey, {""});
    RunDone(Checker.BrokenOf(Checker.Validations(allLinks, web)), allLinks)
  }

  /** What a worker sees: the URL lists, the HEAD replies, the crawler runs and the clock. */
  datatype WorkerEnv = WorkerEnv(
    readUrls: string -> seq<string>,
    head: string -> Option<int>,
    run: seq<string> -> RunOutcome,
    now: string)

  /** A worker's end: it raised with a message, or returned its summary dictionary. */
  datatype WorkerOutcome = Raised(message: string) | Returned(row: Row)

  const CfgNameError: string := "name 'cfg' is not defined"
  const Healthy: string := "\U{2705} Healthy"
  const BrokenPrefix: string := "\U{26A0}\U{FE0F} "
  const BrokenSuffix: string := " broken"

  /** The dictionary of a locale that was skipped. */
  function SkipRow(locale: string, status: string): (row: Row)
    ensures row.Keys == {"locale", "status", "pages_checked"}
    ensures row["status"] == Str(status) && row["pages_checked"] == Int(0)
  {
    map["locale" := Str(locale), "status" := Str(status), "pages_checked" := Int(0)]
  }

  /** The dictionary of a locale whose run raised. */
  function ErrorEntry(locale: string, message: string): (row: Row)
    ensures row.Keys == {"locale", "status", "error"}
    ensures row["status"] == Str("error") && row["error"] == Str(message)
  {
    map["locale" := Str(locale), "status" := Str("error"), "error" := Str(message)]
  }

  /** The summary status: healthy without broken links, otherwise the number broken. */
  function StatusText(broken: nat): (s: string)
    ensures s == Healthy <==> broken == 0
    ensures |s| > 0 && (s[0] == '\U{2705}' || s[0] == '\U{26A0}')
  {
    if broken == 0 then Healthy else BrokenPrefix + NatToString(broken) + BrokenSuffix
  }

  /** The number of broken links reads back from a status that is not healthy. */
  lemma StatusTextNamesCount(broken: nat)
    requires broken > 0
    ensures var s := StatusText(broken);
      |s| > |BrokenPrefix| + |BrokenSuffix|
      && ParseNat(s[|BrokenPrefix|..|s| - |BrokenSuffix|]) == broken
  {
    var s := StatusText(broken);
    var digits := NatToString(broken);
    assert s[|BrokenPrefix|..|s| - |BrokenSuffix|] == digits;
    NatToStringRoundTrip(broken);
  }

  /** `{l.get("url") for l in all_links}`. */
  function UrlSet(links: seq<Checker.Link>): set<string> {
    set l | l in links :: l.url
  }

  /** The summary dictionary of a completed run (the float columns are not modelled). */
  function SummaryRow(locale: string, now: string, pages: nat, invalid: seq<Row>,
                      allLinks: seq<Checker.Link>): (row: Row)
    ensures row.Keys == {"run_time", "locale", "pages_checked", "total_links_found", "unique_links",
                         "duplicate_count", "broken_links", "status"}
    ensures row["duplicate_count"] == Int(|allLinks| - |UrlSet(allLinks)|)
    ensures row["status"] == Str(Healthy) <==> invalid == []
  {
    var total := |allLinks|;
    var unique := |UrlSet(allLinks)|;
    var metrics := ComputeMetrics(total, |invalid|, unique);
    map["run_time" := Str(now), "locale" := Str(locale), "pages_checked" := Int(pages),
        "total_links_found" := Int(total), "unique_links" := Int(unique),
        "duplicate_count" := Int(metrics.duplicateCount), "broken_links" := Int(|invalid|),
        "status" := Str(StatusText(|invalid|))]
  }

  /**
   * `process_locale_worker` as written: with URLs to check, evaluating `cfg["locales"]`
   * raises a NameError before the homepage is checked.
   */
  function WorkerAsWritten(t: Target, env: WorkerEnv): (out: WorkerOutcome)
    ensures env.readUrls(t.path) == [] ==> out == Returned(SkipRow(t.locale, "skipped_no_urls"))
    ensures env.readUrls(t.path) != [] ==> out == Raised(CfgNameError)
  {
    var urls := env.readUrls(t.path);
    if urls == [] then Returned(SkipRow(t.locale, "skipped_no_urls"))
    else Raised(CfgNameError)
  }

  /**
   * `process_locale_worker` with the configuration's path map and the HEAD request in place:
   * skipped without URLs or with a dead homepage, the error dictionary when the crawl raised,
   * otherwise the summary. It never raises.
   */
  function Worker(t: Target, paths: map<string, string>, base: string, env: WorkerEnv): (out: WorkerOutcome)
    ensures out.Returned? && "status" in out.row && "locale" in out.row
    ensures out.row["locale"] == Str(t.locale)
    ensures out.row["status"] == Str("skipped_no_urls") <==> env.readUrls(t.path) == []
    ensures out.row["status"] == Str("error") <==>
      env.readUrls(t.path) != [] && CheckLocaleHomepage(t.locale, paths, base, env.head)
      && env.run(env.readUrls(t.path)).RunRaised?
    ensures out.row["status"] == Str(Healthy) <==>
      env.readUrls(t.path) != [] && CheckLocaleHomepage(t.locale, paths, base, env.head)
      && env.run(env.readUrls(t.path)).RunDone? && env.run(env.readUrls(t.path)).invalidLinks == []
  {
    var urls := env.readUrls(t.path);
    if urls == [] then Returned(SkipRow(t.locale, "skipped_no_urls"))
    else if !CheckLocaleHomepage(t.locale, paths, base, env.head) then
      Returned(SkipRow(t.locale, "skipped_homepage_unavailable"))
    else match env.run(urls)
      case RunRaised(m) => Returned(ErrorEntry(t.locale, m))
      case RunDone(invalid, allLinks) => Returned(SummaryRow(t.locale, env.now, |urls|, invalid, allLinks))
  }

  /**
   * When the crawl is the checker's run, the links it returns have distinct URLs, so the
   * summary reports no duplicates and as many unique links as links found.
   */
  lemma WorkerReportsNoDuplicates(t: Target, paths: map<string, string>, base: string,
                                  env: WorkerEnv, web: Checker.Web)
    requires env.readUrls(t.path) != [] && CheckLocaleHomepage(t.locale, paths, base, env.head)
    requires env.run(env.readUrls(t.path)) == CheckerRun(env.readUrls(t.path), web)
    ensures var row := Worker(t, paths, base, env).row;
      && "duplicate_count" in row && row["duplicate_count"] == Int(0)
      && "unique_links" in row && "total_links_found" in row
      && row["unique_links"] == row["total_links_found"]
  {
    var urls := env.readUrls(t.path);
    var run := CheckerRun(urls, web);
    CheckerRunDistinctUrls(urls, web);
    assert Worker(t, paths, base, env) == Returned(SummaryRow(t.locale, env.now, |urls|, run.invalidLinks, run.allLinks));
    SummaryCountsDistinctUrls(t.locale, env.now, |urls|, run.invalidLinks, run.allLinks);
  }

  /** The links of a checker run have pairwise distinct URLs, so they count as many URLs. */
  lemma CheckerRunDistinctUrls(urls: seq<string>, web: Checker.Web)
    ensures |UrlSet(CheckerRun(urls, web).allLinks)| == |CheckerRun(urls, web).allLinks|
  {
    DedupedUrlsCount(CheckerRun(urls, web).allLinks, Checker.AllPageLinks(urls, web));
  }

  lemma DedupedUrlsCount(links: seq<Checker.Link>, extracted: seq<Checker.Link>)
    requires links == Firsts(extracted, Checker.UrlKey, {""})
    ensures |UrlSet(links)| == |links|
  {
    Checker.DedupUrlsDistinct(extracted);
    Checker.DistinctUrlCount(links);
  }

  /** A summary of links with distinct URLs reports no duplicates. */
  lemma SummaryCountsDistinctUrls(locale: string, now: string, pages: nat, invalid: seq<Row>,
                                  allLinks: seq<Checker.Link>)
    requires |UrlSet(allLinks)| == |allLinks|
    ensures var row := SummaryRow(locale, now, pages, invalid, allLinks);
      row["duplicate_count"] == Int(0) && row["unique_links"] == row["total_links_found"]
  {
  }

  // ---------------------------------------------------------------- which locales run

  /** `--locales`: the stripped, non-empty comma-separated names. */
  function CliLocales(arg: string): (allowed: set<string>)
    ensures "" !in allowed
    ensures forall p :: p in Split(arg, ',') && Strip(p) != "" ==> Strip(p) in allowed
    ensures forall a :: a in allowed ==> exists p :: p in Split(arg, ',') && a == Strip(p)
  {
    set p | p in Split(arg, ',') && Strip(p) != "" :: Strip(p)
  }

  /**
   * The allowed locales: the command line's when given and non-empty; otherwise the enabled
   * locales, or every locale with a URL list when none is enabled.
   */
  function AllowedLocales(cli: Option<string>, enabled: seq<string>, csvs: seq<Target>): (allowed: set<string>)
    ensures cli.Some? && cli.value != "" ==> allowed == CliLocales(cli.value)
    ensures !(cli.Some? && cli.value != "") && enabled != [] ==> allowed == set e | e in enabled
    ensures !(cli.Some? && cli.value != "") && enabled == [] ==> forall t :: t in csvs ==> t.locale in allowed
  {
    if cli.Some? && cli.value != "" then CliLocales(cli.value)
    else if enabled != [] then set e | e in enabled
    else set t | t in csvs :: t.locale
  }

  /** `[(loc, path) for loc, path in all_csvs if loc in allowed]`. */
  function Targets(csvs: seq<Target>, allowed: set<string>): (r: seq<Target>)
    ensures |r| <= |csvs|
    ensures forall t :: t in r <==> t in csvs && t.locale in allowed
    decreases |csvs|
  {
    if csvs == [] then []
    else
      var p := csvs[..|csvs| - 1];
      var t := csvs[|csvs| - 1];
      assert csvs == p + [t];
      Targets(p, allowed) + (if t.locale in allowed then [t] else [])
  }

  /** Filtering keeps the locale order of the URL lists. */
  lemma {:induction false} TargetsKeepOrder(csvs: seq<Target>, allowed: set<string>)
    requires SortedBy(csvs, TargetLocale)
    ensures SortedBy(Targets(csvs, allowed), TargetLocale)
    decreases |csvs|
  {
    if csvs != [] {
      var p := csvs[..|csvs| - 1];
      var t := csvs[|csvs| - 1];
      TargetsKeepOrder(p, allowed);
      var r := Targets(p, allowed);
      if t.locale in allowed {
        forall i | 0 <= i < |r|
          ensures LessEq(r[i].locale, t.locale)
        {
          assert r[i] in p;
          var k :| 0 <= k < |p| && p[k] == r[i];
          assert csvs[k] == r[i];
        }
        var r' := r + [t];
        forall i, j | 0 <= i < j < |r'|
          ensures LessEq(TargetLocale(r'[i]), TargetLocale(r'[j]))
        {
          if j < |r| {
            assert r'[i] == r[i] && r'[j] == r[j];
          }
        }
      }
    }
  }

  /** Without a command line or enabled locales, every URL list runs. */
  lemma EveryCsvRunsByDefault(enabled: seq<string>, csvs: seq<Target>)
    requires enabled == []
    ensures Targets(csvs, AllowedLocales(None, enabled, csvs)) == csvs
  {
    var allowed := AllowedLocales(None, enabled, csvs);
    TargetsAllKept(csvs, allowed);
  }

  lemma {:induction false} TargetsAllKept(csvs: seq<Target>, allowed: set<string>)
    requires forall t :: t in csvs ==> t.locale in allowed
    ensures Targets(csvs, allowed) == csvs
    decreases |csvs|
  {
    if csvs != [] {
      var p := csvs[..|csvs| - 1];
      assert csvs == p + [csvs[|csvs| - 1]];
      TargetsAllKept(p, allowed);
    }
  }

  // ---------------------------------------------------------------- the run

  /** The dictionary kept for a finished worker: its summary, or the error dictionary. */
  function EntryOf(locale: string, out: WorkerOutcome): (row: Row)
    ensures out.Raised? ==> row == ErrorEntry(locale, out.message)
    ensures out.Returned? ==> row == out.row
  {
    match out
    case Raised(m) => ErrorEntry(locale, m)
    case Returned(row) => row
  }

  predicate Always(t: Target) { true }

  function ResultOf(worker: Target -> WorkerOutcome): Target -> Row {
    (t: Target) => EntryOf(t.locale, worker(t))
  }

  /** `results`: locale to entry, filled in target order; a later target with the same locale overwrites. */
  function Results(targets: seq<Target>, worker: Target -> WorkerOutcome): (d: Dict<string, Row>)
    ensures Valid(d)
  {
    PutAll(targets, Always, TargetLocale, ResultOf(worker))
  }

  /** Every target's locale has exactly one entry, the one of the last target with that locale. */
  lemma ResultsOnePerLocale(targets: seq<Target>, worker: Target -> WorkerOutcome)
    ensures var d := Results(targets, worker);
      forall loc :: loc in d.vals <==> HasKept(targets, Always, TargetLocale, loc)
    ensures var d := Results(targets, worker);
      forall loc :: loc in d.vals ==> FromLastKept(targets, Always, TargetLocale, ResultOf(worker), d, loc)
  {
    PutAllLastWins(targets, Always, TargetLocale, ResultOf(worker));
  }

  /** How the run ends: before any worker, or with the results dictionary. */
  datatype RunEnd = NoCsvFiles | ConfigRaised | NoTargets | Finished(results: Dict<string, Row>)

  /** `main` up to the results dictionary. */
  function RunSpec(listing: Option<seq<string>>, dataDir: string, cfgFile: LocaleLoader.LocalesFile,
                   cli: Option<string>, worker: Target -> WorkerOutcome): (r: RunEnd)
    ensures r.Finished? ==> listing.Some? && |r.results.keys| > 0
  {
    var csvs := LocaleCsvs(listing, dataDir);
    if csvs == [] then NoCsvFiles
    else
      var enabled := LocaleLoader.ResolvedEnabledLocales(LocaleLoader.AsDict(LocaleLoader.LoadLocalesConfig(cfgFile)));
      if enabled.None? then ConfigRaised
      else
        var targets := Targets(csvs, AllowedLocales(cli, enabled.value, csvs));
        if targets == [] then NoTargets
        else
          PutAllKey(targets, Always, TargetLocale, ResultOf(worker), targets[0].locale);
          Finished(Results(targets, worker))
  }

  /** The worker loop: each finished target's entry is stored under its locale. */
  method CollectResults(targets: seq<Target>, worker: Target -> WorkerOutcome) returns (results: Dict<string, Row>)
    ensures results == Results(targets, worker)
  {
    results := Empty();
    for i := 0 to |targets|
      invariant results == Results(targets[..i], worker)
    {
      PutAllStep(targets, i, Always, TargetLocale, ResultOf(worker));
      var loc := targets[i].locale;
      var res := worker(targets[i]);
      match res {
        case Returned(row) =>
          results := Put(results, loc, row);
        case Raised(m) =>
          results := Put(results, loc, ErrorEntry(loc, m));
      }
    }
    assert targets[..|targets|] == targets;
  }

  /** `main`: the early exits, the selection of targets and the results of their workers. */
  method Run(listing: Option<seq<string>>, dataDir: string, cfgFile: LocaleLoader.LocalesFile,
             cli: Option<string>, worker: Target -> WorkerOutcome) returns (end: RunEnd)
    ensures end == RunSpec(listing, dataDir, cfgFile, cli, worker)
  {
    var allCsvs := FindLocaleCsvs(listing, dataDir);
    if allCsvs == [] {
      return NoCsvFiles;
    }
    var cfg := LocaleLoader.LoadLocalesConfig(cfgFile);
    var enabled := LocaleLoader.ResolvedEnabledLocales(LocaleLoader.AsDict(cfg));
    if enabled.None? {
      return ConfigRaised;
    }
    var allowed := AllowedLocales(cli, enabled.value, allCsvs);
    var targets := Targets(allCsvs, allowed);
    if targets == [] {
      return NoTargets;
    }
    var results := CollectResults(targets, worker);
    end := Finished(results);
  }

  /** The worker as written, for a given environment. */
  function AsWrittenWorker(env: WorkerEnv): Target -> WorkerOutcome {
    (t: Target) => WorkerAsWritten(t, env)
  }

  /**
   * As written, no locale is ever crawled: every entry of the results is the error
   * dictionary of the NameError or a skip for an empty URL list.
   */
  lemma AsWrittenRunCrawlsNothing(targets: seq<Target>, env: WorkerEnv, loc: string)
    requires loc in Results(targets, AsWrittenWorker(env)).vals
    ensures var row := Results(targets, AsWrittenWorker(env)).vals[loc];
      "status" in row && (row["status"] == Str("error") || row["status"] == Str("skipped_no_urls"))
      && (row["status"] == Str("error") ==> row == ErrorEntry(loc, CfgNameError))
  {
    var d := Results(targets, AsWrittenWorker(env));
    PutAllValue(targets, Always, TargetLocale, ResultOf(AsWrittenWorker(env)), loc);
    var i :| LastKept(targets, Always, TargetLocale, loc, i) && d.vals[loc] == ResultOf(AsWrittenWorker(env))(targets[i]);
    assert d.vals[loc] == EntryOf(loc, WorkerAsWritten(targets[i], env));
  }

  /** The worker as intended, with the configuration's paths, the site base and an environment. */
  function IntendedWorker(paths: map<string, string>, base: string, env: WorkerEnv): Target -> WorkerOutcome {
    (t: Target) => Worker(t, paths, base, env)
  }

  /** With the intended worker, an entry is an error exactly when that locale's crawl raised. */
  lemma IntendedErrorsComeFromCrawl(targets: seq<Target>, paths: map<string, string>, base: string,
                                    env: WorkerEnv, loc: string)
    requires loc in Results(targets, IntendedWorker(paths, base, env)).vals
    ensures var row := Results(targets, IntendedWorker(paths, base, env)).vals[loc];
      "status" in row &&
      (row["status"] == Str("error") <==>
        exists i :: LastKept(targets, Always, TargetLocale, loc, i)
          && env.readUrls(targets[i].path) != []
          && CheckLocaleHomepage(loc, paths, base, env.head)
          && env.run(env.readUrls(targets[i].path)).RunRaised?)
  {
    var w := IntendedWorker(paths, base, env);
    var d := Results(targets, w);
    PutAllValue(targets, Always, TargetLocale, ResultOf(w), loc);
    var i :| LastKept(targets, Always, TargetLocale, loc, i) && d.vals[loc] == ResultOf(w)(targets[i]);
    assert d.vals[loc] == Worker(targets[i], paths, base, env).row;
  }
}
