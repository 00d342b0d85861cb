/**
 * src/locales/updater.py: reads the site's language switcher and writes the locale
 * configuration file from it.
 */
module LocaleUpdater {
  import opened Wrappers
  import opened Text
  import opened PyDict
  import opened LocaleLoader
  import opened Sorting

  const SiteRoot: string := "https://kwalee.com"

  /** An `<a>` element of the home page: its `href` attribute, if any. */
  datatype Anchor = Anchor(href: Option<string>)

  /** The GET of the site root: it raised, or answered with a status and the page's anchors. */
  datatype SiteFetch = FetchRaised | SitePage(status: int, anchors: seq<Anchor>)

  /** `a.get("href") or ""`. */
  function HrefOf(a: Anchor): string {
    if a.href.Some? then a.href.value else ""
  }

  /** Only hrefs mentioning `/en`, `/es` or `/de` are looked at. */
  predicate Considered(href: string) {
    Contains(href, "/en") || Contains(href, "/es") || Contains(href, "/de")
  }

  /** The path: what follows the last site root, without `/` at either end. */
  function PathOf(href: string): (path: string)
    ensures path == [] || (path[0] != '/' && path[|path| - 1] != '/')
    ensures !Contains(href, SiteRoot) ==> path == StripChar(href, '/')
  {
    StripChar(LastPiece(href, SiteRoot), '/')
  }

  /** The code: the first segment of the path, `""` for an empty path. */
  function CodeOf(href: string): (code: string)
    ensures '/' !in code
    ensures |code| <= |PathOf(href)| && code == PathOf(href)[..|code|]
    ensures code == [] <==> PathOf(href) == [] || PathOf(href)[0] == '/'
  {
    var path := PathOf(href);
    if path != "" then CutAt(path, '/') else ""
  }

  /** An anchor that adds an entry: considered and with a non-empty code. */
  predicate Contributes(a: Anchor) {
    Considered(HrefOf(a)) && CodeOf(HrefOf(a)) != ""
  }

  function AnchorCode(a: Anchor): string { CodeOf(HrefOf(a)) }

  function AnchorPath(a: Anchor): string { PathOf(HrefOf(a)) }

  /** The mapping the anchor loop builds, code to path; a later anchor overwrites an earlier one. */
  function SwitcherMapping(anchors: seq<Anchor>): (m: Dict<string, string>)
    ensures Valid(m)
  {
    PutAll(anchors, Contributes, AnchorCode, AnchorPath)
  }

  /**
   * Each code of the mapping is the non-empty code of a considered anchor, mapped to the
   * path of the last anchor with that code; every such anchor's code is a key.
   */
  lemma SwitcherMappingLastWins(anchors: seq<Anchor>)
    ensures var m := SwitcherMapping(anchors);
      forall code :: code in m.vals <==> HasKept(anchors, Contributes, AnchorCode, code)
    ensures var m := SwitcherMapping(anchors);
      forall code :: code in m.vals ==> FromLastKept(anchors, Contributes, AnchorCode, AnchorPath, m, code)
  {
    PutAllLastWins(anchors, Contributes, AnchorCode, AnchorPath);
  }

  /** Every code of the mapping is non-empty and a single path segment. */
  lemma SwitcherCodesAreSegments(anchors: seq<Anchor>, code: string)
    requires code in SwitcherMapping(anchors).vals
    ensures code != "" && '/' !in code
  {
    SwitcherMappingLastWins(anchors);
    var i :| 0 <= i < |anchors| && Contributes(anchors[i]) && AnchorCode(anchors[i]) == code;
  }

  /**
   * `fetch_language_switcher`: the anchor loop over the page, None when the request raised,
   * the status is an HTTP error (400 to 599), or no anchor contributed.
   */
  method FetchLanguageSwitcher(site: SiteFetch) returns (mapping: Option<Dict<string, string>>)
    ensures mapping == SwitcherResult(site)
  {
    if site.FetchRaised? || 400 <= site.status < 600 {
      return None;
    }
    var m: Dict<string, string> := Empty();
    var anchors := site.anchors;
    for i := 0 to |anchors|
      invariant m == SwitcherMapping(anchors[..i])
    {
      var href := HrefOf(anchors[i]);
      PutAllStep(anchors, i, Contributes, AnchorCode, AnchorPath);
      if Considered(href) {
        var path := PathOf(href);
        var code := if path != "" then CutAt(path, '/') else "";
        if code != "" {
          m := Put(m, code, path);
        }
      }
    }
    assert anchors[..|anchors|] == anchors;
    mapping := if |m.vals| == 0 then None else Some(m);
  }

  /** What `fetch_language_switcher` returns for a given fetch. */
  function SwitcherResult(site: SiteFetch): (r: Option<Dict<string, string>>)
    ensures r.Some? ==> site.SitePage? && !(400 <= site.status < 600) && |r.value.vals| > 0
  {
    if site.FetchRaised? || 400 <= site.status < 600 then None
    else
      var m := SwitcherMapping(site.anchors);
      if |m.vals| == 0 then None else Some(m)
  }

  /** A page none of whose anchors contributes gives None. */
  lemma NoContributionNoMapping(site: SiteFetch)
    requires site.SitePage? && forall i :: 0 <= i < |site.anchors| ==> !Contributes(site.anchors[i])
    ensures SwitcherResult(site) == None
  {
    SwitcherMappingLastWins(site.anchors);
    var m := SwitcherMapping(site.anchors);
    assert m.vals == map[];
  }

  /** The document `run` writes: the codes, in first-seen order, and the code-to-path map. */
  function UpdaterDoc(mapping: Dict<string, string>): (doc: Json)
    ensures doc.JObject? && doc.members.keys == ["enabled_locales", "locales_map"]
  {
    var codes := JArray(seq(|mapping.keys|, i requires 0 <= i < |mapping.keys| => JString(mapping.keys[i])));
    var paths := Dict(mapping.keys, map k | k in mapping.vals :: JString(mapping.vals[k]));
    JObject(Dict(["enabled_locales", "locales_map"],
                 map["enabled_locales" := codes, "locales_map" := JObject(paths)]))
  }


  /**
   * The updater and the loader disagree on key names: a file the updater wrote loads with no
   * locales and nothing released, so no locale is enabled from it.
   */
  lemma UpdaterOutputEnablesNothing(mapping: Dict<string, string>)
    ensures LoadLocalesConfig(Parsed(UpdaterDoc(mapping))) == LocalesConfig(Empty(), JArray([]))
    ensures ResolvedEnabledLocales(AsDict(LoadLocalesConfig(Parsed(UpdaterDoc(mapping))))) == Some([])
  {
    var doc := UpdaterDoc(mapping);
    assert "locales" !in doc.members.vals && "released" !in doc.members.vals;
    assert KeyList(Empty<string, Json>()) == JArray([]);
    var cfg := LoadLocalesConfig(Parsed(doc));
    assert StringItems([]) == Some([]);
  }

  /**
   * The document under the names the loader reads: the code-to-path map as `locales` and the
   * codes, in first-seen order, as `released`.
   */
  function LoaderDoc(mapping: Dict<string, string>): (doc: Json)
    ensures doc.JObject? && doc.members.keys == ["locales", "released"]
  {
    var codes := JArray(seq(|mapping.keys|, i requires 0 <= i < |mapping.keys| => JString(mapping.keys[i])));
    var paths := Dict(mapping.keys, map k | k in mapping.vals :: JString(mapping.vals[k]));
    JObject(Dict(["locales", "released"], map["locales" := JObject(paths), "released" := codes]))
  }

  /** A file written under the loader's names enables exactly the fetched codes, sorted. */
  lemma LoaderDocEnablesCodes(mapping: Dict<string, string>)
    ensures var r := ResolvedEnabledLocales(AsDict(LoadLocalesConfig(Parsed(LoaderDoc(mapping)))));
      r.Some? && SortedBy(r.value, Id) && multiset(r.value) == multiset(mapping.keys)
  {
    var doc := LoaderDoc(mapping);
    var cfg := LoadLocalesConfig(Parsed(doc));
    assert cfg.released == doc.members.vals["released"];
    ReleasedListIsSorted(cfg, mapping.keys);
  }

  /**
   * `run`: with no mapping nothing is written and the answer is false; otherwise the
   * document is written, under the names the loader reads, and the answer is true.
   */
  method Run(site: SiteFetch) returns (written: Option<Json>, ok: bool)
    ensures ok <==> SwitcherResult(site).Some?
    ensures written == if ok then Some(LoaderDoc(SwitcherResult(site).value)) else None
  {
    var mapping := FetchLanguageSwitcher(site);
    if mapping.None? {
      return None, false;
    }
    written := Some(LoaderDoc(mapping.value));
    ok := true;
  }
}
