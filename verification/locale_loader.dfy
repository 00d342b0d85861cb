/**
 * src/locales/loader.py: the locale configuration, read from `data/locales.json` or taken
 * from the built-in table, and the list of locale codes a run is enabled for.
 */
module LocaleLoader {
  import opened Wrappers
  import opened PyDict
  import opened Sorting

  /** A JSON document as `json.load` returns it (numbers kept to integers). */
  datatype Json =
    | JNull
    | JBool(b: bool)
    | JNumber(n: int)
    | JString(s: string)
    | JArray(items: seq<Json>)
    | JObject(members: Dict<string, Json>)

  /** `data/locales.json`: not there, unreadable or not JSON, or parsed. */
  datatype LocalesFile = Absent | Invalid | Parsed(doc: Json)

  /** The dictionary `load_locales_config` returns: `{"locales": ..., "released": ...}`. */
  datatype LocalesConfig = LocalesConfig(locales: Dict<string, Json>, released: Json)

  /** `list(d.keys())`, as a JSON list. */
  function KeyList(d: Dict<string, Json>): (r: Json)
    ensures r.JArray? && |r.items| == |d.keys|
    ensures forall i :: 0 <= i < |d.keys| ==> r.items[i] == JString(d.keys[i])
  {
    JArray(seq(|d.keys|, i requires 0 <= i < |d.keys| => JString(d.keys[i])))
  }

  /** The built-in locale codes, in table order. */
  const DefaultCodes: seq<string> := [
    "en", "es", "de", "fr", "it", "ja", "ko", "zhcn", "zhtw", "ptbr",
    "ptpt", "ru", "ar", "pl", "sv", "uk", "tr", "nb", "da"
  ]

  /** `DEFAULT_LOCALES`: each built-in code with its path on the site. */
  function DefaultLocales(): (d: Dict<string, Json>)
    ensures d.keys == DefaultCodes
  {
    Dict(DefaultCodes,
         map[
           "en" := JString(""), "es" := JString("es-es"), "de" := JString("de-de"), "fr" := JString("fr-fr"),
           "it" := JString("it-it"), "ja" := JString("ja-jp"), "ko" := JString("ko-kr"), "zhcn" := JString("zh-cn"),
           "zhtw" := JString("zh-tw"), "ptbr" := JString("pt-br"), "ptpt" := JString("pt-pt"), "ru" := JString("ru-ru"),
           "ar" := JString("ar-sa"), "pl" := JString("pl-pl"), "sv" := JString("sv-se"), "uk" := JString("uk-ua"),
           "tr" := JString("tr-tr"), "nb" := JString("nb-no"), "da" := JString("da-dk")])
  }

  /** The fallback configuration: the built-in table, every locale of it released. */
  function Fallback(): LocalesConfig {
    LocalesConfig(DefaultLocales(), KeyList(DefaultLocales()))
  }

  /**
   * `load_locales_config`: a parsed object whose `locales` (default `{}`) is an object gives
   * that object and its `released` (default: the locale keys, evaluated eagerly, which is
   * why a non-object `locales` raises and falls back); anything else falls back.
   */
  function LoadLocalesConfig(file: LocalesFile): (cfg: LocalesConfig)
    ensures cfg != Fallback() ==> file.Parsed? && file.doc.JObject?
    ensures !file.Parsed? ==> cfg == Fallback()
  {
    match file
    case Parsed(JObject(data)) =>
      var locales := Get(data, "locales", JObject(Empty()));
      if locales.JObject? then
        LocalesConfig(locales.members, Get(data, "released", KeyList(locales.members)))
      else Fallback()
    case _ => Fallback()
  }

  /** A loaded file without `released` has every locale of its `locales` object released. */
  lemma LoadedWithoutReleased(data: Dict<string, Json>, locales: Dict<string, Json>)
    requires "locales" in data.vals && data.vals["locales"] == JObject(locales)
    requires "released" !in data.vals
    ensures LoadLocalesConfig(Parsed(JObject(data))) == LocalesConfig(locales, KeyList(locales))
  {
  }

  /** The fallback releases exactly the built-in codes, in table order. */
  lemma FallbackReleasesEveryDefault()
    ensures var cfg := Fallback();
      && cfg.released.JArray? && |cfg.released.items| == |DefaultCodes|
      && forall i :: 0 <= i < |DefaultCodes| ==> cfg.released.items[i] == JString(DefaultCodes[i])
  {
  }

  /** The strings of a JSON list, if every item is a string. */
  function StringItems(items: seq<Json>): (r: Option<seq<string>>)
    ensures r.Some? <==> forall i :: 0 <= i < |items| ==> items[i].JString?
    ensures r.Some? ==> |r.value| == |items| && forall i :: 0 <= i < |items| ==> r.value[i] == items[i].s
  {
    if items == [] then Some([])
    else match (items[0], StringItems(items[1..]))
      case (JString(s), Some(rest)) => Some([s] + rest)
      case _ => None
  }

  /**
   * `sorted(released)` for a list of strings, an object (its keys) or a string (its
   * characters); otherwise it raises.
   */
  function SortedLocales(released: Json): (r: Option<seq<string>>)
    ensures r.Some? <==> released.JObject? || released.JString? || (released.JArray? && StringItems(released.items).Some?)
    ensures r.Some? ==> SortedBy(r.value, Id)
    ensures released.JArray? && r.Some? ==> multiset(r.value) == multiset(StringItems(released.items).value)
    ensures released.JObject? ==> multiset(r.value) == multiset(released.members.keys)
    ensures released.JString? ==> |r.value| == |released.s|
  {
    match released
    case JArray(items) =>
      (match StringItems(items)
       case Some(codes) => Some(SortStrings(codes))
       case None => None)
    case JObject(d) => Some(SortStrings(d.keys))
    case JString(s) => Some(SortStrings(seq(|s|, i requires 0 <= i < |s| => [s[i]])))
    case _ => None
  }

  /** The configuration as the dictionary `resolved_enabled_locales` receives. */
  function AsDict(cfg: LocalesConfig): (d: Dict<string, Json>)
    ensures Valid(d) && d.vals.Keys == {"locales", "released"}
  {
    Dict(["locales", "released"], map["locales" := JObject(cfg.locales), "released" := cfg.released])
  }

  /**
   * `resolved_enabled_locales`: `[]` for an empty configuration, otherwise `released`
   * (default: the keys of `locales`) sorted; None where the source raises.
   */
  function ResolvedEnabledLocales(cfg: Dict<string, Json>): (r: Option<seq<string>>)
    ensures cfg.vals == map[] ==> r == Some([])
    ensures r.Some? ==> SortedBy(r.value, Id)
  {
    if cfg.vals == map[] then Some([])
    else
      var locales := Get(cfg, "locales", JObject(Empty()));
      if !locales.JObject? then None
      else SortedLocales(Get(cfg, "released", KeyList(locales.members)))
  }

  /** An empty configuration enables nothing. */
  lemma EmptyConfigEnablesNothing(cfg: Dict<string, Json>)
    requires cfg.vals == map[]
    ensures ResolvedEnabledLocales(cfg) == Some([])
  {
  }

  /**
   * A configuration whose `released` is a list of strings enables exactly those codes,
   * sorted: the result is ordered and has the same elements, duplicates included.
   */
  lemma ReleasedListIsSorted(cfg: LocalesConfig, codes: seq<string>)
    requires cfg.released == JArray(seq(|codes|, i requires 0 <= i < |codes| => JString(codes[i])))
    ensures var r := ResolvedEnabledLocales(AsDict(cfg));
      r.Some? && SortedBy(r.value, Id) && multiset(r.value) == multiset(codes)
  {
    var items := cfg.released.items;
    assert forall i :: 0 <= i < |items| ==> items[i].JString?;
    var strs := StringItems(items).value;
    assert strs == codes;
  }

  /**
   * A `released` that is a string rather than a list enables its single characters, sorted:
   * `sorted` iterates over the string.
   */
  lemma ReleasedTextEnablesCharacters(cfg: LocalesConfig, s: string)
    requires cfg.released == JString(s)
    ensures var r := ResolvedEnabledLocales(AsDict(cfg));
      r.Some? && SortedBy(r.value, Id) && |r.value| == |s|
      && forall c :: c in r.value ==> |c| == 1 && c[0] in s
  {
    var chars := seq(|s|, i requires 0 <= i < |s| => [s[i]]);
    var r := SortStrings(chars);
    assert |r| == |multiset(r)| == |multiset(chars)| == |chars|;
    forall c | c in r ensures |c| == 1 && c[0] in s {
      assert c in multiset(chars);
    }
  }

  /** Without `released`, every key of `locales` is enabled, in sorted order. */
  lemma ReleasedDefaultsToLocaleKeys(cfg: Dict<string, Json>, locales: Dict<string, Json>)
    requires cfg.vals != map[]
    requires "locales" in cfg.vals && cfg.vals["locales"] == JObject(locales)
    requires "released" !in cfg.vals
    ensures var r := ResolvedEnabledLocales(cfg);
      r.Some? && SortedBy(r.value, Id) && multiset(r.value) == multiset(locales.keys)
  {
    var items := KeyList(locales).items;
    var strs := StringItems(items).value;
    assert strs == locales.keys;
  }
}
