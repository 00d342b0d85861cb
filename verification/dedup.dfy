/**
 * src/utils/dedup.py: URL normalisation and de-duplication before link checking.
 */
module Dedup {
  import opened Text
  import opened FirstByKey

  /** After a match of `c`, `.*$` can reach the end: no line break except a final one. */
  predicate RestReachesEnd(t: string) {
    forall k :: 0 <= k < |t| - 1 ==> t[k] != '\n'
  }

  /**
   * `re.sub(c + r".*$", "", s)`: the leftmost `c` from which `.` (anything but a line
   * break) runs to the end of the text, or to just before a final line break, is cut off
   * together with everything after it except that final line break.
   */
  function CutToEnd(s: string, c: char): (r: string)
    ensures |r| <= |s|
    ensures forall k :: 0 <= k < |r| ==> r[k] in s
    decreases |s|
  {
    if s == [] then []
    else if s[0] == c && RestReachesEnd(s[1..]) then (if |s| > 1 && s[|s| - 1] == '\n' then "\n" else [])
    else [s[0]] + CutToEnd(s[1..], c)
  }

  /** On text without line breaks the regular expression cuts at the first `c`. */
  lemma {:induction false} CutToEndWithoutBreaks(s: string, c: char)
    requires '\n' !in s
    ensures CutToEnd(s, c) == CutAt(s, c)
    decreases |s|
  {
    if s != [] && s[0] != c {
      CutToEndWithoutBreaks(s[1..], c);
    }
  }

  /** `normalize_url`: strip, lower-case, drop the fragment, then the query, then one trailing `/`. */
  function NormalizeUrl(url: string): (r: string)
    ensures |r| <= |url|
    ensures NoUpper(r)
  {
    LowerIdempotent(Strip(url));
    DropOneSlash(CutToEnd(CutToEnd(Lower(Strip(url)), '#'), '?'))
  }

  /** `u[:-1]` when `u` ends with `/`: one trailing slash goes. */
  function DropOneSlash(u: string): (r: string)
    ensures |r| <= |u| && r == u[..|r|]
  {
    if u != [] && u[|u| - 1] == '/' then u[..|u| - 1] else u
  }

  /** Lower-casing turns no other character into a line break. */
  lemma LowerKeepsNoBreak(s: string)
    requires '\n' !in s
    ensures '\n' !in Lower(s)
  {
    forall i | 0 <= i < |s| ensures Lower(s)[i] != '\n' {
      assert s[i] != '\n';
    }
  }

  /** A key cut at the first `c` of text without line breaks holds no line break. */
  lemma CutKeepsNoBreak(s: string, c: char)
    requires '\n' !in s
    ensures '\n' !in CutAt(s, c)
  {
    var r := CutAt(s, c);
    assert r == s[..|r|];
  }

  /**
   * For a URL without line breaks, the key is the lower-cased, stripped text before the first
   * `#`, then before the first `?`, less one trailing `/`: so it holds no `#`, no `?`, no
   * upper-case letter and does not start with whitespace.
   */
  lemma NormalizeUrlShape(url: string)
    requires '\n' !in url
    ensures var t := Lower(Strip(url));
            var u := CutAt(CutAt(t, '#'), '?');
            NormalizeUrl(url) == if EndsWith(u, "/") then u[..|u| - 1] else u
    ensures '#' !in NormalizeUrl(url) && '?' !in NormalizeUrl(url)
    ensures NoUpper(NormalizeUrl(url))
    ensures NormalizeUrl(url) == [] || !IsSpace(NormalizeUrl(url)[0])
  {
    var s := Strip(url);
    StripKeepsAbsent(url, '\n');
    KeyShape(s);
  }

  /** The key of stripped text, from the lower-casing on. */
  lemma KeyShape(s: string)
    requires '\n' !in s
    requires s == [] || !IsSpace(s[0])
    ensures var u := CutAt(CutAt(Lower(s), '#'), '?');
            var r := DropOneSlash(CutToEnd(CutToEnd(Lower(s), '#'), '?'));
            && r == (if EndsWith(u, "/") then u[..|u| - 1] else u)
            && '#' !in r && '?' !in r && NoUpper(r)
            && (r == [] || !IsSpace(r[0]))
  {
    var t := Lower(s);
    LowerIdempotent(s);
    assert t == [] || !IsSpace(t[0]);
    var u := CutStages(t);
    PrefixKeyShape(t, u);
  }

  /** Dropping one trailing `/` from a prefix of lower-case text that does not start with whitespace. */
  lemma PrefixKeyShape(t: string, u: string)
    requires |u| <= |t| && u == t[..|u|] && '#' !in u && '?' !in u
    requires NoUpper(t) && (t == [] || !IsSpace(t[0]))
    ensures var r := DropOneSlash(u);
            && r == (if EndsWith(u, "/") then u[..|u| - 1] else u)
            && '#' !in r && '?' !in r && NoUpper(r)
            && (r == [] || !IsSpace(r[0]))
  {
    var r := DropOneSlash(u);
    assert r == u[..|r|];
    assert r == t[..|r|];
  }

  /**
   * On lower-cased text without line breaks the two regular expressions cut at the first `#`
   * and then at the first `?`, leaving a prefix of the text.
   */
  lemma CutStages(t: string) returns (u: string)
    requires '\n' !in t
    ensures u == CutAt(CutAt(t, '#'), '?')
    ensures CutToEnd(CutToEnd(t, '#'), '?') == u
    ensures u == t[..|u|] && '#' !in u && '?' !in u
  {
    CutToEndWithoutBreaks(t, '#');
    var f := CutAt(t, '#');
    CutKeepsNoBreak(t, '#');
    CutToEndWithoutBreaks(f, '?');
    u := CutAt(f, '?');
    assert u == f[..|u|] && f == t[..|f|];
  }

  /**
   * Only one trailing `/` goes: a plain lower-case URL ending in `//` keeps one of them, so
   * `x//` and `x/` share a key while `x` does not.
   */
  lemma OneSlashRemoved(u: string)
    requires |u| >= 2 && !IsSpace(u[0]) && u[|u| - 2..] == "//"
    requires NoUpper(u) && '#' !in u && '?' !in u && '\n' !in u
    ensures NormalizeUrl(u) == u[..|u| - 1]
    ensures EndsWith(NormalizeUrl(u), "/")
  {
    assert u[|u| - 1] == '/';
    StripTrimmed(u);
    LowerNoUpper(u);
    CutToEndWithoutBreaks(u, '#');
    CutAtAbsent(u, '#');
    CutToEndWithoutBreaks(u, '?');
    CutAtAbsent(u, '?');
    assert CutToEnd(CutToEnd(Lower(Strip(u)), '#'), '?') == u;
    assert NormalizeUrl(u) == DropOneSlash(u);
    assert u[..|u| - 1][|u| - 2] == '/';
  }

  /**
   * Whitespace before a fragment survives: the stripping happens before the fragment is cut,
   * so `p #q` gets the key `p ` with its trailing whitespace.
   */
  lemma SpaceBeforeFragmentSurvives(p: string, q: string)
    requires p != [] && !IsSpace(p[0]) && IsSpace(p[|p| - 1])
    requires NoUpper(p) && '#' !in p && '?' !in p && '\n' !in p
    requires q != [] && !IsSpace(q[|q| - 1]) && '\n' !in q
    ensures NormalizeUrl(p + "#" + q) == p
    ensures IsSpace(NormalizeUrl(p + "#" + q)[|p| - 1])
  {
    var url := p + "#" + q;
    assert url[0] == p[0] && url[|url| - 1] == q[|q| - 1];
    StripTrimmed(url);
    FragmentCut(p, q);
  }

  /** Cutting the fragment and then the query of `p#q` leaves `p`, when `p` has neither. */
  lemma FragmentCut(p: string, q: string)
    requires NoUpper(p) && '#' !in p && '?' !in p && '\n' !in p && '\n' !in q
    ensures CutToEnd(CutToEnd(Lower(p + "#" + q), '#'), '?') == p
  {
    LowerAppend(p + "#", q);
    LowerAppend(p, "#");
    LowerNoUpper(p);
    assert Lower("#") == "#";
    var lq := Lower(q);
    LowerKeepsNoBreak(q);
    var t := Lower(p + "#" + q);
    assert t == p + ['#'] + lq;
    assert '\n' !in t by {
      forall i | 0 <= i < |t| ensures t[i] != '\n' {
        if i < |p| {
          assert t[i] == p[i];
        } else if i > |p| {
          assert t[i] == lq[i - |p| - 1];
        }
      }
    }
    CutToEndWithoutBreaks(t, '#');
    CutAtFirst(p, '#', lq);
    CutToEndWithoutBreaks(p, '?');
    CutAtAbsent(p, '?');
  }

  /**
   * `remove_duplicate_urls`: keeps, in input order, the first URL of each normalised key,
   * returning the original strings.
   */
  method RemoveDuplicateUrls(urls: seq<string>) returns (unique: seq<string>)
    ensures unique == Firsts(urls, NormalizeUrl, {})
  {
    unique := KeepFirsts(urls, NormalizeUrl);
  }

  /** The `seen` set loop of `remove_duplicate_urls`, for a given key function. */
  method KeepFirsts(urls: seq<string>, key: string -> string) returns (unique: seq<string>)
    ensures unique == Firsts(urls, key, {})
  {
    var seen: set<string> := {};
    unique := [];
    for i := 0 to |urls|
      invariant seen == KeysOf(urls[..i], key)
      invariant unique == Firsts(urls[..i], key, {})
    {
      var norm := key(urls[i]);
      FirstsStep(urls, i, key, {});
      if norm !in seen {
        seen := seen + {norm};
        unique := unique + [urls[i]];
      }
    }
    assert urls[..|urls|] == urls;
  }

  /**
   * What `remove_duplicate_urls` keeps: one URL per normalised key, for every key of the
   * input, each the first input URL with that key, in input order.
   */
  lemma RemoveDuplicateUrlsKeys(urls: seq<string>)
    ensures var unique := Firsts(urls, NormalizeUrl, {});
      && DistinctKeys(unique, NormalizeUrl)
      && KeysOf(unique, NormalizeUrl) == KeysOf(urls, NormalizeUrl)
  {
    FirstsDistinct(urls, NormalizeUrl, {});
  }

  lemma RemoveDuplicateUrlsFirsts(urls: seq<string>)
    ensures var unique, idx := Firsts(urls, NormalizeUrl, {}), FirstIndices(urls, NormalizeUrl, {});
      && |unique| == |idx|
      && (forall j :: 0 <= j < |unique| ==> unique[j] == urls[idx[j]])
      && (forall i :: IsFirst(urls, NormalizeUrl, {}, i) <==> i in idx)
  {
    FirstsSelect(urls, NormalizeUrl, {});
  }

  /** De-duplicating an already de-duplicated list returns it unchanged. */
  lemma RemoveDuplicateUrlsIdempotent(urls: seq<string>)
    ensures Firsts(Firsts(urls, NormalizeUrl, {}), NormalizeUrl, {}) == Firsts(urls, NormalizeUrl, {})
  {
    FirstsIdempotent(urls, NormalizeUrl, {});
  }
}
