/**
 * src/analytics/metrics_builder.py: gathers each locale's summary history into a short
 * series and rolls the latest summaries up into global totals.
 */
module MetricsBuilder {
  import opened Wrappers
  import opened Text
  import opened PyDict
  import opened Sorting

  /** A row of a summary CSV, column to cell; a missing value (NaN) is `Null`. */
  type CsvRow = map<string, Cell>

  /** A summary CSV as pandas reads it: its columns and rows. */
  datatype Table = Table(columns: seq<string>, rows: seq<CsvRow>)

  /** A `summary_history_*.csv` file: its path, and its table unless reading it raised. */
  datatype SummaryFile = SummaryFile(path: string, table: Option<Table>)

  /** One point of a locale's series. */
  datatype Point = Point(
    runTime: Cell, pagesChecked: int, totalLinksFound: int, uniqueLinks: int,
    brokenLinks: int, status: Cell)

  /** A locale's entry: the run time and summary of its last point, and the series. */
  datatype LocaleData = LocaleData(latestRun: Option<Cell>, series: seq<Point>, summary: Option<Point>)

  const KeepRuns: nat := 14

  /** `df.empty`: no rows or no columns. */
  predicate EmptyTable(t: Table) {
    t.rows == [] || t.columns == []
  }

  /** `r.get(k, default)`. */
  function CellOf(r: CsvRow, k: string, default: Cell): Cell {
    if k in r then r[k] else default
  }

  // ---------------------------------------------------------------- number text

  /** Decimal digits with single underscores between them, as `int` and `float` read them. */
  predicate DigitPart(s: string) {
    && s != [] && IsAsciiDigit(s[0]) && IsAsciiDigit(s[|s| - 1])
    && forall i :: 0 <= i < |s| ==> IsAsciiDigit(s[i]) || (s[i] == '_' && i + 1 < |s| && IsAsciiDigit(s[i + 1]))
  }

  /** The text after one optional leading `+` or `-`. */
  function Unsigned(s: string): (r: string)
    ensures r == s || (s != [] && (s[0] == '+' || s[0] == '-') && r == s[1..])
  {
    if s != [] && (s[0] == '+' || s[0] == '-') then s[1..] else s
  }

  /** The digits of a digit part, its underscores dropped. */
  function Digits(s: string): (r: string)
    ensures '_' !in r
    decreases |s|
  {
    if s == [] then [] else (if s[0] == '_' then [] else [s[0]]) + Digits(s[1..])
  }

  lemma {:induction false} DigitsOfPlainDigits(s: string)
    requires '_' !in s
    ensures Digits(s) == s
    decreases |s|
  {
    if s != [] {
      DigitsOfPlainDigits(s[1..]);
    }
  }

  /** A digit part holds only digits and underscores. */
  lemma DigitPartChars(s: string, k: int)
    requires DigitPart(s) && 0 <= k < |s|
    ensures IsAsciiDigit(s[k]) || s[k] == '_'
  {
    assert IsAsciiDigit(s[k]) || (s[k] == '_' && k + 1 < |s| && IsAsciiDigit(s[k + 1]));
  }

  /** Plain decimal digits form a digit part. */
  lemma PlainDigitsArePart(s: string)
    requires s != [] && forall k :: 0 <= k < |s| ==> IsAsciiDigit(s[k])
    ensures DigitPart(s) && '_' !in s
  {
    assert IsAsciiDigit(s[0]) && IsAsciiDigit(s[|s| - 1]);
    forall k | 0 <= k < |s| ensures s[k] != '_' {
      assert IsAsciiDigit(s[k]);
    }
  }

  /**
   * `int(v)`: integers and booleans convert; text converts when, once stripped, it is an
   * optionally signed digit part; the rest raises.
   */
  function IntOf(c: Cell): (r: Option<int>)
    ensures c.Int? ==> r == Some(c.i)
    ensures c.Bool? ==> r == Some(if c.b then 1 else 0)
    ensures c.Null? ==> r.None?
    ensures c.Str? ==> (r.Some? <==> DigitPart(Unsigned(Strip(c.s))))
  {
    match c
    case Int(i) => Some(i)
    case Bool(b) => Some(if b then 1 else 0)
    case Str(s) =>
      var u := Strip(s);
      var d := Unsigned(u);
      if DigitPart(d) then
        var n := ParseNat(Digits(d)) as int;
        Some(if StartsWith(u, "-") then -n else n)
      else None
    case Null => None
  }

  /** `str(n)` read back by `int` gives `n`. */
  lemma IntOfIntText(n: int)
    ensures IntOf(Str(IntToString(n))) == Some(n)
  {
    var m: nat := if n < 0 then -n else n;
    IntOfSignedDigits(NatToString(m), n < 0);
    NatToStringRoundTrip(m);
  }

  /** Decimal digits, with or without a leading `-`, are read by `int` as their value. */
  lemma IntOfSignedDigits(t: string, neg: bool)
    requires t != [] && forall k :: 0 <= k < |t| ==> IsAsciiDigit(t[k])
    ensures IntOf(Str(if neg then "-" + t else t)) == Some(if neg then -(ParseNat(t) as int) else ParseNat(t) as int)
  {
    var s := if neg then "-" + t else t;
    SignedDigitsText(t, neg);
    PlainDigitsArePart(t);
    DigitsOfPlainDigits(t);
    UnsignedDigitText(s, t);
  }

  /** Signed decimal digits carry no surrounding space and one sign at most. */
  lemma SignedDigitsText(t: string, neg: bool)
    requires t != [] && forall k :: 0 <= k < |t| ==> IsAsciiDigit(t[k])
    ensures var s := if neg then "-" + t else t;
      Strip(s) == s && Unsigned(s) == t && (StartsWith(s, "-") <==> neg)
  {
    var s := if neg then "-" + t else t;
    assert s[|s| - 1] == t[|t| - 1];
    assert IsAsciiDigit(t[0]) && IsAsciiDigit(t[|t| - 1]);
    StripTrimmed(s);
    if neg {
      assert s[0] == '-' && s[1..] == t;
    } else {
      assert s[0] == t[0];
    }
  }

  /** Stripped text whose unsigned part is a digit part without underscores reads as its digits. */
  lemma UnsignedDigitText(s: string, t: string)
    requires Strip(s) == s && Unsigned(s) == t && DigitPart(t) && Digits(t) == t
    ensures IntOf(Str(s)) == Some(if StartsWith(s, "-") then -(ParseNat(t) as int) else ParseNat(t) as int)
  {
  }

  /** The index of the first `e` or `E`, or the length when there is none. */
  function ExponentAt(s: string): (i: nat)
    ensures i <= |s| && (i < |s| ==> s[i] == 'e' || s[i] == 'E')
    ensures forall k :: 0 <= k < i ==> s[k] != 'e' && s[k] != 'E'
    decreases |s|
  {
    if s == [] || s[0] == 'e' || s[0] == 'E' then 0 else 1 + ExponentAt(s[1..])
  }

  /** The first `e` or `E` at `i`, or none when `i` is the length. */
  lemma {:induction false} ExponentAtFirst(s: string, i: nat)
    requires i <= |s| && (i < |s| ==> s[i] == 'e' || s[i] == 'E')
    requires forall k :: 0 <= k < i ==> s[k] != 'e' && s[k] != 'E'
    ensures ExponentAt(s) == i
    decreases i
  {
    if i > 0 {
      ExponentAtFirst(s[1..], i - 1);
    }
  }

  /** A digit part holds no `e`, `E` or `.`. */
  lemma DigitPartPlain(s: string)
    requires DigitPart(s)
    ensures forall k :: 0 <= k < |s| ==> s[k] != 'e' && s[k] != 'E' && s[k] != '.'
  {
    forall k | 0 <= k < |s| ensures s[k] != 'e' && s[k] != 'E' && s[k] != '.' {
      DigitPartChars(s, k);
    }
  }

  /** A mantissa: digits, digits and a point, a point and digits, or both around a point. */
  predicate MantissaText(m: string) {
    var a := CutAt(m, '.');
    if |a| == |m| then DigitPart(m)
    else
      var b := m[|a| + 1..];
      (a != [] || b != []) && (a == [] || DigitPart(a)) && (b == [] || DigitPart(b))
  }

  /** An unsigned decimal float: a mantissa and an optional exponent with its own sign. */
  predicate DecimalText(s: string) {
    var i := ExponentAt(s);
    MantissaText(s[..i]) && (i == |s| || DigitPart(Unsigned(s[i + 1..])))
  }

  /** Text `float` accepts once stripped: a signed decimal, or `inf`, `infinity`, `nan` in any case. */
  predicate FloatText(u: string) {
    var d := Unsigned(u);
    Lower(d) == "inf" || Lower(d) == "infinity" || Lower(d) == "nan" || DecimalText(d)
  }

  /** `float(v)` does not raise: a number, a missing value (NaN), or float text. */
  predicate FloatOk(c: Cell) {
    !c.Str? || FloatText(Strip(c.s))
  }

  /** Text that `int` reads, `float` reads too. */
  lemma IntTextIsFloatText(s: string)
    requires IntOf(Str(s)).Some?
    ensures FloatOk(Str(s))
  {
    var d := Unsigned(Strip(s));
    assert DigitPart(d);
    DigitPartPlain(d);
    ExponentAtFirst(d, |d|);
    assert d[..|d|] == d;
    CutAtAbsent(d, '.');
    assert DecimalText(d);
  }

  /** `inf`, `infinity` and `nan`, in any case and with either sign, are float text. */
  lemma SpecialFloatText(name: string)
    requires Lower(name) == "inf" || Lower(name) == "infinity" || Lower(name) == "nan"
    ensures FloatText(name) && FloatText("-" + name) && FloatText("+" + name)
  {
    assert LowerChar(name[0]) == 'i' || LowerChar(name[0]) == 'n';
    assert Unsigned(name) == name;
    assert Unsigned("-" + name) == name && Unsigned("+" + name) == name;
  }

  /** A point between two digit parts, and an exponent after, is float text. */
  lemma FractionIsFloatText(a: string, b: string, e: string)
    requires DigitPart(a) && DigitPart(b) && DigitPart(e)
    ensures FloatText(a + "." + b + "e" + e)
  {
    var m := a + "." + b;
    var s := m + "e" + e;
    DigitPartPlain(a);
    DigitPartPlain(b);
    forall k | 0 <= k < |m| ensures s[k] != 'e' && s[k] != 'E' {
      if k < |a| {
        assert s[k] == a[k];
      } else if k > |a| {
        assert s[k] == b[k - |a| - 1];
      }
    }
    ExponentAtFirst(s, |m|);
    assert s[..|m|] == m && s[|m| + 1..] == e;
    assert '.' !in a;
    CutAtFirst(a, '.', b);
    assert m[|a| + 1..] == b;
    assert MantissaText(m);
    assert Unsigned(e) == e;
    assert s[0] == a[0];
    assert Unsigned(s) == s;
    assert DecimalText(s);
  }

  /** The series point of a row, or None where a conversion raises. */
  function PointOf(r: CsvRow): (p: Option<Point>)
    ensures p.Some? <==>
      && IntOf(CellOf(r, "pages_checked", Int(0))).Some?
      && IntOf(CellOf(r, "total_links_found", Int(0))).Some?
      && IntOf(CellOf(r, "unique_links", Int(0))).Some?
      && IntOf(CellOf(r, "broken_links", Int(0))).Some?
      && FloatOk(CellOf(r, "duration_mins", Int(0))) && FloatOk(CellOf(r, "success_rate", Int(0)))
    ensures p.Some? ==>
      && p.value.runTime == CellOf(r, "run_time", Null)
      && p.value.status == CellOf(r, "status", Str(""))
      && Some(p.value.pagesChecked) == IntOf(CellOf(r, "pages_checked", Int(0)))
      && Some(p.value.totalLinksFound) == IntOf(CellOf(r, "total_links_found", Int(0)))
      && Some(p.value.uniqueLinks) == IntOf(CellOf(r, "unique_links", Int(0)))
      && Some(p.value.brokenLinks) == IntOf(CellOf(r, "broken_links", Int(0)))
  {
    var pages := IntOf(CellOf(r, "pages_checked", Int(0)));
    var total := IntOf(CellOf(r, "total_links_found", Int(0)));
    var unique := IntOf(CellOf(r, "unique_links", Int(0)));
    var broken := IntOf(CellOf(r, "broken_links", Int(0)));
    if pages.Some? && total.Some? && unique.Some? && broken.Some?
       && FloatOk(CellOf(r, "duration_mins", Int(0))) && FloatOk(CellOf(r, "success_rate", Int(0)))
    then Some(Point(CellOf(r, "run_time", Null), pages.value, total.value, unique.value, broken.value,
                    CellOf(r, "status", Str(""))))
    else None
  }

  /** A row missing every counted column converts, with zero counts. */
  lemma MissingCountsAreZero(r: CsvRow)
    requires forall k :: k in r ==> k == "run_time" || k == "status"
    ensures PointOf(r).Some?
    ensures var p := PointOf(r).value;
      p.pagesChecked == 0 && p.totalLinksFound == 0 && p.uniqueLinks == 0 && p.brokenLinks == 0
  {
    assert "pages_checked" !in r && "total_links_found" !in r && "unique_links" !in r && "broken_links" !in r;
    assert "duration_mins" !in r && "success_rate" !in r;
  }

  // ---------------------------------------------------------------- ordering the rows

  /** A row with a run time; a missing one is NaN to pandas. */
  predicate HasRunTime(r: CsvRow) {
    "run_time" in r && r["run_time"].Str?
  }

  /** The sort key of `sort_values("run_time")` for a row with a run time: its text. */
  function RunTimeKey(r: CsvRow): (k: string)
    ensures HasRunTime(r) ==> k == r["run_time"].s
  {
    if HasRunTime(r) then r["run_time"].s else ""
  }

  /** The rows with a run time, in input order. */
  function Timed(rows: seq<CsvRow>): (t: seq<CsvRow>)
    ensures forall i :: 0 <= i < |t| ==> HasRunTime(t[i])
    decreases |rows|
  {
    if rows == [] then [] else (if HasRunTime(rows[0]) then [rows[0]] else []) + Timed(rows[1..])
  }

  /** The rows without a run time, in input order. */
  function Untimed(rows: seq<CsvRow>): (u: seq<CsvRow>)
    ensures forall i :: 0 <= i < |u| ==> !HasRunTime(u[i])
    decreases |rows|
  {
    if rows == [] then [] else (if HasRunTime(rows[0]) then [] else [rows[0]]) + Untimed(rows[1..])
  }

  /** Splitting by run time loses and adds no row. */
  lemma {:induction false} TimedUntimedSplit(rows: seq<CsvRow>)
    ensures multiset(Timed(rows)) + multiset(Untimed(rows)) == multiset(rows)
    decreases |rows|
  {
    if rows != [] {
      TimedUntimedSplit(rows[1..]);
      assert rows == [rows[0]] + rows[1..];
    }
  }

  lemma {:induction false} UntimedAppend(a: seq<CsvRow>, b: seq<CsvRow>)
    ensures Untimed(a + b) == Untimed(a) + Untimed(b)
    decreases |a|
  {
    if a != [] {
      UntimedAppend(a[1..], b);
      assert (a + b)[1..] == a[1..] + b;
    } else {
      assert a + b == b;
    }
  }

  /** Untimed keeps exactly the rows of a sequence that lacks run times. */
  lemma {:induction false} UntimedOfUntimed(s: seq<CsvRow>)
    ensures Untimed(Timed(s)) == [] && Untimed(Untimed(s)) == Untimed(s)
    decreases |s|
  {
    if s != [] {
      UntimedOfUntimed(s[1..]);
      var h := if HasRunTime(s[0]) then [s[0]] else [];
      UntimedAppend(h, Timed(s[1..]));
      var g := if HasRunTime(s[0]) then [] else [s[0]];
      UntimedAppend(g, Untimed(s[1..]));
    }
  }

  /**
   * pandas' order with `na_position='last'`: rows with a run time ascending by it, every
   * row without one after them.
   */
  ghost predicate InRunTimeOrder(s: seq<CsvRow>) {
    forall i, j :: 0 <= i < j < |s| ==>
      && (!HasRunTime(s[i]) ==> !HasRunTime(s[j]))
      && (HasRunTime(s[i]) && HasRunTime(s[j]) ==> LessEq(RunTimeKey(s[i]), RunTimeKey(s[j])))
  }

  /** Every item of a permutation of rows with run times has one. */
  lemma AllTimed(s: seq<CsvRow>, t: seq<CsvRow>)
    requires multiset(s) == multiset(t) && forall i :: 0 <= i < |t| ==> HasRunTime(t[i])
    ensures forall i :: 0 <= i < |s| ==> HasRunTime(s[i])
  {
    forall i | 0 <= i < |s| ensures HasRunTime(s[i]) {
      assert s[i] in multiset(t);
    }
  }

  /**
   * `sort_values("run_time")`: the rows with a run time sorted by it, then the rows without
   * one in input order.
   */
  function Ordered(rows: seq<CsvRow>): (o: seq<CsvRow>)
    ensures |o| == |rows|
  {
    TimedUntimedSplit(rows);
    assert |multiset(rows)| == |Timed(rows)| + |Untimed(rows)|;
    SortBy(Timed(rows), RunTimeKey) + Untimed(rows)
  }

  /**
   * The order is pandas' with `na_position='last'`: a permutation of the rows, ascending by
   * run time, with the rows lacking one last and in their input order.
   */
  lemma OrderedIsRunTimeOrder(rows: seq<CsvRow>)
    ensures multiset(Ordered(rows)) == multiset(rows)
    ensures InRunTimeOrder(Ordered(rows))
    ensures Untimed(Ordered(rows)) == Untimed(rows)
  {
    var sorted := SortBy(Timed(rows), RunTimeKey);
    var rest := Untimed(rows);
    assert Ordered(rows) == sorted + rest;
    TimedUntimedSplit(rows);
    AllTimed(sorted, Timed(rows));
    UntimedAppend(sorted, rest);
    UntimedOfUntimed(rows);
    UntimedNone(sorted);
    ConcatInRunTimeOrder(sorted, rest);
  }

  /** Sorted rows with run times, followed by rows without, are in run time order. */
  lemma ConcatInRunTimeOrder(a: seq<CsvRow>, b: seq<CsvRow>)
    requires SortedBy(a, RunTimeKey) && forall i :: 0 <= i < |a| ==> HasRunTime(a[i])
    requires forall i :: 0 <= i < |b| ==> !HasRunTime(b[i])
    ensures InRunTimeOrder(a + b)
  {
    var s := a + b;
    forall i, j | 0 <= i < j < |s|
      ensures !HasRunTime(s[i]) ==> !HasRunTime(s[j])
      ensures HasRunTime(s[i]) && HasRunTime(s[j]) ==> LessEq(RunTimeKey(s[i]), RunTimeKey(s[j]))
    {
      if j < |a| {
        assert s[i] == a[i] && s[j] == a[j];
      } else if i < |a| {
        assert s[i] == a[i] && s[j] == b[j - |a|];
      } else {
        assert s[j] == b[j - |a|];
      }
    }
  }

  /** A sequence of rows that all have run times has no untimed rows. */
  lemma {:induction false} UntimedNone(s: seq<CsvRow>)
    requires forall i :: 0 <= i < |s| ==> HasRunTime(s[i])
    ensures Untimed(s) == []
    decreases |s|
  {
    if s != [] {
      UntimedNone(s[1..]);
    }
  }

  /** `tail(n)`: the last `n` items. */
  function Tail<T>(s: seq<T>, n: nat): (r: seq<T>)
    ensures |r| == if |s| <= n then |s| else n
    ensures r == s[|s| - |r|..]
  {
    if |s| <= n then s else s[|s| - n..]
  }

  /**
   * The rows that make the series: the last fourteen in run time order, so the latest
   * runs, or the rows without a run time when there are any.
   */
  function LatestRows(t: Table): (rows: seq<CsvRow>)
    ensures |rows| == if |t.rows| <= KeepRuns then |t.rows| else KeepRuns
    ensures rows == Ordered(t.rows)[|t.rows| - |rows|..]
  {
    Tail(Ordered(t.rows), KeepRuns)
  }

  /**
   * The kept rows are in run time order; a dropped row with a run time is no later than any
   * kept one, and once a row without a run time is dropped, every kept row lacks one.
   */
  lemma LatestRowsAreTheLatest(t: Table)
    ensures InRunTimeOrder(LatestRows(t))
    ensures var o, rows := Ordered(t.rows), LatestRows(t);
      forall i, j :: 0 <= i < |o| - |rows| <= j < |o| ==>
        && (!HasRunTime(o[i]) ==> !HasRunTime(o[j]))
        && (HasRunTime(o[i]) && HasRunTime(o[j]) ==> LessEq(RunTimeKey(o[i]), RunTimeKey(o[j])))
    ensures var rows := LatestRows(t);
      forall j :: 0 <= j < |rows| ==> rows[j] in multiset(t.rows)
  {
    var o, rows := Ordered(t.rows), LatestRows(t);
    OrderedIsRunTimeOrder(t.rows);
    var d := |o| - |rows|;
    assert rows == o[d..];
    SuffixInRunTimeOrder(o, d);
    SuffixInMultiset(o, t.rows, d);
  }

  /** A suffix of rows in run time order is in run time order. */
  lemma SuffixInRunTimeOrder(o: seq<CsvRow>, d: nat)
    requires d <= |o| && InRunTimeOrder(o)
    ensures InRunTimeOrder(o[d..])
  {
    var rows := o[d..];
    forall i, j | 0 <= i < j < |rows|
      ensures !HasRunTime(rows[i]) ==> !HasRunTime(rows[j])
      ensures HasRunTime(rows[i]) && HasRunTime(rows[j]) ==> LessEq(RunTimeKey(rows[i]), RunTimeKey(rows[j]))
    {
      assert rows[i] == o[d + i] && rows[j] == o[d + j];
    }
  }

  /** Every row of a suffix of a permutation of `rows` is one of `rows`. */
  lemma SuffixInMultiset(o: seq<CsvRow>, rows: seq<CsvRow>, d: nat)
    requires d <= |o| && multiset(o) == multiset(rows)
    ensures forall j :: 0 <= j < |o| - d ==> o[d..][j] in multiset(rows)
  {
    forall j | 0 <= j < |o| - d ensures o[d..][j] in multiset(rows) {
      assert o[d..][j] == o[d + j];
      assert o[d + j] in multiset(o);
    }
  }

  /** A row without a run time after a timed row stays last, as pandas puts NaN last. */
  lemma MissingRunTimeIsLast(a: CsvRow, b: CsvRow, cols: seq<string>)
    requires HasRunTime(a) && !HasRunTime(b)
    ensures LatestRows(Table(cols, [a, b])) == [a, b]
  {
    var rows := [a, b];
    assert rows[1..] == [b];
    assert Timed([b]) == [] + Timed([]);
    assert Timed(rows) == [a];
    assert Untimed([b]) == [b] + Untimed([]);
    assert Untimed(rows) == [b];
    var sorted := SortBy([a], RunTimeKey);
    assert multiset(sorted) == multiset{a};
    assert |sorted| == 1 && sorted[0] in multiset(sorted);
    assert Ordered(rows) == sorted + [b];
  }

  /** The points of rows, or None if any row fails to convert. */
  function Points(rows: seq<CsvRow>): (ps: Option<seq<Point>>)
    ensures ps.Some? ==> |ps.value| == |rows|
    ensures ps.Some? ==> forall i :: 0 <= i < |rows| ==> PointOf(rows[i]) == Some(ps.value[i])
    ensures ps.None? ==> exists i :: 0 <= i < |rows| && PointOf(rows[i]).None?
    decreases |rows|
  {
    if rows == [] then Some([])
    else
      var init := Points(rows[..|rows| - 1]);
      var p := PointOf(rows[|rows| - 1]);
      if init.Some? && p.Some? then Some(init.value + [p.value]) else None
  }

  /** The locale of a file: its base name after `summary_history_`, without `.csv`. */
  function LocaleOf(f: SummaryFile): (loc: string)
    ensures |loc| <= |f.path|
  {
    RemoveAll(LastPiece(LastPiece(f.path, "/"), "summary_history_"), ".csv")
  }

  /** A file that yields an entry: read, not empty, with a run time column, and converting. */
  predicate Usable(f: SummaryFile) {
    && f.table.Some? && !EmptyTable(f.table.value) && "run_time" in f.table.value.columns
    && Points(LatestRows(f.table.value)).Some?
  }

  /** The entry of a usable file. */
  function DataOf(f: SummaryFile): (d: LocaleData)
    ensures !Usable(f) ==> d == LocaleData(None, [], None)
    ensures Usable(f) ==> d.series == Points(LatestRows(f.table.value)).value
    ensures d.series != [] ==> d.summary == Some(d.series[|d.series| - 1])
    ensures d.series != [] ==> d.latestRun == Some(d.series[|d.series| - 1].runTime)
  {
    var series := if Usable(f) then Points(LatestRows(f.table.value)).value else [];
    LocaleData(if series != [] then Some(series[|series| - 1].runTime) else None,
               series,
               if series != [] then Some(series[|series| - 1]) else None)
  }

  /** The entry of a usable file has one to fourteen points, the last giving run time and summary. */
  lemma UsableDataHasSummary(f: SummaryFile)
    requires Usable(f)
    ensures var d := DataOf(f);
      && 1 <= |d.series| <= KeepRuns
      && d.summary == Some(d.series[|d.series| - 1])
      && d.latestRun == Some(d.series[|d.series| - 1].runTime)
  {
    var t := f.table.value;
    assert |LatestRows(t)| >= 1;
  }

  /** Once a prefix of the rows fails to convert, so do the rows. */
  lemma {:induction false} PointsFailurePersists(rows: seq<CsvRow>, i: nat)
    requires i <= |rows| && Points(rows[..i]).None?
    ensures Points(rows).None?
    decreases |rows| - i
  {
    if i < |rows| {
      assert rows[..i + 1][..i] == rows[..i];
      PointsFailurePersists(rows, i + 1);
    } else {
      assert rows[..i] == rows;
    }
  }

  /** The series loop: the point of each row in turn; the first row that fails ends it. */
  method SeriesOf(rows: seq<CsvRow>) returns (series: Option<seq<Point>>)
    ensures series == Points(rows)
  {
    var points: seq<Point> := [];
    for i := 0 to |rows|
      invariant Points(rows[..i]) == Some(points)
    {
      assert rows[..i + 1][..i] == rows[..i];
      var p := PointOf(rows[i]);
      if p.None? {
        PointsFailurePersists(rows, i + 1);
        return None;
      }
      points := points + [p.value];
    }
    assert rows[..|rows|] == rows;
    series := Some(points);
  }

  /**
   * `_gather_locale_summaries`: for each file in turn, the entry of every usable file, under
   * its locale; a later file with the same locale replaces the earlier entry.
   */
  method GatherLocaleSummaries(files: seq<SummaryFile>) returns (out: Dict<string, LocaleData>)
    ensures out == PutAll(files, Usable, LocaleOf, DataOf)
  {
    out := Empty();
    for k := 0 to |files|
      invariant out == PutAll(files[..k], Usable, LocaleOf, DataOf)
    {
      var f := files[k];
      PutAllStep(files, k, Usable, LocaleOf, DataOf);
      if f.table.None? || EmptyTable(f.table.value) || "run_time" !in f.table.value.columns {
        continue;
      }
      var locale := LocaleOf(f);
      var series := SeriesOf(LatestRows(f.table.value));
      if series.None? {
        continue;
      }
      var points := series.value;
      var latest := if points != [] then Some(points[|points| - 1].runTime) else None;
      var summary := if points != [] then Some(points[|points| - 1]) else None;
      assert LocaleData(latest, points, summary) == DataOf(f);
      out := Put(out, locale, LocaleData(latest, points, summary));
    }
    assert files[..|files|] == files;
  }

  /**
   * The gathered locales are the locales of the usable files, each with the entry of the last
   * usable file of that locale; every entry has a summary.
   */
  lemma GatheredEntries(files: seq<SummaryFile>)
    ensures var out := PutAll(files, Usable, LocaleOf, DataOf);
      forall loc :: loc in out.vals <==> HasKept(files, Usable, LocaleOf, loc)
    ensures var out := PutAll(files, Usable, LocaleOf, DataOf);
      forall loc :: loc in out.vals ==> FromLastKept(files, Usable, LocaleOf, DataOf, out, loc)
    ensures var out := PutAll(files, Usable, LocaleOf, DataOf);
      forall loc :: loc in out.vals ==> out.vals[loc].summary.Some?
  {
    PutAllLastWins(files, Usable, LocaleOf, DataOf);
    var out := PutAll(files, Usable, LocaleOf, DataOf);
    forall loc | loc in out.vals ensures out.vals[loc].summary.Some? {
      GatheredEntryHasSummary(files, loc);
    }
  }

  /** A gathered entry comes from a usable file, so it has a summary. */
  lemma GatheredEntryHasSummary(files: seq<SummaryFile>, loc: string)
    requires loc in PutAll(files, Usable, LocaleOf, DataOf).vals
    ensures PutAll(files, Usable, LocaleOf, DataOf).vals[loc].summary.Some?
  {
    var out := PutAll(files, Usable, LocaleOf, DataOf);
    PutAllValue(files, Usable, LocaleOf, DataOf, loc);
    var i :| LastKept(files, Usable, LocaleOf, loc, i) && out.vals[loc] == DataOf(files[i]);
    UsableDataHasSummary(files[i]);
  }

  // ---------------------------------------------------------------- the rollup

  /** The global block of the metrics document, without its rate. */
  datatype Totals = Totals(totalRuns: nat, totalLinks: int, totalBroken: int)

  /** The totals over the entries, in order: runs with a summary, and the summaries' counts. */
  function Rollup(entries: seq<LocaleData>): (t: Totals)
    ensures t.totalRuns <= |entries|
    decreases |entries|
  {
    if entries == [] then Totals(0, 0, 0)
    else
      var t := Rollup(entries[..|entries| - 1]);
      var s := entries[|entries| - 1].summary;
      if s.Some? then Totals(t.totalRuns + 1, t.totalLinks + s.value.totalLinksFound, t.totalBroken + s.value.brokenLinks)
      else t
  }

  /** `overall_success_rate` before rounding: 100 when no link was checked. */
  function OverallSuccessRate(t: Totals): (rate: real)
    ensures t.totalLinks == 0 ==> rate == 100.0
  {
    if t.totalLinks != 0 then 100.0 - (t.totalBroken as real / t.totalLinks as real) * 100.0 else 100.0
  }

  /** A rate of broken links within the checked links lies between 0 and 100. */
  lemma SuccessRateBounds(t: Totals)
    requires 0 <= t.totalBroken <= t.totalLinks
    ensures 0.0 <= OverallSuccessRate(t) <= 100.0
  {
    if t.totalLinks != 0 {
      var q := t.totalBroken as real / t.totalLinks as real;
      assert q * t.totalLinks as real == t.totalBroken as real;
      assert 0.0 <= q <= 1.0;
    }
  }

  /**
   * The rollup loop of `build_metrics` over the gathered entries in insertion order: a run
   * is counted for each entry with a summary; missing counts add nothing.
   */
  method BuildMetrics(data: Dict<string, LocaleData>) returns (totals: Totals, rate: real)
    requires Valid(data)
    ensures totals == Rollup(Values(data))
    ensures rate == OverallSuccessRate(totals)
  {
    var entries := Values(data);
    var totalRuns: nat := 0;
    var totalLinks := 0;
    var totalBroken := 0;
    for i := 0 to |entries|
      invariant Totals(totalRuns, totalLinks, totalBroken) == Rollup(entries[..i])
    {
      assert entries[..i + 1][..i] == entries[..i];
      var s := entries[i].summary;
      if s.Some? {
        totalRuns := totalRuns + 1;
        totalLinks := totalLinks + s.value.totalLinksFound;
        totalBroken := totalBroken + s.value.brokenLinks;
      }
    }
    assert entries[..|entries|] == entries;
    totals := Totals(totalRuns, totalLinks, totalBroken);
    rate := if totalLinks != 0 then 100.0 - (totalBroken as real / totalLinks as real) * 100.0 else 100.0;
  }

  /** Entries that all have a summary count one run each. */
  lemma {:induction false} EveryEntryIsARun(entries: seq<LocaleData>)
    requires forall i :: 0 <= i < |entries| ==> entries[i].summary.Some?
    ensures Rollup(entries).totalRuns == |entries|
    decreases |entries|
  {
    if entries != [] {
      EveryEntryIsARun(entries[..|entries| - 1]);
    }
  }

  /** After gathering, the run count is the number of locales gathered. */
  lemma GatheredRunsAreLocales(files: seq<SummaryFile>)
    ensures var out := PutAll(files, Usable, LocaleOf, DataOf);
      Rollup(Values(out)).totalRuns == |out.keys|
  {
    var out := PutAll(files, Usable, LocaleOf, DataOf);
    var entries := Values(out);
    forall i | 0 <= i < |entries| ensures entries[i].summary.Some? {
      var loc := out.keys[i];
      assert loc in out.vals;
      GatheredEntryHasSummary(files, loc);
      assert entries[i] == out.vals[loc];
    }
    EveryEntryIsARun(entries);
  }
}
