/**
 * src/utils/Summary_fixed.py: brings a summary CSV to the canonical column set and order,
 * adding missing columns with defaults and keeping unexpected columns at the end.
 */
module SummarySchema {
  import opened Wrappers
  import opened Text

  /** The canonical columns, in order. */
  const ExpectedColumns: seq<string> := [
    "run_time", "pages_checked", "total_links_found", "unique_links", "duplicate_count",
    "crawler_efficiency", "broken_links", "duration_sec", "duration_mins", "status"
  ]

  ghost predicate Distinct(s: seq<string>) {
    forall i, j :: 0 <= i < j < |s| ==> s[i] != s[j]
  }

  /** `[c for c in s if c not in other]`. */
  function Absent(s: seq<string>, other: seq<string>): (r: seq<string>)
    ensures |r| <= |s|
    ensures forall c :: c in r <==> c in s && c !in other
    decreases |s|
  {
    if s == [] then [] else (if s[0] in other then [] else [s[0]]) + Absent(s[1..], other)
  }

  /** `[c for c in s if c in other]`. */
  function Present(s: seq<string>, other: seq<string>): (r: seq<string>)
    ensures forall c :: c in r <==> c in s && c in other
    decreases |s|
  {
    if s == [] then [] else (if s[0] in other then [s[0]] else []) + Present(s[1..], other)
  }

  lemma {:induction false} AbsentAppend(a: seq<string>, b: seq<string>, other: seq<string>)
    ensures Absent(a + b, other) == Absent(a, other) + Absent(b, other)
    decreases |a|
  {
    if a != [] {
      assert (a + b)[1..] == a[1..] + b;
      AbsentAppend(a[1..], b, other);
    } else {
      assert a + b == b;
    }
  }

  lemma {:induction false} AbsentDistinct(s: seq<string>, other: seq<string>)
    requires Distinct(s)
    ensures Distinct(Absent(s, other))
    decreases |s|
  {
    if s != [] {
      AbsentDistinct(s[1..], other);
      assert s[0] !in s[1..];
    }
  }

  /** Nothing is left when every item of `s` is in `other`. */
  lemma {:induction false} AbsentNone(s: seq<string>, other: seq<string>)
    requires forall c :: c in s ==> c in other
    ensures Absent(s, other) == []
    decreases |s|
  {
    if s != [] {
      AbsentNone(s[1..], other);
    }
  }

  /** Keeping the items of `s` that are in `other` keeps all of them when all are. */
  lemma {:induction false} PresentAll(s: seq<string>, other: seq<string>)
    requires forall c :: c in s ==> c in other
    ensures Present(s, other) == s
    decreases |s|
  {
    if s != [] {
      PresentAll(s[1..], other);
    }
  }

  /** The expected columns absent from the header, in canonical order. */
  function MissingCols(headers: seq<string>): (r: seq<string>)
  {
    Absent(ExpectedColumns, headers)
  }

  /** The header columns not expected, in header order. */
  function ExtraCols(headers: seq<string>): (r: seq<string>)
  {
    Absent(headers, ExpectedColumns)
  }

  /** A missing column's value: 0 for the counting and timing columns, otherwise empty text. */
  function Default(col: string): (v: Cell)
    ensures v == Int(0) || v == Str("")
    ensures v == Int(0) <==> (StartsWith(col, "duration_") || StartsWith(col, "total_")
                              || StartsWith(col, "broken_") || StartsWith(col, "crawler_"))
  {
    if StartsWith(col, "duration_") || StartsWith(col, "total_") || StartsWith(col, "broken_")
       || StartsWith(col, "crawler_")
    then Int(0) else Str("")
  }

  // ---------------------------------------------------------------- the data frame

  /** A data frame: its column order, each column's values, and its number of rows. */
  datatype Table = Table(columns: seq<string>, cells: map<string, seq<Cell>>, height: nat)

  ghost predicate TableOk(t: Table) {
    && (forall c :: c in t.cells <==> c in t.columns)
    && (forall c :: c in t.cells ==> |t.cells[c]| == t.height)
  }

  /** `df[col] = v`: the column holds `v` in every row; a new column goes last. */
  function Assign(t: Table, col: string, v: Cell): (r: Table)
  {
    Table(if col in t.columns then t.columns else t.columns + [col],
          t.cells[col := seq(t.height, _ => v)],
          t.height)
  }

  /** `df[order]`: the listed columns, in that order. */
  function Reindex(t: Table, order: seq<string>): (r: Table)
  {
    Table(order, map c | c in order && c in t.cells :: t.cells[c], t.height)
  }

  /** The frame after `for col in cols: df[col] = default(col)`. */
  function WithDefaults(t: Table, cols: seq<string>): (r: Table)
    ensures r.height == t.height
    decreases |cols|
  {
    if cols == [] then t
    else
      var c := cols[|cols| - 1];
      Assign(WithDefaults(t, cols[..|cols| - 1]), c, Default(c))
  }

  /** After the defaults, the columns are the old ones and the added ones. */
  lemma {:induction false} WithDefaultsColumns(t: Table, cols: seq<string>)
    ensures forall c :: c in WithDefaults(t, cols).columns <==> c in t.columns || c in cols
    decreases |cols|
  {
    if cols != [] {
      var p := cols[..|cols| - 1];
      WithDefaultsColumns(t, p);
      assert cols == p + [cols[|cols| - 1]];
    }
  }

  lemma WithDefaultsStep(t: Table, cols: seq<string>, i: nat)
    requires i < |cols|
    ensures WithDefaults(t, cols[..i + 1]) == Assign(WithDefaults(t, cols[..i]), cols[i], Default(cols[i]))
  {
    assert cols[..i + 1][..i] == cols[..i];
  }

  /**
   * Adding distinct columns the frame lacks appends them in order, fills them with their
   * defaults and leaves every other column as it was.
   */
  lemma {:induction false} WithDefaultsNew(t: Table, cols: seq<string>)
    requires Distinct(cols) && forall c :: c in cols ==> c !in t.columns
    ensures WithDefaults(t, cols).columns == t.columns + cols
    ensures forall c :: c in cols ==> c in WithDefaults(t, cols).cells && WithDefaults(t, cols).cells[c] == seq(t.height, _ => Default(c))
    ensures forall c :: c in t.cells && c !in cols ==> c in WithDefaults(t, cols).cells && WithDefaults(t, cols).cells[c] == t.cells[c]
    ensures forall c :: c in WithDefaults(t, cols).cells <==> c in t.cells || c in cols
    decreases |cols|
  {
    if cols != [] {
      var p := cols[..|cols| - 1];
      var c := cols[|cols| - 1];
      WithDefaultsNew(t, p);
      assert cols == p + [c];
      assert c !in p && c !in t.columns;
      AssignNew(WithDefaults(t, p), c, Default(c));
    }
  }

  /** Assigning a column the frame lacks appends it and leaves the other columns alone. */
  lemma AssignNew(t: Table, col: string, v: Cell)
    requires col !in t.columns
    ensures Assign(t, col, v).columns == t.columns + [col]
    ensures Assign(t, col, v).cells == t.cells[col := seq(t.height, _ => v)]
  {
  }

  /** The frame that is written back: defaults added, then expected columns, then the rest. */
  function Normalized(t: Table, missing: seq<string>): (r: Table)
    ensures r.height == t.height
    ensures forall c :: c in r.columns <==> c in t.columns || c in missing
  {
    var w := WithDefaults(t, missing);
    WithDefaultsColumns(t, missing);
    var allCols := ExpectedColumns + Absent(w.columns, ExpectedColumns);
    Reindex(w, Present(allCols, w.columns))
  }

  /** The summary file: not there, its header unreadable, or a header and (unless pandas raised) a frame. */
  datatype SchemaFile = Missing | NoHeader | Readable(header: seq<string>, frame: Option<Table>)

  /** What `reconcile_csv_schema` writes back, if anything. */
  function Reconciled(file: SchemaFile): (r: Option<Table>)
    ensures r.Some? ==> file.Readable? && file.frame.Some?
    ensures r.Some? ==> MissingCols(file.header) != [] || ExtraCols(file.header) != []
  {
    if file.Readable? && (MissingCols(file.header) != [] || ExtraCols(file.header) != [])
       && file.frame.Some?
    then Some(Normalized(file.frame.value, MissingCols(file.header)))
    else None
  }

  lemma ExpectedDistinct()
    ensures Distinct(ExpectedColumns)
  {
  }

  /**
   * Once the missing expected columns are appended to the header, keeping the expected
   * columns and then the unexpected ones, each only if present, gives the expected columns
   * followed by the header's unexpected ones.
   */
  lemma OrderAfterDefaults(h: seq<string>, missing: seq<string>, expected: seq<string>)
    requires forall c :: c in missing ==> c in expected
    requires forall c :: c in expected ==> c in h || c in missing
    ensures var cols := h + missing;
      Present(expected + Absent(cols, expected), cols) == expected + Absent(h, expected)
  {
    var cols := h + missing;
    AbsentAppend(h, missing, expected);
    AbsentNone(missing, expected);
    assert Absent(cols, expected) == Absent(h, expected);
    PresentAll(expected + Absent(h, expected), cols);
  }

  /**
   * When the frame's columns are the header (pandas keeps them unique), the file written back
   * holds the ten expected columns in canonical order followed by the extra columns in their
   * original order; added columns hold their defaults and existing columns keep their values.
   */
  lemma NormalizedShape(t: Table)
    requires TableOk(t) && Distinct(t.columns)
    ensures var r := Normalized(t, MissingCols(t.columns));
      && r.columns == ExpectedColumns + ExtraCols(t.columns)
      && (forall c :: c in MissingCols(t.columns) ==> c in r.cells && r.cells[c] == seq(t.height, _ => Default(c)))
      && (forall c :: c in t.columns ==> c in r.cells && r.cells[c] == t.cells[c])
      && r.height == t.height
  {
    var missing := MissingCols(t.columns);
    ExpectedDistinct();
    AbsentDistinct(ExpectedColumns, t.columns);
    WithDefaultsNew(t, missing);
    OrderAfterDefaults(t.columns, missing, ExpectedColumns);
  }

  /** Nothing is written for a missing file, an unreadable header, or a header already in shape. */
  lemma NoRewriteCases(file: SchemaFile)
    requires file.Missing? || file.NoHeader? || (file.Readable? && MissingCols(file.header) == [] && ExtraCols(file.header) == [])
    ensures Reconciled(file) == None
  {
  }

  /** A pandas data frame being normalised in place. */
  class Frame {
    var columns: seq<string>
    var cells: map<string, seq<Cell>>
    const height: nat

    function Snapshot(): Table
      reads this
    {
      Table(columns, cells, height)
    }

    constructor (t: Table)
      ensures Snapshot() == t
    {
      columns := t.columns;
      cells := t.cells;
      height := t.height;
    }

    /** `df[col] = v`. */
    method Put(col: string, v: Cell)
      modifies this
      ensures Snapshot() == Assign(old(Snapshot()), col, v)
    {
      if col !in columns {
        columns := columns + [col];
      }
      cells := cells[col := seq(height, _ => v)];
    }

    /** `df = df[order]`. */
    method Select(order: seq<string>)
      modifies this
      ensures Snapshot() == Reindex(old(Snapshot()), order)
    {
      cells := map c | c in order && c in cells :: cells[c];
      columns := order;
    }
  }

  /** `for col in missing: df[col] = default(col)`. */
  method AddDefaults(df: Frame, missing: seq<string>)
    modifies df
    ensures df.Snapshot() == WithDefaults(old(df.Snapshot()), missing)
  {
    ghost var t := df.Snapshot();
    for i := 0 to |missing|
      invariant df.Snapshot() == WithDefaults(t, missing[..i])
    {
      WithDefaultsStep(t, missing, i);
      df.Put(missing[i], Default(missing[i]));
    }
    assert missing[..|missing|] == missing;
  }

  /**
   * `reconcile_csv_schema`: adds the missing columns to the frame one by one, reorders it, and
   * returns the frame written back, or None when nothing is written.
   */
  method ReconcileCsvSchema(file: SchemaFile) returns (written: Option<Table>)
    ensures written == Reconciled(file)
  {
    if !file.Readable? {
      return None;
    }
    var headers := file.header;
    var missing := MissingCols(headers);
    var extra := ExtraCols(headers);
    if missing == [] && extra == [] {
      return None;
    }
    if file.frame.None? {
      return None;
    }
    var t := file.frame.value;
    var df := new Frame(t);
    AddDefaults(df, missing);
    var allCols := ExpectedColumns + Absent(df.columns, ExpectedColumns);
    df.Select(Present(allCols, df.columns));
    written := Some(df.Snapshot());
    assert written == Some(Normalized(t, missing));
  }
}
