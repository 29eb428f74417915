/** What process_table_data of InfonetScrap.py guarantees about the period
    tables it produces, and when the derived column can be added. */
module YearSeriesFacts {
  import opened Wrappers
  import opened Strings
  import opened Numbers
  import opened Frames
  import opened TitleNormalizer
  import opened RowFlattening
  import opened YearSeries

  /** No two elements are equal. */
  predicate Distinct<T(==)>(s: seq<T>)
  {
    forall i, j :: 0 <= i < j < |s| ==> s[i] != s[j]
  }

  /** The period headers of a page, as str() of the years. */
  function YearHeaders(years: seq<int>): (r: seq<string>)
    ensures |r| == |years| && forall j :: 0 <= j < |years| ==> r[j] == IntToString(years[j])
  {
    seq(|years|, j requires 0 <= j < |years| => IntToString(years[j]))
  }

  /** The name of the derived column for a value column named after year y
      is named after the year before. */
  lemma PriorLabelOfYear(y: int)
    ensures PriorLabel(IntToString(y) + " Valeur") == Ok(IntToString(y - 1) + " Valeur")
  {
    var p := IntToString(y);
    var s := p + " Valeur";
    FirstPieceUnique(s, ' ', p);
    IntToStringParses(y);
  }

  /** Two names with the same suffix are equal only when what precedes the
      suffix is. */
  lemma SameSuffix(a: string, b: string, suffix: string)
    requires a + suffix == b + suffix
    ensures a == b
  {
    assert a == (a + suffix)[..|a|];
    assert b == (b + suffix)[..|b|];
  }

  /** A period name has a blank after the year, and its last letter tells
      a value name from a variation name. */
  lemma PeriodNameShape(year: string)
    ensures ' ' in year + " Valeur" && ' ' in year + " Variation"
    ensures (year + " Valeur")[|year| + 6] == 'r' && (year + " Variation")[|year| + 9] == 'n'
  {
    assert (year + " Valeur")[|year|] == ' ';
    assert (year + " Variation")[|year|] == ' ';
  }

  /** The period name at position k of the names: the value name of the
      i-th header when k is 2 * i + 1, its variation name when k is 2 * i + 2. */
  lemma PeriodNameAt(first: string, headers: seq<string>, k: nat) returns (i: nat, odd: bool)
    requires 1 <= k <= 2 * |headers|
    ensures i < |headers| && k == 2 * i + (if odd then 2 else 1)
    ensures ([first] + YearLabels(headers))[k] == headers[i] + (if odd then " Variation" else " Valeur")
  {
    var labels := YearLabels(headers);
    i := (k - 1) / 2;
    odd := k - 1 != 2 * i;
    assert ([first] + labels)[k] == labels[k - 1];
  }

  /** A value name is neither a label without blanks nor a variation name:
      it is the value name of the header it starts with. */
  lemma ValueNameClash(first: string, headers: seq<string>, k: nat, year: string) returns (i: nat)
    requires ' ' !in first && k <= 2 * |headers|
    requires ([first] + YearLabels(headers))[k] == year + " Valeur"
    ensures i < |headers| && k == 2 * i + 1 && headers[i] == year
  {
    PeriodNameShape(year);
    assert k >= 1;
    var odd;
    i, odd := PeriodNameAt(first, headers, k);
    PeriodNameShape(headers[i]);
    if !odd {
      SameSuffix(headers[i], year, " Valeur");
    }
  }

  /** The same for a variation name. */
  lemma VariationNameClash(first: string, headers: seq<string>, k: nat, year: string) returns (i: nat)
    requires ' ' !in first && k <= 2 * |headers|
    requires ([first] + YearLabels(headers))[k] == year + " Variation"
    ensures i < |headers| && k == 2 * i + 2 && headers[i] == year
  {
    PeriodNameShape(year);
    assert k >= 1;
    var odd;
    i, odd := PeriodNameAt(first, headers, k);
    PeriodNameShape(headers[i]);
    if odd {
      SameSuffix(headers[i], year, " Variation");
    }
  }

  /** Once the year of the last value column is read, the derived name is
      given exactly when the last two columns are single and the name is
      free; otherwise pandas refuses a duplicate. */
  lemma DerivedNameCases(names: seq<string>, derived: string)
    requires |names| >= 2 && PriorLabel(names[|names| - 2]) == Ok(derived)
    ensures DerivedName(names) ==
      if Unique(names, |names| - 2) && Unique(names, |names| - 1) && derived !in names then Ok(derived)
      else Err(DuplicateColumn)
  {
  }

  /** When the last header occurs nowhere else, the last value name and the
      last variation name are single, and a value name is among the names
      exactly when its header is among the headers. */
  lemma LastPeriodNames(title: string, headers: seq<string>, prior: string)
    requires ' ' !in title && |headers| > 0
    requires forall i :: 0 <= i < |headers| - 1 ==> headers[i] != headers[|headers| - 1]
    ensures var names := [title] + YearLabels(headers);
      && names[|names| - 2] == headers[|headers| - 1] + " Valeur"
      && Unique(names, |names| - 2) && Unique(names, |names| - 1)
      && (prior + " Valeur" in names <==> prior in headers)
  {
    var names := [title] + YearLabels(headers);
    var m := |headers|;
    var w := |names|;
    var year := headers[m - 1];
    assert names[w - 2] == year + " Valeur";
    assert names[w - 1] == year + " Variation";
    forall j | 0 <= j < w && j != w - 2 ensures names[j] != names[w - 2] {
      if names[j] == names[w - 2] {
        var i := ValueNameClash(title, headers, j, year);
      }
    }
    forall j | 0 <= j < w && j != w - 1 ensures names[j] != names[w - 1] {
      if names[j] == names[w - 1] {
        var i := VariationNameClash(title, headers, j, year);
      }
    }
    if prior + " Valeur" in names {
      var j :| 0 <= j < w && names[j] == prior + " Valeur";
      var i := ValueNameClash(title, headers, j, prior);
    }
    if prior in headers {
      var i :| 0 <= i < m && headers[i] == prior;
      assert names[2 * i + 1] == prior + " Valeur";
    }
  }

  /** The names of a header row: its normalised first header, which has no
      blank, then the period names. */
  lemma HeaderNames(first: string, years: seq<int>)
    ensures ColumnNames([first] + YearHeaders(years)) == Ok([Normalize(first)] + YearLabels(YearHeaders(years)))
    ensures ' ' !in Normalize(first)
  {
    var header := [first] + YearHeaders(years);
    assert header[1..] == YearHeaders(years);
    NormalizeCanonical(first);
  }

  /** With the newest year first the last year occurs once. */
  lemma LastYearSingle(years: seq<int>)
    requires |years| > 0 && forall i, j :: 0 <= i < j < |years| ==> years[i] > years[j]
    ensures var headers := YearHeaders(years);
      forall i :: 0 <= i < |headers| - 1 ==> headers[i] != headers[|headers| - 1]
  {
    var headers := YearHeaders(years);
    forall i | 0 <= i < |headers| - 1 ensures headers[i] != headers[|headers| - 1] {
      if headers[i] == headers[|headers| - 1] {
        IntToStringInjective(years[i], years[|years| - 1]);
      }
    }
  }

  /** With the newest year first the year before the last one is not a
      header. */
  lemma PriorYearAbsent(years: seq<int>)
    requires |years| > 0 && forall i, j :: 0 <= i < j < |years| ==> years[i] > years[j]
    ensures IntToString(years[|years| - 1] - 1) !in YearHeaders(years)
  {
    var headers := YearHeaders(years);
    var prior := years[|years| - 1] - 1;
    forall i | 0 <= i < |headers| ensures headers[i] != IntToString(prior) {
      if headers[i] == IntToString(prior) {
        IntToStringInjective(years[i], prior);
      }
    }
  }

  /** When the last header occurs once and the header its derived name is
      named after is absent, the derived name is given. */
  lemma SingleLastNamesPrior(title: string, headers: seq<string>, prior: string)
    requires ' ' !in title && |headers| > 0
    requires forall i :: 0 <= i < |headers| - 1 ==> headers[i] != headers[|headers| - 1]
    requires prior !in headers
    requires PriorLabel(headers[|headers| - 1] + " Valeur") == Ok(prior + " Valeur")
    ensures DerivedName([title] + YearLabels(headers)) == Ok(prior + " Valeur")
  {
    var names := [title] + YearLabels(headers);
    var w := |names|;
    assert names[w - 2] == headers[|headers| - 1] + " Valeur" && Unique(names, w - 2) && Unique(names, w - 1) && prior + " Valeur" !in names by {
      LastPeriodNames(title, headers, prior);
    }
    DerivedNameCases(names, prior + " Valeur");
  }

  /** Headers with the newest period first, as the pages present them:
      the last two columns are single and the year before the last one is
      not among the headers, so the derived column is named after that
      year. The first name is the normalised first header, which has no
      blank (HeaderNames). */
  lemma NewestFirstNamesPrior(title: string, years: seq<int>)
    requires ' ' !in title
    requires |years| > 0 && forall i, j :: 0 <= i < j < |years| ==> years[i] > years[j]
    ensures DerivedName([title] + YearLabels(YearHeaders(years))) == Ok(IntToString(years[|years| - 1] - 1) + " Valeur")
  {
    var last := years[|years| - 1];
    LastYearSingle(years);
    PriorYearAbsent(years);
    PriorLabelOfYear(last);
    SingleLastNamesPrior(title, YearHeaders(years), IntToString(last - 1));
  }

  /** Headers where the year before the last one is also a header, as with
      the oldest period first: the derived name is taken, and pandas refuses
      the insertion. */
  lemma PriorYearPresentFails(first: string, years: seq<int>, i: nat)
    requires i < |years| && years[i] == years[|years| - 1] - 1
    ensures var names := ColumnNames([first] + YearHeaders(years)).value;
      && |names| == 2 * |years| + 1
      && DerivedName(names) == Err(DuplicateColumn)
  {
    HeaderNames(first, years);
    var headers := YearHeaders(years);
    var names := [Normalize(first)] + YearLabels(headers);
    var last := years[|years| - 1];
    PriorLabelOfYear(last);
    ValueNameAt(Normalize(first), headers, |years| - 1);
    ValueNameAt(Normalize(first), headers, i);
    DerivedNameCases(names, IntToString(last - 1) + " Valeur");
  }

  /** The value name of the i-th header is the name at position 2 * i + 1. */
  lemma ValueNameAt(title: string, headers: seq<string>, i: nat)
    requires i < |headers|
    ensures ([title] + YearLabels(headers))[2 * i + 1] == headers[i] + " Valeur"
  {
  }

  /** Adding the derived column keeps the columns and cells that were there,
      puts the worked-back value last in every row, and keeps distinct
      column names distinct. */
  lemma AddPriorKeeps(names: seq<string>, rows: seq<seq<Cell>>)
    requires forall i :: 0 <= i < |rows| ==> |rows[i]| == |names|
    ensures var r := AddPrior(names, rows);
      var w := |names|;
      && (r.Ok? <==> DerivedName(names).Ok?)
      && (r.Err? ==> r.error == DerivedName(names).error)
      && (r.Ok? ==>
        && w >= 2
        && Rectangular(r.value)
        && r.value.columns == names + [DerivedName(names).value]
        && (Distinct(names) ==> Distinct(r.value.columns))
        && |r.value.rows| == |rows|
        && forall i :: 0 <= i < |rows| ==>
             && r.value.rows[i][..w] == rows[i]
             && r.value.rows[i][w] == Divide(rows[i][w - 2], rows[i][w - 1]))
  {
    var r := AddPrior(names, rows);
    if r.Ok? {
      var w := |names|;
      forall i | 0 <= i < |rows| ensures r.value.rows[i][..w] == rows[i] {
        assert r.value.rows[i] == rows[i] + [r.value.rows[i][w]];
      }
    }
  }

  /** A period table built from flattened rows has the period names
      followed by the derived name and one row per flattened row, which is
      filled with NaN up to the number of names and followed by the value
      of the previous period. */
  lemma NamedShape(header: seq<string>, flat: seq<seq<Cell>>)
    requires NamedTable(header, flat).Ok?
    ensures var t := NamedTable(header, flat).value;
      && header != []
      && var names := ColumnNames(header).value;
         var w := |names|;
         && w == 2 * |header| - 1 && w >= 2
         && Rectangular(t) && |t.columns| == w + 1 && t.columns[..w] == names
         && |t.rows| == |flat|
         && forall i :: 0 <= i < |flat| ==>
              && |flat[i]| <= w
              && t.rows[i][..w] == Pad(flat[i], w, Missing)
              && t.rows[i][w] == Divide(t.rows[i][w - 2], t.rows[i][w - 1])
  {
    NamedSteps(header, flat);
    ShapedKeeps(ColumnNames(header).value, HeaderRow(header), flat);
  }

  /** The same for any names as many as the columns of the frame. */
  lemma ShapedKeeps(names: seq<string>, first: seq<Cell>, flat: seq<seq<Cell>>)
    requires Shaped(names, first, flat).Ok?
    ensures var t := Shaped(names, first, flat).value;
      var w := |names|;
      && w >= 2 && w == MaxWidth([first] + flat)
      && Rectangular(t) && |t.columns| == w + 1 && t.columns[..w] == names
      && |t.rows| == |flat|
      && forall i :: 0 <= i < |flat| ==>
           && |flat[i]| <= w
           && t.rows[i][..w] == Pad(flat[i], w, Missing)
           && t.rows[i][w] == Divide(t.rows[i][w - 2], t.rows[i][w - 1])
  {
    var w := MaxWidth([first] + flat);
    MaxWidthCons(first, flat);
    AddPriorKeeps(names, PadRows(flat, w, Missing));
  }

  /** A processed period table has the period names followed by the derived
      name, one row per row of the page, and each row is the flattened row
      of the page (its title normalised, its cells split into value and
      variation), filled with NaN, followed by the derived value. */
  lemma ProcessedShape(f: RawFrame)
    requires ProcessedTable(f).Ok?
    ensures var t := ProcessedTable(f).value;
      && f.header != []
      && var names := ColumnNames(f.header).value;
         && |names| == 2 * |f.header| - 1
         && Rectangular(t) && |t.columns| == |names| + 1 && t.columns[..|names|] == names
         && |t.rows| == |f.rows|
         && forall i :: 0 <= i < |f.rows| ==>
              && ScriptRow(f.rows[i]).Ok?
              && |ScriptRow(f.rows[i]).value| <= |names|
              && t.rows[i][..|names|] == Pad(ScriptRow(f.rows[i]).value, |names|, Missing)
              && t.rows[i][0] == Text(Normalize(f.rows[i][0].value))
  {
    var flat := MapAll(f.rows, ScriptRow).value;
    NamedShape(f.header, flat);
    FlattenedTitles(f.rows);
  }

  /** Every flattened row starts with the normalised title of its row. */
  lemma FlattenedTitles(rows: seq<seq<Option<string>>>)
    requires MapAll(rows, ScriptRow).Ok?
    ensures var flat := MapAll(rows, ScriptRow).value;
      forall i :: 0 <= i < |rows| ==> |rows[i]| > 0 && rows[i][0].Some? && |flat[i]| > 0 && flat[i][0] == Text(Normalize(rows[i][0].value))
  {
    forall i | 0 <= i < |rows| ensures |rows[i]| > 0 && rows[i][0].Some? && ScriptRow(rows[i]).value[0] == Text(Normalize(rows[i][0].value)) {
      FlattenRowFirst(rows[i]);
    }
  }

  /** The first entry of a flattened row is its normalised title. */
  lemma FlattenRowFirst(row: seq<Option<string>>)
    requires ScriptRow(row).Ok?
    ensures |row| > 0 && row[0].Some? && ScriptRow(row).value[0] == Text(Normalize(row[0].value))
  {
    FlattenRowOk(row, Script);
  }

  /** The steps of a processing that succeeds: every row flattens, the
      header row is not empty, and the frame is exactly as wide as the names. */
  lemma ProcessedSteps(f: RawFrame)
    requires ProcessedTable(f).Ok?
    ensures MapAll(f.rows, ScriptRow).Ok? && f.header != []
    ensures MaxWidth([HeaderRow(f.header)] + MapAll(f.rows, ScriptRow).value) == 2 * |f.header| - 1
  {
    NamedSteps(f.header, MapAll(f.rows, ScriptRow).value);
  }

  /** The same once the rows are flattened. */
  lemma NamedSteps(header: seq<string>, flat: seq<seq<Cell>>)
    requires NamedTable(header, flat).Ok?
    ensures header != [] && MaxWidth([HeaderRow(header)] + flat) == 2 * |header| - 1
  {
    var names := ColumnNames(header).value;
    assert Shaped(names, HeaderRow(header), flat).Ok?;
  }

  /** With two headers or more the period names outnumber the header, so
      the frame is only wide enough for them when some row of the page has
      a value and a variation in every period cell. */
  lemma FullWidthRow(f: RawFrame) returns (i: nat)
    requires WellFormed(f) && |f.header| >= 2 && ProcessedTable(f).Ok?
    ensures i < |f.rows| && forall j :: 1 <= j < |f.header| ==> HasVariation(f.rows[i][j])
  {
    ProcessedSteps(f);
    FlattenedWidths(f.rows);
    i := WidestRow(f.header, f.rows, MapAll(f.rows, ScriptRow).value);
  }

  /** Each flattened row holds the title and the entries of the other cells. */
  lemma FlattenedWidths(rows: seq<seq<Option<string>>>)
    requires MapAll(rows, ScriptRow).Ok?
    ensures var flat := MapAll(rows, ScriptRow).value;
      |flat| == |rows| && forall i :: 0 <= i < |rows| ==> |rows[i]| > 0 && |flat[i]| == 1 + TotalEntries(rows[i][1..])
  {
    var flat := MapAll(rows, ScriptRow).value;
    forall i | 0 <= i < |rows| ensures |rows[i]| > 0 && |flat[i]| == 1 + TotalEntries(rows[i][1..]) {
      assert ScriptRow(rows[i]).Ok?;
    }
  }

  /** A flattened row as wide as 2 * |header| - 1 comes from a row whose
      every period cell has a variation line. */
  lemma WidestRow(header: seq<string>, rows: seq<seq<Option<string>>>, flat: seq<seq<Cell>>) returns (i: nat)
    requires |header| >= 2 && forall i :: 0 <= i < |rows| ==> |rows[i]| == |header|
    requires |flat| == |rows| && forall i :: 0 <= i < |rows| ==> |flat[i]| == 1 + TotalEntries(rows[i][1..])
    requires MaxWidth([HeaderRow(header)] + flat) == 2 * |header| - 1
    ensures i < |rows| && forall j :: 1 <= j < |header| ==> HasVariation(rows[i][j])
  {
    var all := [HeaderRow(header)] + flat;
    var w := MaxWidth(all);
    assert |all[0]| < w;
    var k :| 0 <= k < |all| && |all[k]| == w;
    i := k - 1;
    var row := rows[i];
    assert all[k] == flat[i];
    TotalEntriesFull(row[1..]);
    forall j | 1 <= j < |header| ensures HasVariation(rows[i][j]) {
      assert row[1..][j - 1] == row[j];
    }
  }
}
