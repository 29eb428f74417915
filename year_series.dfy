/** process_table_data of InfonetScrap.py (lines 79-129), used for the
    period tables 2, 3 and 4: the rows are flattened, the columns are named
    "<year> Valeur" and "<year> Variation" after the period headers, and a
    last column holds the value of the period before the last one, worked
    back from the last value and its variation. */
module YearSeries {
  import opened Wrappers
  import opened Strings
  import opened Numbers
  import opened Frames
  import opened TitleNormalizer
  import opened SimpleTable
  import opened RowFlattening

  /** convert_value on one line of a cell, stored as a cell. */
  function LineValue(line: string): (c: Result<Cell, Failure>)
    ensures c.Err? ==> c.error == ValueError
  {
    ConvertCell(Some(line))
  }

  /** The conversions the script applies: normalize_title to row labels and
      convert_value to the lines of the other cells. */
  const Script := Converters(Normalize, LineValue)

  /** One row flattened as the script does it. */
  function ScriptRow(row: seq<Option<string>>): Result<seq<Cell>, Failure>
  {
    FlattenRow(row, Script)
  }

  /** The names of the period columns: "<year> Valeur", then
      "<year> Variation", for each year in turn. */
  function YearLabels(years: seq<string>): (r: seq<string>)
    ensures |r| == 2 * |years|
    ensures forall j :: 0 <= j < |years| ==> r[2 * j] == years[j] + " Valeur" && r[2 * j + 1] == years[j] + " Variation"
  {
    if years == [] then []
    else YearLabels(years[..|years| - 1]) + [years[|years| - 1] + " Valeur", years[|years| - 1] + " Variation"]
  }

  /** One more year adds its two names at the end. */
  lemma YearLabelsSnoc(years: seq<string>, k: nat)
    requires k < |years|
    ensures YearLabels(years[..k + 1]) == YearLabels(years[..k]) + [years[k] + " Valeur", years[k] + " Variation"]
  {
    assert years[..k + 1][..k] == years[..k];
  }

  /** new_columns: the normalised first header, then the period names of
      the other headers; the first header of an empty header row does not
      exist (IndexError). */
  function ColumnNames(header: seq<string>): (r: Result<seq<string>, Failure>)
  {
    if header == [] then Err(IndexError) else Ok([Normalize(header[0])] + YearLabels(header[1..]))
  }

  /** The name of the temporary column of line 118. */
  const PreviousYearValue := "Previous Year Value"

  /** The header row that pd.DataFrame receives first, as cells. */
  function HeaderRow(header: seq<string>): (row: seq<Cell>)
    ensures |row| == |header|
  {
    seq(|header|, j requires 0 <= j < |header| => Text(header[j]))
  }

  /** The value of the previous period worked back from a value and its
      variation, value / (1 + variation); NaN when either is not a number
      or when 1 + variation is zero. */
  function Divide(value: Cell, variation: Cell): Cell
  {
    if value.Num? && variation.Num? && 1.0 + variation.x != 0.0 then Num(value.x / (1.0 + variation.x))
    else Missing
  }

  /** The previous value is a number exactly when both cells are numbers
      and 1 + variation is not zero, and growing it by the variation gives
      the value back; otherwise it is NaN. */
  lemma DivideRecoversValue(value: Cell, variation: Cell)
    ensures var prior := Divide(value, variation);
      && (prior.Num? <==> value.Num? && variation.Num? && 1.0 + variation.x != 0.0)
      && (prior.Num? ==> prior.x * (1.0 + variation.x) == value.x)
      && (!prior.Num? ==> prior == Missing)
  {
  }

  /** The element-wise division of two columns. */
  function DivideColumns(values: seq<Cell>, variations: seq<Cell>): (prior: seq<Cell>)
    requires |values| == |variations|
    ensures |prior| == |values| && forall i :: 0 <= i < |values| ==> prior[i] == Divide(values[i], variations[i])
  {
    seq(|values|, i requires 0 <= i < |values| => Divide(values[i], variations[i]))
  }

  /** The name of the derived column: the year that starts the name of the
      last value column, less one, followed by " Valeur"; int() refuses a
      name that does not start with a whole number. */
  function PriorLabel(valueName: string): Result<string, Failure>
  {
    match ParseInt(FirstToken(valueName))
    case None => Err(ValueError)
    case Some(year) => Ok(IntToString(year - 1) + " Valeur")
  }

  /** Lines 115-123 on the names alone: the last two columns are read (each
      must be the only column with its name), the derived column is named
      after the year of the last value column, and pandas refuses the
      insertion when that name is taken. */
  function DerivedName(names: seq<string>): (r: Result<string, Failure>)
    ensures r.Ok? ==> |names| >= 2 && r.value !in names
  {
    var w := |names|;
    if w < 2 then Err(IndexError)
    else if !Unique(names, w - 2) || !Unique(names, w - 1) then Err(DuplicateColumn)
    else
      match PriorLabel(names[w - 2])
      case Err(e) => Err(e)
      case Ok(derived) => if derived in names then Err(DuplicateColumn) else Ok(derived)
  }

  /** Line 118: the value of the previous period in every row, worked back
      from the last value column and the last variation column. */
  function PriorValues(rows: seq<seq<Cell>>, w: nat): (prior: seq<Cell>)
    requires w >= 2 && forall i :: 0 <= i < |rows| ==> |rows[i]| == w
    ensures |prior| == |rows| && forall i :: 0 <= i < |rows| ==> prior[i] == Divide(rows[i][w - 2], rows[i][w - 1])
  {
    DivideColumns(ColumnOf(rows, w - 2), ColumnOf(rows, w - 1))
  }

  /** Lines 115-124 once the columns carry names: the derived column is
      added last, under the derived name. */
  function AddPrior(names: seq<string>, rows: seq<seq<Cell>>): Result<Table, Failure>
    requires forall i :: 0 <= i < |rows| ==> |rows[i]| == |names|
  {
    match DerivedName(names)
    case Err(e) => Err(e)
    case Ok(derived) => Ok(Table(names + [derived], AppendColumn(rows, PriorValues(rows, |names|))))
  }

  /** process_table_data on a frame: the flattened rows under the period
      names, then the derived column. */
  function ProcessedTable(f: RawFrame): Result<Table, Failure>
  {
    match MapAll(f.rows, ScriptRow)
    case Err(e) => Err(e)
    case Ok(flat) => NamedTable(f.header, flat)
  }

  /** Lines 95-124 once the rows are flattened: the header row goes first,
      the names are worked out from the headers, and the frame is shaped. */
  function NamedTable(header: seq<string>, flat: seq<seq<Cell>>): Result<Table, Failure>
  {
    match ColumnNames(header)
    case Err(e) => Err(e)
    case Ok(names) => Shaped(names, HeaderRow(header), flat)
  }

  /** The frame built from the header row and the flattened rows is padded
      with NaN to the width of the widest row (the header row counts, as it
      is part of the data until it is dropped); the names replace the
      positions when there are as many names as columns, and the derived
      column is added. Without the names the columns keep their positions,
      and line 120 fails on a position. */
  function Shaped(names: seq<string>, first: seq<Cell>, flat: seq<seq<Cell>>): Result<Table, Failure>
  {
    var w := MaxWidth([first] + flat);
    if |names| != w then (if w < 2 then Err(IndexError) else Err(NotAString))
    else
      MaxWidthCons(first, flat);
      AddPrior(names, PadRows(flat, w, Missing))
  }

  /** Lines 101-107: the normalised first header starts the names, and the
      loop adds the period names of the other headers. */
  method BuildColumnNames(header: seq<string>) returns (r: Result<seq<string>, Failure>)
    ensures r == ColumnNames(header)
  {
    if header == [] {
      return Err(IndexError);
    }
    var names := AppendPeriods([Normalize(header[0])], header[1..]);
    r := Ok(names);
  }

  /** The loop of lines 104-107: for each header its value name and its
      variation name are appended to the names so far. */
  method AppendPeriods(start: seq<string>, years: seq<string>) returns (names: seq<string>)
    ensures names == start + YearLabels(years)
  {
    names := start;
    var k := 0;
    while k < |years|
      invariant 0 <= k <= |years|
      invariant names == start + YearLabels(years[..k])
    {
      YearLabelsSnoc(years, k);
      names := names + [years[k] + " Valeur"];
      names := names + [years[k] + " Variation"];
      k := k + 1;
    }
    assert years[..k] == years;
  }

  /** No column name is that of the temporary column: a normalised label
      has no blank, and a period name ends with "Valeur" or "Variation". */
  lemma NoPreviousYearValue(header: seq<string>)
    requires header != []
    ensures PreviousYearValue !in ColumnNames(header).value
  {
    NormalizeCanonical(header[0]);
    NotTemporary(Normalize(header[0]), header[1..]);
  }

  lemma NotTemporary(first: string, years: seq<string>)
    requires IsCanonical(first)
    ensures PreviousYearValue !in [first] + YearLabels(years)
  {
    var names := [first] + YearLabels(years);
    assert PreviousYearValue[8] == ' ' && PreviousYearValue[18] == 'e';
    forall k | 1 <= k < |names| ensures names[k] != PreviousYearValue {
      var j := (k - 1) / 2;
      assert names[k] == years[j] + " Valeur" || names[k] == years[j] + " Variation";
      assert names[k][|names[k]| - 1] != 'e';
    }
  }

  /** The derived name is never that of the temporary column. */
  lemma PriorLabelNotTemporary(valueName: string)
    requires PriorLabel(valueName).Ok?
    ensures PriorLabel(valueName).value != PreviousYearValue
  {
    var derived := PriorLabel(valueName).value;
    assert derived[|derived| - 1] == 'r' && PreviousYearValue[18] == 'e';
  }

  /** Lines 115-124 on the frame: the temporary column receives the
      division, the derived column is inserted before it, which puts it
      after the last variation column, and the temporary column is dropped. */
  method AddPriorColumn(df: DataFrame, names: seq<string>) returns (r: Result<Table, Failure>)
    requires df.Valid() && df.columns == Names(names) && PreviousYearValue !in names
    modifies df
    ensures r == AddPrior(names, old(df.rows))
  {
    var w := |names|;
    if w < 2 {
      return Err(IndexError);
    }
    if !Unique(names, w - 2) || !Unique(names, w - 1) {
      return Err(DuplicateColumn);
    }
    r := DeriveColumn(df, names);
  }

  /** Lines 118-124 once the last two columns are known to be single:
      the temporary column receives the division, then the derived name is
      worked out and the derived column takes its place. */
  method DeriveColumn(df: DataFrame, names: seq<string>) returns (r: Result<Table, Failure>)
    requires df.Valid() && df.columns == Names(names) && PreviousYearValue !in names
    requires |names| >= 2 && Unique(names, |names| - 2) && Unique(names, |names| - 1)
    modifies df
    ensures r == AddPrior(names, old(df.rows))
  {
    var w := |names|;
    ghost var rows := df.rows;
    var prior := DivideColumns(df.Column(w - 2), df.Column(w - 1));
    assert prior == PriorValues(rows, w);
    df.Assign(Name(PreviousYearValue), prior);
    var derived := PriorLabel(names[w - 2]);
    if derived.Err? {
      return Err(derived.error);
    }
    PriorLabelNotTemporary(names[w - 2]);
    r := InsertDerived(df, names, derived.value, rows, prior);
  }

  /** Lines 123-124: the derived column is inserted just before the
      temporary column, a copy of it, which is then dropped. */
  method InsertDerived(df: DataFrame, names: seq<string>, derived: string, ghost rows: seq<seq<Cell>>, prior: seq<Cell>)
    returns (r: Result<Table, Failure>)
    requires PreviousYearValue !in names && derived != PreviousYearValue
    requires |prior| == |rows| && forall i :: 0 <= i < |rows| ==> |rows[i]| == |names|
    requires df.Valid() && df.columns == Names(names) + [Name(PreviousYearValue)]
    requires df.rows == AppendColumn(rows, prior)
    modifies df
    ensures r == if derived in names then Err(DuplicateColumn)
                 else Ok(Table(names + [derived], AppendColumn(rows, prior)))
  {
    var w := |names|;
    var moved := df.Column(w);
    LastColumn(rows, prior, w);
    InsertTemporary(names, derived);
    var ok := df.Insert(w, Name(derived), moved);
    if !ok {
      return Err(DuplicateColumn);
    }
    r := DropPrevious(df, names, derived, rows, prior);
  }

  /** Line 124: the temporary column is dropped, and the frame is the
      period columns followed by the derived column. */
  method DropPrevious(df: DataFrame, names: seq<string>, derived: string, ghost rows: seq<seq<Cell>>, ghost prior: seq<Cell>)
    returns (r: Result<Table, Failure>)
    requires PreviousYearValue !in names && derived != PreviousYearValue
    requires |prior| == |rows| && forall i :: 0 <= i < |rows| ==> |rows[i]| == |names|
    requires df.Valid() && df.columns == Names(names) + [Name(derived), Name(PreviousYearValue)]
    requires df.rows == InsertColumn(AppendColumn(rows, prior), |names|, prior)
    modifies df
    ensures r == Ok(Table(names + [derived], AppendColumn(rows, prior)))
  {
    ghost var keep := Others(df.columns, Name(PreviousYearValue));
    df.Drop(Name(PreviousYearValue));
    DropTemporaryColumns(names, derived);
    DropTemporaryRows(rows, prior, keep);
    assert NamesOf(df.columns) == names + [derived];
    r := Ok(df.Snapshot());
  }

  /** The column appended last holds the appended values. */
  lemma LastColumn(rows: seq<seq<Cell>>, prior: seq<Cell>, w: nat)
    requires |prior| == |rows| && forall i :: 0 <= i < |rows| ==> |rows[i]| == w
    ensures ColumnOf(AppendColumn(rows, prior), w) == prior
  {
  }

  /** The derived name is new exactly when no period column carries it, and
      once it is inserted before the temporary column, dropping that column
      leaves the period names followed by the derived name. */
  lemma InsertTemporary(names: seq<string>, derived: string)
    requires PreviousYearValue !in names && derived != PreviousYearValue
    ensures var before := Names(names) + [Name(PreviousYearValue)];
      var after := before[..|names|] + [Name(derived)] + before[|names|..];
      && (Name(derived) in before <==> derived in names)
      && Select(after, Others(after, Name(PreviousYearValue))) == Names(names + [derived])
      && NamesOf(Names(names + [derived])) == names + [derived]
  {
    var before := Names(names) + [Name(PreviousYearValue)];
    var after := before[..|names|] + [Name(derived)] + before[|names|..];
    assert after == Names(names) + [Name(derived), Name(PreviousYearValue)];
    DropTemporaryColumns(names, derived);
  }

  /** Dropping the temporary column after the insertion leaves the period
      names and the derived name, in that order. */
  lemma DropTemporaryColumns(names: seq<string>, derived: string)
    requires PreviousYearValue !in names && derived != PreviousYearValue
    ensures var columns := Names(names) + [Name(derived), Name(PreviousYearValue)];
      Select(columns, Others(columns, Name(PreviousYearValue))) == Names(names + [derived])
  {
    var columns := Names(names) + [Name(derived), Name(PreviousYearValue)];
    var keep := Others(columns, Name(PreviousYearValue));
    assert forall k :: 0 <= k < |names| ==> columns[k] == Name(names[k]);
    SelectAllButLast(columns, keep);
    assert columns[..|names| + 1] == Names(names + [derived]);
  }

  /** Dropping the last column of rows that hold the derived values twice
      at their end leaves them once. */
  lemma DropTemporaryRows(rows: seq<seq<Cell>>, prior: seq<Cell>, keep: seq<bool>)
    requires |keep| >= 2 && |prior| == |rows| && forall i :: 0 <= i < |rows| ==> |rows[i]| + 2 == |keep|
    requires !keep[|keep| - 1] && forall k :: 0 <= k < |keep| - 1 ==> keep[k]
    ensures SelectColumns(InsertColumn(AppendColumn(rows, prior), |keep| - 2, prior), keep) == AppendColumn(rows, prior)
  {
    var w := |keep| - 2;
    var appended := AppendColumn(rows, prior);
    var inserted := InsertColumn(appended, w, prior);
    forall i | 0 <= i < |rows| ensures Select(inserted[i], keep) == appended[i] {
      assert appended[i][..w] == rows[i] && appended[i][w..] == [prior[i]];
      assert inserted[i] == rows[i] + [prior[i]] + [prior[i]];
      SelectAllButLast(inserted[i], keep);
      assert inserted[i][..w + 1] == appended[i];
    }
  }

  /** The flattening loop agrees with the flattening the script specifies. */
  lemma ScriptRowsAgree(rows: seq<seq<Option<string>>>, r: Result<seq<seq<Cell>>, Failure>)
    requires r.Ok? <==> forall i :: 0 <= i < |rows| ==> FlattenRow(rows[i], Script).Ok?
    requires r.Ok? ==> |r.value| == |rows| && forall i :: 0 <= i < |rows| ==> r.value[i] == FlattenRow(rows[i], Script).value
    requires r.Err? ==> exists k :: 0 <= k < |rows| && FlattenRow(rows[k], Script) == Err(r.error)
                                   && forall i :: 0 <= i < k ==> FlattenRow(rows[i], Script).Ok?
    ensures r == MapAll(rows, ScriptRow)
  {
    if r.Ok? {
      MapAllResults(rows, ScriptRow, r.value);
    } else {
      var k :| 0 <= k < |rows| && FlattenRow(rows[k], Script) == Err(r.error)
               && forall i :: 0 <= i < k ==> FlattenRow(rows[i], Script).Ok?;
      MapAllFirstFailure(rows, ScriptRow, k);
    }
  }

  /** process_table_data without the file output: the rows are flattened,
      a frame is built from the header row and the flattened rows, the
      header row is dropped, the columns are named when the names fit, and
      the derived column is added. */
  method ProcessTableData(f: RawFrame) returns (r: Result<Table, Failure>)
    ensures r == ProcessedTable(f)
  {
    var flat := FlattenRows(f.rows, Script);
    ScriptRowsAgree(f.rows, flat);
    if flat.Err? {
      return Err(flat.error);
    }
    r := ProcessFlattened(f.header, flat.value);
  }

  /** Lines 95-129 once the rows are flattened: the frame is built with the
      header row first, which is then dropped, the names replace the
      positions when they match them, and the derived column is added. */
  method ProcessFlattened(header: seq<string>, flat: seq<seq<Cell>>) returns (r: Result<Table, Failure>)
    ensures r == NamedTable(header, flat)
  {
    var split := [HeaderRow(header)] + flat;
    var df := new DataFrame.FromRows(split);
    df.DropFirstRow();
    PadRowsTail(split, MaxWidth(split), Missing);
    assert split[1..] == flat;
    var names := BuildColumnNames(header);
    if names.Err? {
      return Err(names.error);
    }
    NoPreviousYearValue(header);
    r := NameAndDerive(df, names.value, HeaderRow(header), flat);
  }

  /** Lines 115-124 on the frame without its header row: the names replace
      the positions when they match them, and the derived column is added. */
  method NameAndDerive(df: DataFrame, names: seq<string>, first: seq<Cell>, flat: seq<seq<Cell>>)
    returns (r: Result<Table, Failure>)
    requires df.Valid() && PreviousYearValue !in names
    requires df.columns == Positions(MaxWidth([first] + flat))
    requires (MaxWidthCons(first, flat); df.rows == PadRows(flat, MaxWidth([first] + flat), Missing))
    modifies df
    ensures r == Shaped(names, first, flat)
  {
    var w := |df.columns|;
    if |names| == w {
      df.SetColumns(Names(names));
    }
    if w < 2 {
      return Err(IndexError);
    }
    if |names| != w {
      return Err(NotAString);
    }
    r := AddPriorColumn(df, names);
  }
}
