/** The transformation of the first table of a company page (the identity
    table): the label of each row is normalised and every other cell goes
    through convert_value; the header is kept as the column names. */
module SimpleTable {
  import opened Wrappers
  import opened Frames
  import opened ValueParser
  import opened TitleNormalizer

  /** One cell after the label, through convert_value. */
  function ConvertCell(c: Option<string>): (r: Result<Cell, Failure>)
    ensures r.Ok? <==> ConvertValue(c).Ok?
    ensures r.Ok? ==> r.value == ToCell(ConvertValue(c).value)
    ensures r.Err? ==> r.error == ValueError
  {
    match ConvertValue(c)
    case Err(e) => Err(e)
    case Ok(v) => Ok(ToCell(v))
  }

  /** One transformed row: the normalised label, then the converted cells.
      A row without cells has no label (IndexError) and a NaN label is not
      text for unidecode. */
  function TransformRow(row: seq<Option<string>>): (r: Result<seq<Cell>, Failure>)
    ensures r.Ok? <==> |row| > 0 && row[0].Some? && forall j :: 1 <= j < |row| ==> ConvertCell(row[j]).Ok?
    ensures r.Ok? ==> |r.value| == |row| && r.value[0] == Text(Normalize(row[0].value))
    ensures r.Ok? ==> forall j :: 1 <= j < |row| ==> r.value[j] == ConvertCell(row[j]).value
    ensures r.Err? ==> r.error == (if row == [] then IndexError else if row[0].None? then LabelNotText else ValueError)
  {
    if row == [] then Err(IndexError)
    else if row[0].None? then Err(LabelNotText)
    else
      TailIndex(row);
      match MapAll(row[1..], ConvertCell)
      case Err(e) => Err(e)
      case Ok(cells) =>
        var title := Text(Normalize(row[0].value));
        ConsIndex(title, cells);
        Ok([title] + cells)
  }

  /** The cells after the first are those of the tail, one place earlier. */
  lemma TailIndex<T>(s: seq<T>)
    requires |s| > 0
    ensures forall j :: 1 <= j < |s| ==> s[1..][j - 1] == s[j]
  {
  }

  /** The cells after a first one are those of the rest, one place later. */
  lemma ConsIndex<T>(x: T, s: seq<T>)
    ensures forall j :: 1 <= j <= |s| ==> ([x] + s)[j] == s[j - 1]
  {
  }

  /** The table-1 result: the transformed rows put in a frame under the
      original header. */
  function Table1(f: RawFrame): Result<Table, Failure>
  {
    match MapAll(f.rows, TransformRow)
    case Err(e) => Err(e)
    case Ok(rows) => Framed(f.header, rows)
  }

  /** What table 1 becomes: it fails with the failure of the first row that
      cannot be transformed, or, for a page with a header but no rows,
      because pandas builds a frame with no columns from no rows; otherwise
      every label is normalised and every other cell converted, in place. */
  lemma Table1Result(f: RawFrame)
    requires WellFormed(f)
    ensures var r := Table1(f);
      && (r.Ok? <==> (forall i :: 0 <= i < |f.rows| ==> TransformRow(f.rows[i]).Ok?) && (f.rows == [] ==> f.header == []))
      && (r.Err? && f.rows == [] ==> r.error == ShapeMismatch)
      && (r.Err? && f.rows != [] ==> exists k :: 0 <= k < |f.rows| && TransformRow(f.rows[k]) == Err(r.error)
                                               && forall i :: 0 <= i < k ==> TransformRow(f.rows[i]).Ok?)
      && (r.Ok? ==> r.value.columns == f.header && |r.value.rows| == |f.rows| && Rectangular(r.value))
      && (r.Ok? ==> forall i :: 0 <= i < |f.rows| ==>
            |f.rows[i]| > 0 && f.rows[i][0].Some? && r.value.rows[i][0] == Text(Normalize(f.rows[i][0].value)))
      && (r.Ok? ==> forall i, j :: 0 <= i < |f.rows| && 1 <= j < |f.header| ==>
            ConvertValue(f.rows[i][j]).Ok? && r.value.rows[i][j] == ToCell(ConvertValue(f.rows[i][j]).value))
  {
    Table1Rows(f);
    if Table1(f).Ok? {
      Table1Labels(f);
      Table1Cells(f);
    }
  }

  /** Table 1 succeeds exactly when every row transforms and the frame can
      be built, and its rows are then the transformed rows. */
  lemma Table1Rows(f: RawFrame)
    requires WellFormed(f)
    ensures var m := MapAll(f.rows, TransformRow);
      && (Table1(f).Ok? <==> m.Ok? && (f.rows == [] ==> f.header == []))
      && (m.Err? ==> Table1(f) == Err(m.error))
      && (m.Ok? && f.rows == [] && f.header != [] ==> Table1(f) == Err(ShapeMismatch))
      && (Table1(f).Ok? ==> Table1(f).value == Table(f.header, m.value))
  {
    var m := MapAll(f.rows, TransformRow);
    if m.Ok? {
      FramedUniform(f.header, m.value);
    }
  }

  /** Each label of a built table 1 is the normalised label of its row. */
  lemma Table1Labels(f: RawFrame)
    requires WellFormed(f) && Table1(f).Ok?
    ensures forall i :: 0 <= i < |f.rows| ==>
      |f.rows[i]| > 0 && f.rows[i][0].Some? && Table1(f).value.rows[i][0] == Text(Normalize(f.rows[i][0].value))
  {
    Table1Rows(f);
  }

  /** Each other cell of a built table 1 is convert_value of its cell. */
  lemma Table1Cells(f: RawFrame)
    requires WellFormed(f) && Table1(f).Ok?
    ensures forall i, j :: 0 <= i < |f.rows| && 1 <= j < |f.header| ==>
      ConvertValue(f.rows[i][j]).Ok? && Table1(f).value.rows[i][j] == ToCell(ConvertValue(f.rows[i][j]).value)
  {
    Table1Rows(f);
  }

  /** The loop of lines 163-171: each row is transformed in turn (its label
      normalised, its other cells converted) and appended to a list, a frame
      is built from that list and the header is set as its column names. */
  method TransformTable1(f: RawFrame) returns (r: Result<Table, Failure>)
    ensures r == Table1(f)
  {
    var rows := MapEach(f.rows, TransformRow);
    if rows.Err? {
      return Err(rows.error);
    }
    r := BuildFrame(f.header, rows.value);
  }
}
