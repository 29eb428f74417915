/** The first half of process_table_data (InfonetScrap.py, lines 82-93):
    every row of a period table becomes its normalised label followed by the
    entries of its period cells. A cell holds a value and, on its last line,
    the variation from the previous period; it gives one entry per line it
    has up to two, and a NaN cell gives the '' placeholder.

    The definitions take the two conversions as a parameter: the script
    normalises labels with normalize_title and converts lines with
    convert_value (YearSeries.Script). */
module RowFlattening {
  import opened Wrappers
  import opened Strings
  import opened Frames

  /** How a row's label and its cell lines are converted. */
  datatype Converters = Converters(title: string -> string, number: string -> Result<Cell, Failure>)

  /** Whether a cell has a second line, that is a variation after its value. */
  predicate HasVariation(c: Option<string>)
  {
    c.Some? && '\n' in c.value
  }

  /** How many entries a cell contributes: one, or two for a cell with a
      variation line. */
  function EntryCount(c: Option<string>): nat
  {
    if HasVariation(c) then 2 else 1
  }

  /** The first line of a cell's text, cell.split('\n')[0]. */
  function FirstLine(s: string): (r: string)
    ensures |r| <= |s| && r == s[..|r|] && '\n' !in r
    ensures |r| < |s| ==> s[|r|] == '\n'
  {
    SplitFirst(s, '\n');
    Split(s, '\n')[0]
  }

  /** The last line of a cell's text, cell.split('\n')[-1]. */
  function LastLine(s: string): (r: string)
    ensures |r| <= |s| && r == s[|s| - |r|..] && '\n' !in r
    ensures |r| < |s| ==> s[|s| - |r| - 1] == '\n'
  {
    SplitLast(s, '\n');
    LastPiece(s, '\n')
  }

  /** The entries of one cell: a NaN cell gives the placeholder; otherwise
      the first line is converted, and the last line too when there is more
      than one. */
  function CellEntries(c: Option<string>, cv: Converters): (r: Result<seq<Cell>, Failure>)
    ensures r.Ok? ==> |r.value| == EntryCount(c)
  {
    if c.None? then Ok([Placeholder])
    else
      SplitFirst(c.value, '\n');
      var lines := Split(c.value, '\n');
      match cv.number(lines[0])
      case Err(e) => Err(e)
      case Ok(first) =>
        if |lines| == 1 then Ok([first])
        else
          match cv.number(lines[|lines| - 1])
          case Err(e) => Err(e)
          case Ok(last) => Ok([first, last])
  }

  /** The number of entries a sequence of cells contributes. */
  function TotalEntries(cells: seq<Option<string>>): (n: nat)
    ensures |cells| <= n <= 2 * |cells|
  {
    if cells == [] then 0 else TotalEntries(cells[..|cells| - 1]) + EntryCount(cells[|cells| - 1])
  }

  /** The entries of a sequence of cells, one cell after the other. */
  function Entries(cells: seq<Option<string>>, cv: Converters): (r: Result<seq<Cell>, Failure>)
    ensures r.Ok? ==> |r.value| == TotalEntries(cells)
  {
    if cells == [] then Ok([])
    else
      match Entries(cells[..|cells| - 1], cv)
      case Err(e) => Err(e)
      case Ok(es) =>
        match CellEntries(cells[|cells| - 1], cv)
        case Err(e) => Err(e)
        case Ok(last) => Ok(es + last)
  }

  /** One flattened row: the normalised label, then the entries of the other
      cells. A row without cells has no label (IndexError) and a NaN label
      is not text for unidecode. */
  function FlattenRow(row: seq<Option<string>>, cv: Converters): (r: Result<seq<Cell>, Failure>)
    ensures r.Ok? ==> |row| > 0 && |r.value| == 1 + TotalEntries(row[1..])
  {
    if row == [] then Err(IndexError)
    else if row[0].None? then Err(LabelNotText)
    else
      match Entries(row[1..], cv)
      case Err(e) => Err(e)
      case Ok(es) => Ok([Text(cv.title(row[0].value))] + es)
  }

  /** Cells contribute twice their number of entries exactly when every one
      of them has a variation line. */
  lemma {:induction false} TotalEntriesFull(cells: seq<Option<string>>)
    ensures TotalEntries(cells) == 2 * |cells| <==> forall j :: 0 <= j < |cells| ==> HasVariation(cells[j])
  {
    if cells != [] {
      var init := cells[..|cells| - 1];
      TotalEntriesFull(init);
      assert forall j :: 0 <= j < |init| ==> init[j] == cells[j];
    }
  }

  /** The cell entries are there exactly when every cell's entries are, and
      a failure is that of the first cell that fails. */
  lemma {:induction false} EntriesOk(cells: seq<Option<string>>, cv: Converters)
    ensures Entries(cells, cv).Ok? <==> forall j :: 0 <= j < |cells| ==> CellEntries(cells[j], cv).Ok?
    ensures Entries(cells, cv).Err? ==> exists k :: (0 <= k < |cells|
      && CellEntries(cells[k], cv) == Err(Entries(cells, cv).error)
      && forall j :: 0 <= j < k ==> CellEntries(cells[j], cv).Ok?)
    decreases |cells|
  {
    if cells != [] {
      var init := cells[..|cells| - 1];
      EntriesOk(init, cv);
      assert forall j :: 0 <= j < |init| ==> init[j] == cells[j];
    }
  }

  /** A cell that fails after cells that do not decides the failure. */
  lemma {:induction false} EntriesFirstFailure(cells: seq<Option<string>>, k: nat, cv: Converters)
    requires k < |cells| && Entries(cells[..k], cv).Ok? && CellEntries(cells[k], cv).Err?
    ensures Entries(cells, cv) == Err(CellEntries(cells[k], cv).error)
    decreases |cells|
  {
    var init := cells[..|cells| - 1];
    if k < |cells| - 1 {
      assert init[..k] == cells[..k];
      EntriesFirstFailure(init, k, cv);
    } else {
      assert init == cells[..k];
    }
  }

  /** The entries of cell j of a sequence sit right after those of the cells
      before it: cells keep their order and nothing is lost or added. */
  lemma {:induction false} EntriesOf(cells: seq<Option<string>>, j: nat, cv: Converters)
    requires Entries(cells, cv).Ok? && j < |cells|
    ensures CellEntries(cells[j], cv).Ok?
    ensures var at := TotalEntries(cells[..j]);
      && at + EntryCount(cells[j]) <= |Entries(cells, cv).value|
      && forall k :: 0 <= k < EntryCount(cells[j]) ==>
           Entries(cells, cv).value[at + k] == CellEntries(cells[j], cv).value[k]
    decreases |cells|
  {
    var init := cells[..|cells| - 1];
    var es := Entries(init, cv).value;
    assert Entries(cells, cv).value == es + CellEntries(cells[|cells| - 1], cv).value;
    if j == |cells| - 1 {
      assert cells[..j] == init;
    } else {
      assert init[j] == cells[j];
      EntriesOf(init, j, cv);
      assert init[..j] == cells[..j];
    }
  }

  /** A flattened row: the normalised label first, then the entries of each
      cell in order, each cell's entries starting after those of the cells
      before it. */
  lemma FlattenRowEntries(row: seq<Option<string>>, j: nat, cv: Converters)
    requires FlattenRow(row, cv).Ok? && 1 <= j < |row|
    ensures var r := FlattenRow(row, cv).value;
      && r[0] == Text(cv.title(row[0].value))
      && CellEntries(row[j], cv).Ok?
      && var at := 1 + TotalEntries(row[1..j]);
         at + EntryCount(row[j]) <= |r|
         && forall k :: 0 <= k < EntryCount(row[j]) ==> r[at + k] == CellEntries(row[j], cv).value[k]
  {
    var cells := row[1..];
    EntriesOf(cells, j - 1, cv);
    assert cells[j - 1] == row[j];
    assert cells[..j - 1] == row[1..j];
  }

  /** A row flattens exactly when it has a label that is text and every other
      cell gives its entries; the failure is IndexError for a row without
      cells, LabelNotText for a NaN label and otherwise that of the first
      cell that fails. A flattened row is at least as wide as the row and at
      most twice as wide less one. */
  lemma FlattenRowOk(row: seq<Option<string>>, cv: Converters)
    ensures var r := FlattenRow(row, cv);
      && (r.Ok? <==> |row| > 0 && row[0].Some? && forall j :: 1 <= j < |row| ==> CellEntries(row[j], cv).Ok?)
      && (row == [] ==> r == Err(IndexError))
      && (row != [] && row[0].None? ==> r == Err(LabelNotText))
      && (r.Err? && row != [] && row[0].Some? ==> exists k :: (1 <= k < |row|
            && CellEntries(row[k], cv) == Err(r.error)
            && forall j :: 1 <= j < k ==> CellEntries(row[j], cv).Ok?))
      && (r.Ok? ==> |row| <= |r.value| <= 2 * |row| - 1)
  {
    if row != [] {
      var cells := row[1..];
      EntriesOk(cells, cv);
      assert forall j :: 1 <= j < |row| ==> row[j] == cells[j - 1];
      if FlattenRow(row, cv).Err? && row[0].Some? {
        var k :| 0 <= k < |cells| && CellEntries(cells[k], cv) == Err(Entries(cells, cv).error)
          && forall j :: 0 <= j < k ==> CellEntries(cells[j], cv).Ok?;
        assert CellEntries(row[k + 1], cv) == Err(FlattenRow(row, cv).error);
      }
    }
  }

  /** A cell's first entry is the conversion of the text before its first
      line break, all of the text for a single line. */
  lemma FirstLineEntry(s: string, p: string, cv: Converters)
    requires |p| <= |s| && '\n' !in p && (|p| < |s| ==> s[|p|] == '\n')
    requires forall k :: 0 <= k < |p| ==> s[k] == p[k]
    requires CellEntries(Some(s), cv).Ok?
    ensures cv.number(p).Ok? && CellEntries(Some(s), cv).value[0] == cv.number(p).value
  {
    FirstPieceUnique(s, '\n', p);
  }

  /** The second entry of a cell with a line break is the conversion of the
      text after its last line break. */
  lemma LastLineEntry(s: string, q: string, cv: Converters)
    requires '\n' in s
    requires |q| < |s| && '\n' !in q && s[|s| - |q| - 1] == '\n'
    requires forall p :: |s| - |q| <= p < |s| ==> s[p] == q[p - (|s| - |q|)]
    requires CellEntries(Some(s), cv).Ok?
    ensures cv.number(q).Ok? && CellEntries(Some(s), cv).value[1] == cv.number(q).value
  {
    SplitFirst(s, '\n');
    LastPieceUnique(s, '\n', q);
  }

  /** The inner loop of lines 84-92: the label is normalised, then for each
      other cell its first line, and its last line when it has several, are
      converted and appended, or the placeholder for a NaN cell. */
  method FlattenCells(row: seq<Option<string>>, cv: Converters) returns (r: Result<seq<Cell>, Failure>)
    ensures r == FlattenRow(row, cv)
  {
    if row == [] {
      return Err(IndexError);
    }
    if row[0].None? {
      return Err(LabelNotText);
    }
    var cells := row[1..];
    var entries: seq<Cell> := [];
    var j := 0;
    while j < |cells|
      invariant 0 <= j <= |cells|
      invariant Entries(cells[..j], cv) == Ok(entries)
    {
      assert cells[..j + 1][..j] == cells[..j];
      var cell := cells[j];
      var added: seq<Cell>;
      if cell.Some? {
        var lines := Split(cell.value, '\n');
        var first := cv.number(lines[0]);
        if first.Err? {
          EntriesFirstFailure(cells, j, cv);
          return Err(first.error);
        }
        added := [first.value];
        if |lines| > 1 {
          var last := cv.number(lines[|lines| - 1]);
          if last.Err? {
            EntriesFirstFailure(cells, j, cv);
            return Err(last.error);
          }
          added := [first.value, last.value];
        }
      } else {
        added := [Placeholder];
      }
      assert CellEntries(cell, cv) == Ok(added);
      entries := entries + added;
      j := j + 1;
    }
    assert cells[..j] == cells;
    r := Ok([Text(cv.title(row[0].value))] + entries);
  }

  /** The outer loop of lines 82-93: every row is flattened in turn and
      appended; the first row that raises ends the loop. */
  method FlattenRows(rows: seq<seq<Option<string>>>, cv: Converters)
    returns (r: Result<seq<seq<Cell>>, Failure>)
    ensures r.Ok? <==> forall i :: 0 <= i < |rows| ==> FlattenRow(rows[i], cv).Ok?
    ensures r.Ok? ==> |r.value| == |rows| && forall i :: 0 <= i < |rows| ==> r.value[i] == FlattenRow(rows[i], cv).value
    ensures r.Err? ==> exists k :: 0 <= k < |rows| && FlattenRow(rows[k], cv) == Err(r.error)
                                   && forall i :: 0 <= i < k ==> FlattenRow(rows[i], cv).Ok?
  {
    var flat: seq<seq<Cell>> := [];
    var i := 0;
    while i < |rows|
      invariant 0 <= i <= |rows| && |flat| == i
      invariant forall k :: 0 <= k < i ==> FlattenRow(rows[k], cv).Ok? && flat[k] == FlattenRow(rows[k], cv).value
    {
      var row := FlattenCells(rows[i], cv);
      if row.Err? {
        return Err(row.error);
      }
      flat := flat + [row.value];
      i := i + 1;
    }
    r := Ok(flat);
  }
}
