/** The tables the script handles: the text grid read from a page, and the
    pandas DataFrame operations it applies in place. */
module Frames {
  import opened Wrappers

  /** One entry of a processed table: a row label, a number, NaN (None in
      the source), or the '' placeholder written for a NaN period cell. */
  datatype Cell = Text(s: string) | Num(x: real) | Missing | Placeholder

  /** The cell a converted value becomes: None is stored as NaN. */
  function ToCell(v: Option<real>): (c: Cell)
    ensures c.Num? <==> v.Some?
    ensures v.Some? ==> c.x == v.value
    ensures v.None? ==> c == Missing
  {
    if v.Some? then Num(v.value) else Missing
  }

  /** A pandas column label: a name, or the position pandas gives the
      columns of a frame built from bare lists. */
  datatype Label = Name(name: string) | Position(index: nat)

  /** A table as it is returned and written: column names and rows. */
  datatype Table = Table(columns: seq<string>, rows: seq<seq<Cell>>)

  predicate Rectangular(t: Table)
  {
    forall i :: 0 <= i < |t.rows| ==> |t.rows[i]| == |t.columns|
  }

  /** pd.DataFrame(data[1:], columns=data[0]) on extracted text: the header
      and the data rows, NaN (None) where a row was shorter than the header. */
  datatype RawFrame = RawFrame(header: seq<string>, rows: seq<seq<Option<string>>>)

  predicate WellFormed(f: RawFrame)
  {
    forall i :: 0 <= i < |f.rows| ==> |f.rows[i]| == |f.header|
  }

  /** The length of the longest row, 0 for no rows. */
  function MaxWidth<T>(rows: seq<seq<T>>): (w: nat)
    ensures forall i :: 0 <= i < |rows| ==> |rows[i]| <= w
    ensures rows != [] ==> exists i :: 0 <= i < |rows| && |rows[i]| == w
    ensures rows == [] ==> w == 0
  {
    if rows == [] then 0
    else
      var w := MaxWidth(rows[..|rows| - 1]);
      var last := |rows[|rows| - 1]|;
      if last > w then last else w
  }

  /** A row filled up to width w. */
  function Pad<T>(row: seq<T>, w: nat, fill: T): (r: seq<T>)
    requires |row| <= w
    ensures |r| == w && forall j :: 0 <= j < w ==> r[j] == (if j < |row| then row[j] else fill)
  {
    row + seq(w - |row|, _ => fill)
  }

  function PadRows<T>(rows: seq<seq<T>>, w: nat, fill: T): (r: seq<seq<T>>)
    requires forall i :: 0 <= i < |rows| ==> |rows[i]| <= w
    ensures |r| == |rows| && forall i :: 0 <= i < |r| ==> r[i] == Pad(rows[i], w, fill)
  {
    seq(|rows|, i requires 0 <= i < |rows| => Pad(rows[i], w, fill))
  }

  /** pd.DataFrame(data[1:], columns=data[0]): a frame needs a header row; the
      data rows are as wide as their longest row, which must equal the header
      (pandas raises otherwise), and shorter rows are filled with NaN. */
  function FrameOf(data: seq<seq<string>>): (r: Result<RawFrame, Failure>)
    ensures data == [] ==> r == Err(IndexError)
    ensures r.Ok? <==> (data != [] && (|data| == 1 ||
                          ((forall i :: 1 <= i < |data| ==> |data[i]| <= |data[0]|)
                           && exists i :: 1 <= i < |data| && |data[i]| == |data[0]|)))
    ensures r.Ok? ==> WellFormed(r.value) && r.value.header == data[0] && |r.value.rows| == |data| - 1
    ensures r.Ok? ==> forall i, j :: 0 <= i < |r.value.rows| && 0 <= j < |data[0]| ==>
      r.value.rows[i][j] == (if j < |data[i + 1]| then Some(data[i + 1][j]) else None)
  {
    if data == [] then Err(IndexError)
    else
      var body := data[1..];
      if body != [] && MaxWidth(body) != |data[0]| then Err(ShapeMismatch)
      else
        var cells := seq(|body|, i requires 0 <= i < |body| =>
          seq(|body[i]|, j requires 0 <= j < |body[i]| => Some(body[i][j])));
        Ok(RawFrame(data[0], PadRows(cells, |data[0]|, None)))
  }

  /** The labels 0, 1, ..., w - 1. */
  function Positions(w: nat): (r: seq<Label>)
    ensures |r| == w && forall j :: 0 <= j < w ==> r[j] == Position(j)
  {
    seq(w, (j: nat) => Position(j))
  }

  function Names(names: seq<string>): (r: seq<Label>)
    ensures |r| == |names| && forall j :: 0 <= j < |names| ==> r[j] == Name(names[j])
  {
    seq(|names|, j requires 0 <= j < |names| => Name(names[j]))
  }

  predicate AllNamed(labels: seq<Label>)
  {
    forall j :: 0 <= j < |labels| ==> labels[j].Name?
  }

  function NamesOf(labels: seq<Label>): (r: seq<string>)
    requires AllNamed(labels)
    ensures |r| == |labels| && forall j :: 0 <= j < |r| ==> labels[j] == Name(r[j])
  {
    seq(|labels|, j requires 0 <= j < |labels| => labels[j].name)
  }

  /** Whether the k-th element occurs nowhere else: pandas selects a single
      column by a label only when no other column carries it. */
  predicate Unique<T(==)>(s: seq<T>, k: nat)
    requires k < |s|
  {
    forall j :: 0 <= j < |s| && j != k ==> s[j] != s[k]
  }

  /** The elements of s whose flag in keep is set, in order. */
  function Select<T>(s: seq<T>, keep: seq<bool>): (r: seq<T>)
    requires |keep| == |s|
    ensures |r| <= |s|
  {
    if s == [] then []
    else Select(s[..|s| - 1], keep[..|s| - 1]) + (if keep[|s| - 1] then [s[|s| - 1]] else [])
  }

  /** Every row with one more cell at its end. */
  function AppendColumn(rows: seq<seq<Cell>>, values: seq<Cell>): (r: seq<seq<Cell>>)
    requires |values| == |rows|
    ensures |r| == |rows| && forall i :: 0 <= i < |r| ==> r[i] == rows[i] + [values[i]]
  {
    seq(|rows|, i requires 0 <= i < |rows| => rows[i] + [values[i]])
  }

  /** Every row with one more cell at position loc. */
  function InsertColumn(rows: seq<seq<Cell>>, loc: nat, values: seq<Cell>): (r: seq<seq<Cell>>)
    requires |values| == |rows| && forall i :: 0 <= i < |rows| ==> loc <= |rows[i]|
    ensures |r| == |rows|
    ensures forall i :: 0 <= i < |r| ==> r[i] == rows[i][..loc] + [values[i]] + rows[i][loc..]
  {
    seq(|rows|, i requires 0 <= i < |rows| => rows[i][..loc] + [values[i]] + rows[i][loc..])
  }

  /** Every row reduced to the cells of the kept columns. */
  function SelectColumns(rows: seq<seq<Cell>>, keep: seq<bool>): (r: seq<seq<Cell>>)
    requires forall i :: 0 <= i < |rows| ==> |rows[i]| == |keep|
    ensures |r| == |rows| && forall i :: 0 <= i < |r| ==> r[i] == Select(rows[i], keep)
  {
    seq(|rows|, i requires 0 <= i < |rows| => Select(rows[i], keep))
  }

  /** The j-th cell of every row. */
  function ColumnOf(rows: seq<seq<Cell>>, j: nat): (c: seq<Cell>)
    requires forall i :: 0 <= i < |rows| ==> j < |rows[i]|
    ensures |c| == |rows| && forall i :: 0 <= i < |rows| ==> c[i] == rows[i][j]
  {
    seq(|rows|, i requires 0 <= i < |rows| => rows[i][j])
  }

  /** Which columns a label does not name. */
  function Others(labels: seq<Label>, l: Label): (keep: seq<bool>)
    ensures |keep| == |labels| && forall j :: 0 <= j < |labels| ==> keep[j] == (labels[j] != l)
  {
    seq(|labels|, j requires 0 <= j < |labels| => labels[j] != l)
  }

  /** A pandas DataFrame: its column labels and its rows of cells. The
      methods are the in-place operations the script uses. */
  class DataFrame {
    var columns: seq<Label>
    var rows: seq<seq<Cell>>

    ghost predicate Valid()
      reads this
    {
      forall i :: 0 <= i < |rows| ==> |rows[i]| == |columns|
    }

    /** pd.DataFrame(list_of_rows): as many columns as the longest row,
        labelled by position, shorter rows filled with NaN. */
    constructor FromRows(data: seq<seq<Cell>>)
      ensures Valid()
      ensures columns == Positions(MaxWidth(data))
      ensures rows == PadRows(data, MaxWidth(data), Missing)
    {
      columns := Positions(MaxWidth(data));
      rows := PadRows(data, MaxWidth(data), Missing);
    }

    /** pd.read_csv of a table the script wrote with to_csv, taken as exact. */
    constructor Load(t: Table)
      requires Rectangular(t)
      ensures Valid() && columns == Names(t.columns) && rows == t.rows
    {
      columns := Names(t.columns);
      rows := t.rows;
    }

    /** The frame as a table; every column must carry a name. */
    function Snapshot(): (t: Table)
      reads this
      requires Valid() && AllNamed(columns)
      ensures Rectangular(t)
    {
      Table(NamesOf(columns), rows)
    }

    /** The cells of column j, top to bottom. */
    function Column(j: nat): (c: seq<Cell>)
      reads this
      requires Valid() && j < |columns|
      ensures |c| == |rows| && forall i :: 0 <= i < |rows| ==> c[i] == rows[i][j]
    {
      ColumnOf(rows, j)
    }

    /** df.drop(index=0).reset_index(drop=True). */
    method DropFirstRow()
      requires Valid() && |rows| > 0
      modifies this
      ensures Valid() && columns == old(columns) && rows == old(rows)[1..]
    {
      rows := rows[1..];
    }

    /** df.columns = names; pandas raises on a length mismatch, so callers
        compare the lengths first. */
    method SetColumns(names: seq<Label>)
      requires Valid() && |names| == |columns|
      modifies this
      ensures Valid() && columns == names && rows == old(rows)
    {
      columns := names;
    }

    /** df[label] = values for a label not yet used: a new last column. */
    method Assign(key: Label, values: seq<Cell>)
      requires Valid() && key !in columns && |values| == |rows|
      modifies this
      ensures Valid()
      ensures columns == old(columns) + [key] && rows == AppendColumn(old(rows), values)
    {
      columns := columns + [key];
      rows := AppendColumn(rows, values);
    }

    /** df.insert(loc, label, values); pandas refuses (ValueError) a label
        that already names a column, and then nothing changes. */
    method Insert(loc: nat, key: Label, values: seq<Cell>) returns (ok: bool)
      requires Valid() && loc <= |columns| && |values| == |rows|
      modifies this
      ensures Valid()
      ensures ok <==> key !in old(columns)
      ensures ok ==> columns == old(columns)[..loc] + [key] + old(columns)[loc..]
                     && rows == InsertColumn(old(rows), loc, values)
      ensures !ok ==> columns == old(columns) && rows == old(rows)
    {
      ok := key !in columns;
      if ok {
        columns := columns[..loc] + [key] + columns[loc..];
        rows := InsertColumn(rows, loc, values);
      }
    }

    /** df.drop(columns=[label], inplace=True): every column so labelled goes
        (pandas raises KeyError for a label it does not have). */
    method Drop(key: Label)
      requires Valid() && key in columns
      modifies this
      ensures Valid()
      ensures columns == Select(old(columns), Others(old(columns), key))
      ensures rows == SelectColumns(old(rows), Others(old(columns), key))
    {
      var keep := Others(columns, key);
      forall i | 0 <= i < |rows| ensures |Select(rows[i], keep)| == |Select(columns, keep)| {
        SelectLength(rows[i], keep, columns);
      }
      columns := Select(columns, keep);
      rows := SelectColumns(rows, keep);
    }

    /** df.rename(columns={from: to}, inplace=True): every column labelled
        from is relabelled. */
    method Rename(from: Label, to: Label)
      requires Valid()
      modifies this
      ensures Valid() && rows == old(rows) && |columns| == |old(columns)|
      ensures forall j :: 0 <= j < |columns| ==>
        columns[j] == (if old(columns)[j] == from then to else old(columns)[j])
    {
      columns := seq(|columns|, j requires 0 <= j < |columns| reads this =>
        if columns[j] == from then to else columns[j]);
    }
  }

  /** pd.DataFrame(data) followed by df.columns = header: the frame is as wide
      as its longest row (no columns for no rows, NaN filling shorter rows),
      and pandas refuses a header of another length. */
  function Framed(header: seq<string>, data: seq<seq<Cell>>): (r: Result<Table, Failure>)
    ensures r.Ok? <==> |header| == MaxWidth(data)
    ensures r.Err? ==> r.error == ShapeMismatch
    ensures r.Ok? ==> Rectangular(r.value) && r.value.columns == header && |r.value.rows| == |data|
    ensures r.Ok? ==> forall i :: 0 <= i < |data| ==> r.value.rows[i] == Pad(data[i], |header|, Missing)
  {
    if |header| != MaxWidth(data) then Err(ShapeMismatch)
    else Ok(Table(header, PadRows(data, MaxWidth(data), Missing)))
  }

  /** Rows of one width: the frame is the rows themselves under the header,
      unless there are no rows but a header. */
  lemma FramedUniform(header: seq<string>, data: seq<seq<Cell>>)
    requires forall i :: 0 <= i < |data| ==> |data[i]| == |header|
    ensures Framed(header, data) == if data == [] && header != [] then Err(ShapeMismatch) else Ok(Table(header, data))
  {
    if data != [] {
      var i :| 0 <= i < |data| && |data[i]| == MaxWidth(data);
      var rows := PadRows(data, MaxWidth(data), Missing);
      forall k | 0 <= k < |data| ensures rows[k] == data[k] {
        assert Pad(data[k], |data[k]|, Missing) == data[k] + [];
      }
      assert rows == data;
    }
  }

  /** The frame building itself: the DataFrame is made from the rows, then
      its columns are named. */
  method BuildFrame(header: seq<string>, data: seq<seq<Cell>>) returns (r: Result<Table, Failure>)
    ensures r == Framed(header, data)
  {
    var df := new DataFrame.FromRows(data);
    if |header| != |df.columns| {
      return Err(ShapeMismatch);
    }
    df.SetColumns(Names(header));
    assert NamesOf(df.columns) == header;
    r := Ok(df.Snapshot());
  }

  /** Selecting with every flag set keeps everything. */
  lemma {:induction false} SelectAll<T>(s: seq<T>, keep: seq<bool>)
    requires |keep| == |s| && forall k :: 0 <= k < |s| ==> keep[k]
    ensures Select(s, keep) == s
  {
    if s != [] {
      SelectAll(s[..|s| - 1], keep[..|s| - 1]);
    }
  }

  /** Selecting with every flag but the last set drops the last element. */
  lemma SelectAllButLast<T>(s: seq<T>, keep: seq<bool>)
    requires |keep| == |s| > 0 && !keep[|s| - 1]
    requires forall k :: 0 <= k < |s| - 1 ==> keep[k]
    ensures Select(s, keep) == s[..|s| - 1]
  {
    SelectAll(s[..|s| - 1], keep[..|s| - 1]);
  }

  /** Padding the rows after the first is padding all rows and dropping the first. */
  lemma PadRowsTail<T>(rows: seq<seq<T>>, w: nat, fill: T)
    requires rows != [] && forall i :: 0 <= i < |rows| ==> |rows[i]| <= w
    ensures PadRows(rows, w, fill)[1..] == PadRows(rows[1..], w, fill)
  {
    assert forall i :: 0 <= i < |rows| - 1 ==> rows[1..][i] == rows[i + 1];
  }

  /** The rows after the first are no wider than all the rows. */
  lemma MaxWidthCons<T>(first: seq<T>, rest: seq<seq<T>>)
    ensures forall i :: 0 <= i < |rest| ==> |rest[i]| <= MaxWidth([first] + rest)
  {
    var all := [first] + rest;
    assert forall i :: 0 <= i < |rest| ==> rest[i] == all[i + 1];
  }

  /** Selecting with the same flags gives the same number of elements. */
  lemma {:induction false} SelectLength<T, U>(s: seq<T>, keep: seq<bool>, u: seq<U>)
    requires |keep| == |s| == |u|
    ensures |Select(s, keep)| == |Select(u, keep)|
  {
    if s != [] {
      SelectLength(s[..|s| - 1], keep[..|s| - 1], u[..|u| - 1]);
    }
  }

  /** The positions whose flag is set, in increasing order. */
  function KeptIndices(keep: seq<bool>): (idx: seq<nat>)
    ensures forall k :: 0 <= k < |idx| ==> idx[k] < |keep| && keep[idx[k]]
    ensures forall k, l :: 0 <= k < l < |idx| ==> idx[k] < idx[l]
    ensures forall j :: 0 <= j < |keep| && keep[j] ==> j in idx
  {
    if keep == [] then []
    else KeptIndices(keep[..|keep| - 1]) + (if keep[|keep| - 1] then [|keep| - 1] else [])
  }

  /** The k-th selected element is the element at the k-th kept position. */
  lemma {:induction false} SelectAt<T>(s: seq<T>, keep: seq<bool>)
    requires |keep| == |s|
    ensures var idx := KeptIndices(keep);
      |Select(s, keep)| == |idx| && forall k :: 0 <= k < |idx| ==> Select(s, keep)[k] == s[idx[k]]
  {
    if s != [] {
      var n := |s| - 1;
      SelectAt(s[..n], keep[..n]);
      var idx := KeptIndices(keep[..n]);
      forall k | 0 <= k < |idx| ensures idx[k] < n {
      }
    }
  }

  /** Selecting from two pieces is selecting from each. */
  lemma {:induction false} SelectAppend<T>(a: seq<T>, ka: seq<bool>, b: seq<T>, kb: seq<bool>)
    requires |ka| == |a| && |kb| == |b|
    ensures Select(a + b, ka + kb) == Select(a, ka) + Select(b, kb)
    decreases |b|
  {
    if b != [] {
      var n := |b| - 1;
      SelectAppend(a, ka, b[..n], kb[..n]);
      var last := if kb[n] then [b[n]] else [];
      assert (a + b)[..|a + b| - 1] == a + b[..n];
      assert (ka + kb)[..|ka + kb| - 1] == ka + kb[..n];
      assert Select(a + b, ka + kb) == Select(a + b[..n], ka + kb[..n]) + last;
      assert Select(b, kb) == Select(b[..n], kb[..n]) + last;
    } else {
      assert a + b == a && ka + kb == ka;
    }
  }
}
