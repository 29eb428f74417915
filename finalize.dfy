/** The last steps of InfonetScrap.py for one company: the columns whose
    name mentions "variation" are dropped from the processed period tables,
    and the balance-sheet tables (the third and the fourth table of the
    page) are stacked under a common first column "Actif/Passif". */
module Finalize {
  import opened Wrappers
  import opened Strings
  import opened Numbers
  import opened Frames
  import opened TitleNormalizer
  import opened YearSeries
  import opened YearSeriesFacts

  /** columns.str.contains('variation', case=False) for one name. */
  predicate MentionsVariation(name: string)
  {
    Contains(Lower(name), "variation")
  }

  /** ~columns.str.contains('variation', case=False): which columns stay. */
  function KeepMask(columns: seq<string>): (keep: seq<bool>)
    ensures |keep| == |columns| && forall j :: 0 <= j < |columns| ==> (keep[j] <==> !MentionsVariation(columns[j]))
  {
    seq(|columns|, j requires 0 <= j < |columns| => !MentionsVariation(columns[j]))
  }

  /** Lines 205, 210 and 215: df.loc[:, mask] keeps the selected columns of
      every row. */
  function StripVariations(t: Table): (r: Table)
    requires Rectangular(t)
    ensures Rectangular(r) && |r.rows| == |t.rows|
  {
    var keep := KeepMask(t.columns);
    SelectAt(t.columns, keep);
    SelectRowsAt(t.rows, keep);
    Table(Select(t.columns, keep), SelectColumns(t.rows, keep))
  }

  /** Rows selected with the same flags keep the cells at the same positions. */
  lemma SelectRowsAt(rows: seq<seq<Cell>>, keep: seq<bool>)
    requires forall i :: 0 <= i < |rows| ==> |rows[i]| == |keep|
    ensures var idx := KeptIndices(keep);
      forall i :: 0 <= i < |rows| ==>
        && |Select(rows[i], keep)| == |idx|
        && forall k :: 0 <= k < |idx| ==> idx[k] < |rows[i]| && Select(rows[i], keep)[k] == rows[i][idx[k]]
  {
    forall i | 0 <= i < |rows|
      ensures |Select(rows[i], keep)| == |KeptIndices(keep)|
      ensures forall k :: 0 <= k < |KeptIndices(keep)| ==> KeptIndices(keep)[k] < |rows[i]| && Select(rows[i], keep)[k] == rows[i][KeptIndices(keep)[k]]
    {
      SelectAt(rows[i], keep);
    }
  }

  /** The stripped table keeps exactly the columns whose name does not
      mention "variation", in their order: the k-th column left is the
      idx[k]-th column of the table, names and cells alike, the positions
      idx increase, and every column without "variation" is among them. */
  lemma StripVariationsKeeps(t: Table)
    requires Rectangular(t)
    ensures var r := StripVariations(t);
      var idx := KeptIndices(KeepMask(t.columns));
      && |r.columns| == |idx|
      && (forall k, l :: 0 <= k < l < |idx| ==> idx[k] < idx[l])
      && (forall j :: 0 <= j < |t.columns| && !MentionsVariation(t.columns[j]) ==> j in idx)
      && forall k :: 0 <= k < |idx| ==>
           && idx[k] < |t.columns|
           && r.columns[k] == t.columns[idx[k]]
           && !MentionsVariation(r.columns[k])
           && forall i :: 0 <= i < |t.rows| ==> r.rows[i][k] == t.rows[i][idx[k]]
  {
    var keep := KeepMask(t.columns);
    SelectAt(t.columns, keep);
    SelectRowsAt(t.rows, keep);
  }

  /** A name is left exactly when it was a name of the table and does not
      mention "variation". */
  lemma StripVariationsNames(t: Table, name: string)
    requires Rectangular(t)
    ensures name in StripVariations(t).columns <==> name in t.columns && !MentionsVariation(name)
  {
    var r := StripVariations(t);
    var idx := KeptIndices(KeepMask(t.columns));
    StripVariationsKeeps(t);
    if name in t.columns && !MentionsVariation(name) {
      var j :| 0 <= j < |t.columns| && t.columns[j] == name;
      var k :| 0 <= k < |idx| && idx[k] == j;
      assert r.columns[k] == name;
    }
    if name in r.columns {
      var k :| 0 <= k < |r.columns| && r.columns[k] == name;
      assert t.columns[idx[k]] == name;
    }
  }

  /** str.lower() of a period name lowers the year and the suffix apart. */
  lemma LowerAppend(a: string, b: string)
    ensures Lower(a + b) == Lower(a) + Lower(b)
  {
  }

  /** Every variation name mentions "variation". */
  lemma VariationNameDropped(year: string)
    ensures MentionsVariation(year + " Variation")
  {
    LowerAppend(year, " Variation");
    var s := Lower(year + " Variation");
    assert s[|year| + 1..|year| + 10] == "variation";
    assert OccursAt(s, "variation", |year| + 1);
    ContainsAt(s, "variation");
  }

  /** A value name whose year holds no letter v does not mention
      "variation": " Valeur" is shorter than "variation", so an occurrence
      would start with a v of the year. */
  lemma ValueNameKept(year: string)
    requires forall j :: 0 <= j < |year| ==> year[j] != 'v' && year[j] != 'V'
    ensures !MentionsVariation(year + " Valeur")
  {
    LowerAppend(year, " Valeur");
    var s := Lower(year + " Valeur");
    ContainsAt(s, "variation");
    forall k: nat ensures !OccursAt(s, "variation", k) {
      if k + 9 <= |s| {
        assert s[k] == Lower(year)[k];
        assert s[k..k + 9][0] == s[k];
      }
    }
  }

  /** The text of a year has no letter v. */
  lemma YearHasNoV(y: int)
    ensures forall j :: 0 <= j < |IntToString(y)| ==> IntToString(y)[j] != 'v' && IntToString(y)[j] != 'V'
  {
    var digits := NatToString(if y < 0 then -y else y);
    assert AllDigits(digits);
  }

  /** The value names of the headers, in order. */
  function ValueLabels(headers: seq<string>): (r: seq<string>)
    ensures |r| == |headers| && forall j :: 0 <= j < |headers| ==> r[j] == headers[j] + " Valeur"
  {
    if headers == [] then [] else ValueLabels(headers[..|headers| - 1]) + [headers[|headers| - 1] + " Valeur"]
  }

  /** The flags of two lists of names side by side. */
  lemma KeepMaskAppend(a: seq<string>, b: seq<string>)
    ensures KeepMask(a + b) == KeepMask(a) + KeepMask(b)
  {
  }

  /** Of the period names of headers without a letter v, the value names
      stay and the variation names go. */
  lemma {:induction false} PeriodValuesKept(headers: seq<string>)
    requires forall i, j :: 0 <= i < |headers| && 0 <= j < |headers[i]| ==> headers[i][j] != 'v' && headers[i][j] != 'V'
    ensures var labels := YearLabels(headers); Select(labels, KeepMask(labels)) == ValueLabels(headers)
  {
    if headers != [] {
      var n := |headers| - 1;
      var init := headers[..n];
      PeriodValuesKept(init);
      var pair := [headers[n] + " Valeur", headers[n] + " Variation"];
      assert YearLabels(headers) == YearLabels(init) + pair;
      ValueNameKept(headers[n]);
      VariationNameDropped(headers[n]);
      KeepMaskAppend(YearLabels(init), pair);
      SelectAppend(YearLabels(init), KeepMask(YearLabels(init)), pair, KeepMask(pair));
      assert Select(pair, KeepMask(pair)) == [headers[n] + " Valeur"] by {
        SelectAllButLast(pair, KeepMask(pair));
      }
    }
  }

  /** The names of a period table without its variation columns: the title
      unless it mentions "variation" itself, the value names, and the
      derived name. */
  lemma StripPeriodNames(title: string, headers: seq<string>, derived: string)
    requires forall i, j :: 0 <= i < |headers| && 0 <= j < |headers[i]| ==> headers[i][j] != 'v' && headers[i][j] != 'V'
    requires !MentionsVariation(derived)
    ensures var names := [title] + YearLabels(headers) + [derived];
      Select(names, KeepMask(names)) == (if MentionsVariation(title) then [] else [title]) + ValueLabels(headers) + [derived]
  {
    var labels := YearLabels(headers);
    var front := [title] + labels;
    PeriodValuesKept(headers);
    KeepMaskAppend([title], labels);
    SelectAppend([title], KeepMask([title]), labels, KeepMask(labels));
    assert Select([title], KeepMask([title])) == (if MentionsVariation(title) then [] else [title]) by {
      assert [title][..0] == [];
    }
    assert Select(front, KeepMask(front)) == (if MentionsVariation(title) then [] else [title]) + ValueLabels(headers);
    KeepMaskAppend(front, [derived]);
    SelectAppend(front, KeepMask(front), [derived], KeepMask([derived]));
    assert Select([derived], KeepMask([derived])) == [derived] by {
      assert [derived][..0] == [];
    }
  }

  /** For a page whose headers are years, the final period table keeps the
      title column (unless it mentions "variation"), the value column of
      every year and the derived column named after the year before the
      last one. */
  lemma StripYearNames(title: string, years: seq<int>, prior: int)
    ensures var names := [title] + YearLabels(YearHeaders(years)) + [IntToString(prior) + " Valeur"];
      Select(names, KeepMask(names))
        == (if MentionsVariation(title) then [] else [title]) + ValueLabels(YearHeaders(years)) + [IntToString(prior) + " Valeur"]
  {
    var headers := YearHeaders(years);
    forall i, j | 0 <= i < |headers| && 0 <= j < |headers[i]| ensures headers[i][j] != 'v' && headers[i][j] != 'V' {
      YearHasNoV(years[i]);
    }
    YearHasNoV(prior);
    ValueNameKept(IntToString(prior));
    StripPeriodNames(title, headers, IntToString(prior) + " Valeur");
  }

  const ActifPassif := "Actif/Passif"

  /** rename(columns={columns[0]: "Actif/Passif"}): every column named like
      the first one takes the new name. */
  function RenameFirst(columns: seq<string>): (r: seq<string>)
    requires columns != []
    ensures |r| == |columns| && r[0] == ActifPassif
  {
    seq(|columns|, j requires 0 <= j < |columns| => if columns[j] == columns[0] then ActifPassif else columns[j])
  }

  /** The two tables have the same names once their first column is renamed,
      so that pd.concat lines their columns up one to one. */
  predicate Stackable(t3: Table, t4: Table)
  {
    t3.columns != [] && t4.columns != [] ==> RenameFirst(t3.columns) == RenameFirst(t4.columns)
  }

  /** Lines 225-229: both tables get "Actif/Passif" as their first column
      name and the rows of the fourth table follow those of the third. A
      table without columns has no first column to rename. */
  function Merged(t3: Table, t4: Table): (r: Result<Table, Failure>)
    requires Rectangular(t3) && Rectangular(t4)
    requires Stackable(t3, t4)
  {
    if t3.columns == [] || t4.columns == [] then Err(IndexError)
    else Ok(Table(RenameFirst(t3.columns), t3.rows + t4.rows))
  }

  /** The merged table is a table of the same width whose rows are those of
      the third table followed by those of the fourth, under the names of
      the third table with the first renamed. */
  lemma MergedStacks(t3: Table, t4: Table)
    requires Rectangular(t3) && Rectangular(t4)
    requires Stackable(t3, t4)
    ensures var r := Merged(t3, t4);
      && (r.Ok? <==> t3.columns != [] && t4.columns != [])
      && (r.Err? ==> r.error == IndexError)
      && (r.Ok? ==>
        && Rectangular(r.value)
        && |r.value.rows| == |t3.rows| + |t4.rows|
        && (forall i :: 0 <= i < |t3.rows| ==> r.value.rows[i] == t3.rows[i])
        && (forall i :: 0 <= i < |t4.rows| ==> r.value.rows[|t3.rows| + i] == t4.rows[i])
        && |r.value.columns| == |t3.columns| && r.value.columns[0] == ActifPassif
        && forall j :: 0 <= j < |t3.columns| && t3.columns[j] != t3.columns[0] ==>
             r.value.columns[j] == t3.columns[j])
  {
    var r := Merged(t3, t4);
    if r.Ok? {
      var rows := t3.rows + t4.rows;
      forall i | 0 <= i < |rows| ensures |rows[i]| == |r.value.columns| {
        if i >= |t3.rows| {
          assert rows[i] == t4.rows[i - |t3.rows|];
        }
      }
    }
  }

  /** The merge as the script does it: both final tables are read back,
      their first column is renamed in place, and the frames are stacked. */
  method MergeFinals(t3: Table, t4: Table) returns (r: Result<Table, Failure>)
    requires Rectangular(t3) && Rectangular(t4)
    requires Stackable(t3, t4)
    ensures r == Merged(t3, t4)
  {
    var final3 := new DataFrame.Load(t3);
    var final4 := new DataFrame.Load(t4);
    if |final3.columns| == 0 || |final4.columns| == 0 {
      return Err(IndexError);
    }
    final3.Rename(final3.columns[0], Name(ActifPassif));
    final4.Rename(final4.columns[0], Name(ActifPassif));
    assert NamesOf(final3.columns) == RenameFirst(t3.columns);
    r := Ok(Table(NamesOf(final3.columns), final3.rows + final4.rows));
  }

  /** Lines 204-229 for the balance-sheet tables of one company: a processed
      table that exists loses its variation columns, and the merge takes
      place only when both final tables exist (None otherwise). */
  function FinishBalanceSheets(p3: Option<Table>, p4: Option<Table>): Option<Result<Table, Failure>>
    requires p3.Some? ==> Rectangular(p3.value)
    requires p4.Some? ==> Rectangular(p4.value)
    requires p3.Some? && p4.Some? ==> Stackable(StripVariations(p3.value), StripVariations(p4.value))
  {
    if p3.None? || p4.None? then None
    else Some(Merged(StripVariations(p3.value), StripVariations(p4.value)))
  }

  /** There is a merged table exactly when both processed tables exist; it
      fails only when one of them keeps no column; otherwise its rows are
      the rows of the third table followed by those of the fourth, each
      reduced to the columns without "variation", its first name is
      "Actif/Passif", and it is as wide as the stripped third table. */
  lemma FinishBalanceSheetsStacks(p3: Option<Table>, p4: Option<Table>)
    requires p3.Some? ==> Rectangular(p3.value)
    requires p4.Some? ==> Rectangular(p4.value)
    requires p3.Some? && p4.Some? ==> Stackable(StripVariations(p3.value), StripVariations(p4.value))
    ensures var r := FinishBalanceSheets(p3, p4);
      && (r.Some? <==> p3.Some? && p4.Some?)
      && (r.Some? ==>
        var t3, t4 := p3.value, p4.value;
        var idx3, idx4 := KeptIndices(KeepMask(t3.columns)), KeptIndices(KeepMask(t4.columns));
        && (r.value.Ok? <==> idx3 != [] && idx4 != [])
        && (r.value.Ok? ==>
          && |r.value.value.rows| == |t3.rows| + |t4.rows|
          && Rectangular(r.value.value) && |idx4| == |idx3|
          && |r.value.value.columns| == |idx3| && r.value.value.columns[0] == ActifPassif
          && (forall i, k :: 0 <= i < |t3.rows| && 0 <= k < |idx3| ==>
                idx3[k] < |t3.rows[i]| && r.value.value.rows[i][k] == t3.rows[i][idx3[k]])
          && forall i, k :: 0 <= i < |t4.rows| && 0 <= k < |idx4| ==>
                idx4[k] < |t4.rows[i]| && r.value.value.rows[|t3.rows| + i][k] == t4.rows[i][idx4[k]]))
  {
    if p3.Some? && p4.Some? {
      var t3, t4 := p3.value, p4.value;
      StripVariationsKeeps(t3);
      StripVariationsKeeps(t4);
      MergedStacks(StripVariations(t3), StripVariations(t4));
    }
  }
}
