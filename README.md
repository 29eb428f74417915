# InfonetScrap table normalisation in Dafny

InfonetScrap.py scrapes the company pages of a financial-data site. It
extracts four HTML tables per company and turns their human-formatted
cells into numeric tables. This project models that table-normalisation
core and proves properties of it.

- **Cell values** (`convert_value`, module `ValueParser`): a token such as
  `"12 K"`, `"2.5 M"`, `"3 Md"`, `"5 K %"` or `"12%"` is classified by its
  suffix and scaled. NaN and `""` give no value. A suffix-free token that
  `float()` refuses gives no value. A token with a suffix whose number
  `float()` refuses raises `ValueError`.
- **Row labels** (`normalize_title`, module `TitleNormalizer`): labels are
  transliterated, lower-cased, non-`[a-z0-9]` characters become `_`, runs of
  `_` collapse and `_` is trimmed at both ends.
- **Table 1** (module `SimpleTable`): every row label is normalised and
  every other cell converted, under the original header.
- **Period tables 2, 3 and 4** (`process_table_data`, modules
  `RowFlattening`, `YearSeries`, `YearSeriesFacts`):
  - each cell is split on line breaks into a value and a variation;
  - columns are named `"<year> Valeur"` / `"<year> Variation"`;
  - a derived column holding the value of the period before the last one,
    `value / (1 + variation)`, is added under the name
    `"<last year - 1> Valeur"`.
- **Final tables** (module `Finalize`): columns whose name mentions
  "variation" (in any case) are dropped, and the two balance-sheet tables
  are stacked under a common first column `"Actif/Passif"`.

Pandas frames are modelled by the class `Frames.DataFrame`. Its methods
are the in-place operations the script performs:

- building a frame from lists;
- dropping the first row;
- setting the columns;
- column assignment, `insert` and `drop`;
- `rename` and `read_csv`.

The loops of the script are methods with invariants. Each method is proved
equal to a function, and the properties are proved about the functions.

Python exceptions are values of `Wrappers.Failure` carried in a `Result`:

| Failure | Raised by |
|---|---|
| `ValueError` | `float()` or `int()` refusing text |
| `LabelNotText` | `unidecode` of a NaN label |
| `IndexError` | a missing first or second-to-last column |
| `ShapeMismatch` | pandas refusing a column list of the wrong length |
| `DuplicateColumn` | a selection of a duplicated name, or `insert` of an existing name |
| `NotAString` | `.split` on an integer column label |

The script has no handler, so any of these ends the processing.

## Behaviour of the code a reader may not expect

The model follows the code as written.

- **Suffixed values raise.** A suffixed value whose number does not parse
  raises `ValueError` (InfonetScrap.py:49-62). Only the suffix-free branch
  catches the failure (64-67). See `ValueParser.ConvertToken`.
- **The derived column ends last.** It is inserted at position `len - 1`
  while the temporary `"Previous Year Value"` column is still last; that
  column is then dropped (118-124). The derived column therefore follows
  the last `Variation` column, rather than sitting before it. See
  `YearSeriesFacts.AddPriorKeeps`.
- **Oldest-first headers raise.** With the oldest period first (e.g. the
  headers `2022`, `2023`), the derived name `"2022 Valeur"` already exists
  and pandas `insert` raises. Only newest-first headers produce the derived
  column. See `YearSeriesFacts.PriorYearPresentFails` and
  `YearSeriesFacts.NewestFirstNamesPrior`.
- **A naming mismatch crashes.** When the names do not fit the data width,
  line 112 only prints a warning and the columns keep their integer
  position labels. Under two columns, line 115 fails (`IndexError`).
  Otherwise the script stops at line 118 or at line 120. Line 118 raises
  `TypeError` when the last column holds text: the header `[T, "2023"]`
  with the row `[x, NaN]` flattens to `["x", '']`, two columns against
  three names, and `1 + ''` raises. Failing that, `.split` on the integer
  label raises at line 120. The model reports `NotAString` for every
  mismatch of width two or more; in both cases the script stops. See
  `YearSeries.ProcessFlattened`.
- **A zero divisor stops the script or gives an infinity.** When
  1 + variation is zero, the division of line 118 raises
  `ZeroDivisionError` in an object-typed value column, which nothing
  catches; in a float column it gives an infinity (or NaN for 0 / 0). The
  model gives NaN (see the `YearSeries.DivideRecoversValue` line under
  "Left out").
- **Empty cells give no value.** A cell holding `""` converts to no value
  (NaN) through `convert_value` (43-44). Only a NaN cell of a period table
  gives the `''` placeholder (91-92).

## Model

| member | source | states |
|---|---|---|
| Wrappers.MapAll | InfonetScrap.py:163-168 | a loop appending f(x) succeeds exactly when f succeeds on every element, keeps order and length, and otherwise fails with the error of the first failing element |
| Wrappers.MapAllFirstFailure | InfonetScrap.py:163-168 | the first element on which f fails decides the error of the whole loop |
| Wrappers.MapAllResults | InfonetScrap.py:163-168 | when f succeeds everywhere the loop yields exactly the results in order |
| Wrappers.MapEach | InfonetScrap.py:163-168 | the appending loop with early exit computes MapAll |
| Strings.Strip | InfonetScrap.py:46 | str.strip() never lengthens its argument and leaves no whitespace at either end |
| Strings.SkipSpacesOnlySpaces | InfonetScrap.py:46 | every character strip() removes at the front is whitespace |
| Strings.TrimEndOnlySpaces | InfonetScrap.py:46 | every character strip() removes at the end is whitespace |
| Strings.StripSlice | InfonetScrap.py:46 | strip() returns a contiguous piece s[a..a+n] of the text, with only whitespace before and after it, so it keeps every other character in place |
| Strings.IsSpace | InfonetScrap.py:46 | no contract of its own; the whitespace set strip() removes, and StripSlice, SkipSpacesOnlySpaces and TrimEndOnlySpaces state that only such characters are removed |
| Strings.StripUnchanged | InfonetScrap.py:46 | text without surrounding whitespace is left unchanged by strip() |
| Strings.StripTrailingBlank | InfonetScrap.py:53-54 | the blank left by slicing two characters off " Md" is removed by the strip() that follows |
| Strings.IndexOf | InfonetScrap.py:86 | the position found holds the separator and no earlier position does |
| Strings.SplitFirst | InfonetScrap.py:86-88 | split('\n') yields several pieces exactly when the text holds a line break, and piece 0 is the text before the first one |
| Strings.SplitLast | InfonetScrap.py:89-90 | piece -1 of split('\n') is the text after the last line break |
| Strings.FirstPieceUnique | InfonetScrap.py:86-88 | piece 0 is the only break-free prefix followed by a break or the end |
| Strings.LastPieceUnique | InfonetScrap.py:89-90 | piece -1 is the only break-free suffix preceded by a break or the start |
| Strings.SplitJoin | InfonetScrap.py:86 | joining the pieces of split with the separator gives the text back, so split loses nothing |
| Strings.Split | InfonetScrap.py:86 | split(sep) gives at least one piece; SplitFirst, SplitLast and SplitJoin state piece 0, piece -1 and that joining the pieces gives the text back |
| Strings.FirstTokenPrefix | InfonetScrap.py:120 | split(' ')[0] is the longest blank-free prefix of the column name |
| Strings.FirstToken | InfonetScrap.py:120 | no contract of its own; FirstTokenPrefix states that split(' ')[0] is the longest blank-free prefix |
| Strings.ContainsAt | InfonetScrap.py:205 | the substring test holds exactly when the pattern occurs at some position |
| Strings.Contains | InfonetScrap.py:205 | no contract of its own; ContainsAt states that it holds exactly when the pattern occurs at some position |
| Strings.OccursAt | InfonetScrap.py:205 | no contract of its own; the occurrence of the pattern at a position, which ContainsAt ties to the substring test |
| Numbers.NatToString | InfonetScrap.py:121 | str(n) is a non-empty string of digits |
| Numbers.NatToStringValue | InfonetScrap.py:121 | reading the digits of str(n) back gives n |
| Numbers.IntToString | InfonetScrap.py:121 | str(i) is non-empty, has no blank and no surrounding whitespace |
| Numbers.IntToStringParses | InfonetScrap.py:120-121 | int(str(i)) == i |
| Numbers.IntToStringInjective | InfonetScrap.py:121 | distinct years have distinct text |
| Numbers.ParseInt | InfonetScrap.py:120-121 | no contract of its own; IntToStringParses states that it reads back the text of every integer |
| Numbers.ParseDecimal | InfonetScrap.py:65 | no contract of its own; NatToStringParsesAsDecimal, FractionParses and PointLiteral state its value on decimal literals |
| Numbers.NatToStringParsesAsDecimal | InfonetScrap.py:65 | float(str(n)) == n |
| Numbers.FractionParses | InfonetScrap.py:65 | float("<digits>.<digits>") is the whole part plus the fraction |
| Numbers.PointLiteral | InfonetScrap.py:65 | the float() scanner reads a point literal as its decimal value |
| ValueParser.UnitOf | InfonetScrap.py:49-62 | a token of a unit other than plain ends with that unit's suffix, and a plain token ends with no suffix at all |
| ValueParser.Apply | InfonetScrap.py:50-62 | scaling keeps the sign of the number; a plain number is kept and a percentage is the number divided by 100 |
| ValueParser.Cut | InfonetScrap.py:50-62 | the source slices off the whole suffix, except for " Md", where it slices two characters and leaves the leading blank |
| ValueParser.Operand | InfonetScrap.py:49-65 | a token without a suffix is given to float() whole |
| ValueParser.UnitOfSuffix | InfonetScrap.py:49-62 | a token is classified by a suffix it ends with, and it is plain exactly when it ends with none of " K", " M", " Md", "%" |
| ValueParser.ConvertToken | InfonetScrap.py:46-67 | a stripped token raises ValueError exactly when it has a suffix and its number does not parse; a plain token is float() of it or no value; a parsed number is scaled by its unit |
| ValueParser.ConvertValue | InfonetScrap.py:42-67 | NaN and "" give no value; any other text is stripped and converted as a token |
| ValueParser.EndsWithAfterDigits | InfonetScrap.py:49-61 | behind a digit string, a digit-free suffix is seen exactly when the rest ends with it |
| Strings.EndsWith | InfonetScrap.py:49-61 | no contract of its own; str.endswith compared character by character, and EndsWithAfterDigits and UnitOfSuffix state how the suffix tests classify a token |
| ValueParser.UnitOfAfterDigits | InfonetScrap.py:49-62 | a digit string does not change how the text after it is classified |
| ValueParser.SuffixUnit | InfonetScrap.py:49-62 | each suffix alone is classified as its own unit, so the if/elif order shadows none of them |
| ValueParser.CutRendered | InfonetScrap.py:50-62 | slicing a unit's suffix as the source does and stripping gives back the number text |
| ValueParser.UnitOfRendered | InfonetScrap.py:49-62 | a number written with a unit's suffix is classified as that unit and its number text recovered |
| ValueParser.RenderedIsStripped | InfonetScrap.py:46 | a number written with a suffix has no surrounding whitespace |
| ValueParser.RenderedDigitsConvert | InfonetScrap.py:49-62 | digits read as x followed by a unit's suffix convert to x scaled by that unit |
| ValueParser.RenderedTokenConverts | InfonetScrap.py:49-65 | a whole number written in any unit converts to the number times the unit's factor (x1000, x1e6, x1e9, x10000, x1e7, /100) |
| ValueParser.RenderedValueConverts | InfonetScrap.py:42-67 | convert_value of a whole number written in any unit is that number scaled by the unit |
| TitleNormalizer.Transliterate | InfonetScrap.py:72 | unidecode of one character is ASCII, and an ASCII character is kept |
| TitleNormalizer.Unidecode | InfonetScrap.py:72 | unidecode yields ASCII text |
| TitleNormalizer.UnidecodeAscii | InfonetScrap.py:72 | ASCII text is left unchanged by unidecode |
| TitleNormalizer.UnidecodeAppend | InfonetScrap.py:72 | unidecode of two pieces is the unidecode of each, joined |
| TitleNormalizer.Lower | InfonetScrap.py:72 | lower() keeps the length, turns each capital A-Z into the small letter at the same alphabet position, and leaves every other character as it is |
| TitleNormalizer.ReplaceOthers | InfonetScrap.py:73 | every [a-z0-9] character stays in its place and every other character becomes '_', so the result holds only [a-z0-9_] and has the same length |
| TitleNormalizer.Substitute | InfonetScrap.py:72-73 | transliterating, lower-casing and substituting keep the length of the transliterated title |
| TitleNormalizer.SubstituteAppend | InfonetScrap.py:72-73 | lower() and the substitution work character by character, so they distribute over joined pieces |
| TitleNormalizer.ReplaceOthersKeeps | InfonetScrap.py:73 | the characters other than '_' after the substitution are exactly the [a-z0-9] characters of the text, in order |
| TitleNormalizer.Collapse | InfonetScrap.py:74 | no contract of its own; CollapseEnds, CollapseKeeps, CollapseRun and CollapseSeparator state that it keeps the end characters and every character other than '_', and that each run of '_' becomes exactly one '_' |
| TitleNormalizer.CollapseEnds | InfonetScrap.py:74 | collapsing keeps the first and the last character |
| TitleNormalizer.CollapseKeeps | InfonetScrap.py:74 | collapsing removes underscores only: the other characters stay, in order |
| TitleNormalizer.CollapseNoDouble | InfonetScrap.py:74 | after collapsing no two underscores are adjacent |
| TitleNormalizer.CollapseWordChars | InfonetScrap.py:73-74 | collapsing introduces no character outside [a-z0-9_] |
| TitleNormalizer.CollapseUnchanged | InfonetScrap.py:74 | text without a run of underscores is left unchanged |
| TitleNormalizer.CollapseAppend | InfonetScrap.py:74 | two pieces collapse separately unless a run of '_' crosses the seam |
| TitleNormalizer.CollapseRun | InfonetScrap.py:74 | a non-empty run of '_' collapses to exactly one '_' |
| TitleNormalizer.CollapseSeparator | InfonetScrap.py:74 | a run of '_' between two characters other than '_' becomes exactly one '_', and the text on either side is collapsed on its own |
| TitleNormalizer.TrimUnderscores | InfonetScrap.py:75 | strip('_') leaves no underscore at either end |
| TitleNormalizer.SkipUnderscoresOnly | InfonetScrap.py:75 | every character strip('_') removes at the front is '_' |
| TitleNormalizer.TrimUnderscoresEndOnly | InfonetScrap.py:75 | every character strip('_') removes at the end is '_' |
| TitleNormalizer.TrimUnderscoresSlice | InfonetScrap.py:75 | strip('_') returns a contiguous piece of the text with only '_' before and after it, and keeps every character other than '_' in order |
| TitleNormalizer.DropUnderscoreEnds | InfonetScrap.py:75 | runs of '_' around a text do not change its characters other than '_' |
| TitleNormalizer.TrimUnderscoresFrame | InfonetScrap.py:75 | strip('_') of a text framed by runs of '_' whose ends are not '_' returns that text |
| TitleNormalizer.TrimRun | InfonetScrap.py:75 | strip('_') of text made of '_' only is empty |
| TitleNormalizer.TrimCollapse | InfonetScrap.py:74-75 | collapsing then stripping gives the collapsed text between the leading and trailing '_', and is empty exactly when that text is |
| TitleNormalizer.TrimCollapseRun | InfonetScrap.py:74-75 | a text that strips to nothing also collapses and strips to nothing |
| TitleNormalizer.TrimCollapseCore | InfonetScrap.py:74-75 | a text with a non-empty core collapses and strips to its collapsed core, which is non-empty |
| TitleNormalizer.CollapseFramed | InfonetScrap.py:74 | a text whose ends are not '_' is collapsed on its own between any two others |
| TitleNormalizer.JoinCore | InfonetScrap.py:75 | the stripped join of two texts by a run of '_' is their stripped forms joined by a run of '_' |
| TitleNormalizer.TrimCollapseJoin | InfonetScrap.py:74-75 | two texts joined by a run of '_' collapse and strip to their collapsed cores joined by one '_' |
| TitleNormalizer.SliceKeepsShape | InfonetScrap.py:75 | trimming keeps the character set and the absence of double underscores |
| TitleNormalizer.NormalizeCanonical | InfonetScrap.py:70-76 | a normalised title holds only [a-z0-9_], no "__", and no "_" at either end |
| TitleNormalizer.CanonicalUnchanged | InfonetScrap.py:70-76 | a canonical label is its own normal form |
| TitleNormalizer.NormalizeIdempotent | InfonetScrap.py:70-76 | normalize_title is idempotent, and its fixed points are exactly the canonical labels |
| TitleNormalizer.NormalizeKeeps | InfonetScrap.py:70-76 | the letters and digits of a normalised title are exactly those of the lower-cased transliterated title, in order: none is lost or added, and only underscores are placed between them |
| TitleNormalizer.NormalizeJoin | InfonetScrap.py:70-76 | two titles that normalise to something, joined by ASCII punctuation or blanks, normalise to their normal forms joined by exactly one '_' |
| TitleNormalizer.Normalize | InfonetScrap.py:70-76 | no contract of its own; NormalizeCanonical, NormalizeIdempotent, NormalizeKeeps and NormalizeJoin state its shape, its fixed points, its letters and digits, and where its separators go |
| Frames.ToCell | InfonetScrap.py:167 | a converted value is stored as the number, None as NaN |
| Frames.FrameOf | InfonetScrap.py:160 | a frame from extracted rows needs a header; it succeeds when no row is wider than the header and some row is as wide; rows keep their cells and shorter rows are padded with NaN |
| Frames.MaxWidth | InfonetScrap.py:95 | the width of a frame built from lists is that of its longest row, 0 for no rows |
| Frames.Pad | InfonetScrap.py:95 | a short row keeps its cells and is filled up to the frame width |
| Frames.PadRows | InfonetScrap.py:95 | every row is padded, and the row count is kept |
| Frames.Positions | InfonetScrap.py:95 | a frame built from lists is labelled 0..w-1 |
| Frames.Names | InfonetScrap.py:110 | the names become the labels one to one |
| Frames.NamesOf | InfonetScrap.py:129 | the labels of a named frame give back its names |
| Frames.DataFrame.FromRows | InfonetScrap.py:95 | pd.DataFrame(rows) has as many columns as the longest row, labelled by position, with shorter rows padded with NaN |
| Frames.DataFrame.Load | InfonetScrap.py:221-222 | a frame read back from a written table has its names and rows |
| Frames.DataFrame.Snapshot | InfonetScrap.py:129 | the returned frame is a rectangular table |
| Frames.DataFrame.Column | InfonetScrap.py:115-118 | a selected column holds cell j of every row |
| Frames.DataFrame.DropFirstRow | InfonetScrap.py:98 | drop(index=0) removes exactly the first row and keeps the columns |
| Frames.DataFrame.SetColumns | InfonetScrap.py:110 | assigning the columns relabels them and changes no cell |
| Frames.DataFrame.Assign | InfonetScrap.py:118 | assigning a new column appends the label and one cell to every row |
| Frames.DataFrame.Insert | InfonetScrap.py:123 | insert succeeds exactly when the label is new; it then puts the label and the values at position loc; otherwise nothing changes |
| Frames.DataFrame.Drop | InfonetScrap.py:124 | drop removes every column with that label, from the labels and from every row |
| Frames.DataFrame.Rename | InfonetScrap.py:225-226 | rename relabels every column carrying the old label and changes no cell |
| Frames.Framed | InfonetScrap.py:171-172 | setting a header on a frame built from rows succeeds exactly when the header is as wide as the widest row, and the rows are padded with NaN |
| Frames.FramedUniform | InfonetScrap.py:171-172 | rows of the header's width are kept as they are, except that no rows with a non-empty header is refused |
| Frames.BuildFrame | InfonetScrap.py:171-172 | building the frame and then setting its columns computes Framed |
| Frames.AppendColumn | InfonetScrap.py:118 | every row gets one more cell at its end |
| Frames.InsertColumn | InfonetScrap.py:123 | every row gets one more cell at position loc, and the other cells keep their order |
| Frames.SelectColumns | InfonetScrap.py:205 | every row is reduced with the same column mask |
| Frames.ColumnOf | InfonetScrap.py:115-118 | the column holds cell j of every row |
| Frames.Others | InfonetScrap.py:124 | the mask keeps exactly the columns not carrying the dropped label |
| Frames.SelectAll | InfonetScrap.py:124 | a mask keeping everything keeps the sequence unchanged |
| Frames.SelectAllButLast | InfonetScrap.py:124 | a mask dropping only the last position removes the last element |
| Frames.SelectLength | InfonetScrap.py:124 | labels and cells selected with the same mask stay the same length |
| Frames.KeptIndices | InfonetScrap.py:205 | the kept positions are increasing, each is flagged, and every flagged position is among them |
| Frames.SelectAt | InfonetScrap.py:205 | the k-th element selected is the element at the k-th kept position |
| Frames.Select | InfonetScrap.py:205 | selection by a boolean mask keeps no more elements than there are; SelectAt and KeptIndices state that the k-th kept element is the one at the k-th flagged position |
| Frames.SelectAppend | InfonetScrap.py:205 | selecting from two pieces is selecting from each |
| SimpleTable.ConvertCell | InfonetScrap.py:167 | a cell converts when convert_value does, into the number or NaN; the only failure is ValueError |
| SimpleTable.TransformRow | InfonetScrap.py:164-168 | a row transforms exactly when it has a text label and every other cell converts; then cell 0 is the normalised label and cell j is cell j converted; otherwise it fails with IndexError, LabelNotText or ValueError |
| SimpleTable.Table1Result | InfonetScrap.py:160-172 | table 1 fails exactly when a row fails (first failure wins) or when there are no rows under a header; otherwise it has the original header, one row per data row, the normalised label in column 0 and convert_value of the cell at the same position elsewhere |
| SimpleTable.Table1Rows | InfonetScrap.py:160-172 | table 1 is built exactly when every row transforms and a header-only page is not met, and its rows are then the transformed rows under the original header |
| SimpleTable.Table1Labels | InfonetScrap.py:164-168 | each label of a built table 1 is the normalised label of its row |
| SimpleTable.Table1Cells | InfonetScrap.py:166-168 | each other cell of a built table 1 is convert_value of the cell at the same position |
| SimpleTable.Table1 | InfonetScrap.py:160-172 | no contract of its own; Table1Result states its failures and its cells |
| SimpleTable.TransformTable1 | InfonetScrap.py:163-172 | the loop appending transformed rows and the frame built from them compute the table-1 result |
| RowFlattening.FirstLine | InfonetScrap.py:88 | split('\n')[0] is the prefix of the text up to its first line break, and holds no line break |
| RowFlattening.LastLine | InfonetScrap.py:90 | split('\n')[-1] is the suffix of the text after its last line break, and holds no line break |
| RowFlattening.CellEntries | InfonetScrap.py:84-92 | a cell gives one entry, or two when it has a line break |
| RowFlattening.TotalEntries | InfonetScrap.py:84-92 | the cells of a row give between one and two entries each |
| RowFlattening.Entries | InfonetScrap.py:84-92 | the entries of a row are as many as its cells give |
| RowFlattening.FlattenRow | InfonetScrap.py:82-93 | a flattened row is its label followed by the entries of the other cells |
| RowFlattening.TotalEntriesFull | InfonetScrap.py:84-92 | a row gives twice as many entries as cells exactly when every cell has a variation line |
| RowFlattening.EntriesOk | InfonetScrap.py:84-92 | the entries exist exactly when every cell gives them, and a failure is that of the first failing cell |
| RowFlattening.EntriesFirstFailure | InfonetScrap.py:84-92 | the first cell that fails decides the failure of the row |
| RowFlattening.EntriesOf | InfonetScrap.py:84-93 | the entries of cell j sit right after those of the cells before it, so cells keep their order and nothing is lost or added |
| RowFlattening.FlattenRowEntries | InfonetScrap.py:83-93 | a flattened row starts with the converted label, and each cell's entries follow those of the cells before it |
| RowFlattening.FlattenRowOk | InfonetScrap.py:82-93 | a row flattens exactly when it has a text label and every cell converts; the failures are IndexError, LabelNotText, or that of the first failing cell; the result is between the row's width and twice it less one |
| RowFlattening.FirstLineEntry | InfonetScrap.py:86-88 | the first entry of a cell is the conversion of the text before its first line break |
| RowFlattening.LastLineEntry | InfonetScrap.py:89-90 | the second entry is the conversion of the text after the last line break |
| RowFlattening.FlattenCells | InfonetScrap.py:83-93 | the inner loop appending entries cell by cell computes the flattened row |
| RowFlattening.FlattenRows | InfonetScrap.py:82-93 | the outer loop succeeds exactly when every row flattens, keeps the row order and count, and otherwise fails with the first failing row's error |
| YearSeries.LineValue | InfonetScrap.py:88 | a line of a cell fails only with ValueError |
| YearSeries.YearLabels | InfonetScrap.py:104-107 | the period names are "<year> Valeur" at 2j and "<year> Variation" at 2j+1, two per header |
| YearSeries.YearLabelsSnoc | InfonetScrap.py:104-107 | one more header adds its two names at the end |
| YearSeries.HeaderRow | InfonetScrap.py:80 | the header row, placed first in the data, is as wide as the header |
| YearSeries.ColumnNames | InfonetScrap.py:101-107 | no contract of its own; BuildColumnNames, YearLabels and YearSeriesFacts.HeaderNames state the names |
| YearSeries.Divide | InfonetScrap.py:118 | no contract of its own; DivideRecoversValue states it |
| YearSeries.PriorLabel | InfonetScrap.py:120-123 | no contract of its own; YearSeriesFacts.PriorLabelOfYear states that a value name of year y gives the name of year y - 1 |
| YearSeries.AddPrior | InfonetScrap.py:115-124 | no contract of its own; YearSeriesFacts.AddPriorKeeps and DerivedNameCases state it |
| YearSeries.Shaped | InfonetScrap.py:95-124 | no contract of its own; YearSeriesFacts.ShapedKeeps states it |
| YearSeries.NamedTable | InfonetScrap.py:95-124 | no contract of its own; YearSeriesFacts.NamedShape and NamedSteps state it |
| YearSeries.ProcessedTable | InfonetScrap.py:79-129 | no contract of its own; YearSeriesFacts.ProcessedShape, ProcessedSteps and FullWidthRow state it |
| YearSeries.DivideRecoversValue | InfonetScrap.py:118 | the previous value is a number exactly when both cells are numbers and 1 + variation is not zero; it then grows back to the value by the variation, and is NaN otherwise |
| YearSeries.DivideColumns | InfonetScrap.py:118 | the column division is element-wise |
| YearSeries.DerivedName | InfonetScrap.py:115-123 | a derived name exists only for two or more columns, and it is not already a column name |
| YearSeries.PriorValues | InfonetScrap.py:118 | every row's previous value is its second-to-last cell divided by one plus its last cell |
| YearSeries.BuildColumnNames | InfonetScrap.py:101-107 | building the names computes the normalised first header followed by the period names, and an empty header raises IndexError |
| YearSeries.AppendPeriods | InfonetScrap.py:104-107 | the loop appends exactly the period names of the headers, in order |
| YearSeries.NoPreviousYearValue | InfonetScrap.py:101-118 | no computed name equals the temporary column name |
| YearSeries.NotTemporary | InfonetScrap.py:101-118 | a label without blanks followed by period names never contains the temporary name |
| YearSeries.PriorLabelNotTemporary | InfonetScrap.py:121-124 | the derived name is never the temporary column name |
| YearSeries.AddPriorColumn | InfonetScrap.py:115-124 | the in-place assign, insert and drop on the frame compute AddPrior on the frame's rows |
| YearSeries.DeriveColumn | InfonetScrap.py:118-124 | once the last two columns are single, the frame operations compute AddPrior |
| YearSeries.InsertDerived | InfonetScrap.py:123-124 | the insertion fails exactly when the derived name is taken, and otherwise leaves the period names followed by the derived column |
| YearSeries.DropPrevious | InfonetScrap.py:124 | dropping the temporary column leaves the period columns followed by the derived column |
| YearSeries.LastColumn | InfonetScrap.py:123 | the assigned column read back holds the assigned values |
| YearSeries.InsertTemporary | InfonetScrap.py:123-124 | the derived label clashes exactly when a period name equals it, and inserting it before the temporary column then dropping that column leaves the names followed by the derived name |
| YearSeries.DropTemporaryColumns | InfonetScrap.py:124 | dropping the temporary label leaves the names and the derived name in order |
| YearSeries.DropTemporaryRows | InfonetScrap.py:124 | dropping the temporary cell leaves each row with its cells and one derived value at the end |
| YearSeries.ScriptRowsAgree | InfonetScrap.py:82-93 | the result of the flattening loop is MapAll of the script's row flattening |
| YearSeries.ScriptRow | InfonetScrap.py:82-93 | no contract of its own; the row body of the flattening loop, whose success, failures and entries FlattenRowOk and FlattenRowEntries state |
| YearSeries.ProcessTableData | InfonetScrap.py:79-129 | process_table_data (flattening, frame building, naming, derived column) computes ProcessedTable |
| YearSeries.ProcessFlattened | InfonetScrap.py:95-129 | after flattening, the frame building, header-row drop, conditional naming and derived column compute NamedTable; a naming mismatch ends in NotAString, or IndexError under two columns |
| YearSeries.NameAndDerive | InfonetScrap.py:110-124 | on the frame without its header row, the conditional naming and the derived column compute Shaped |
| YearSeriesFacts.YearHeaders | InfonetScrap.py:101-105 | the headers of a page are str() of its years |
| YearSeriesFacts.PriorLabelOfYear | InfonetScrap.py:120-123 | a value column named after year y gives the derived name of year y - 1 |
| YearSeriesFacts.SameSuffix | InfonetScrap.py:106-107 | names with the same suffix are equal only with equal years |
| YearSeriesFacts.PeriodNameShape | InfonetScrap.py:106-107 | period names contain a blank, and end in 'r' (Valeur) or 'n' (Variation) |
| YearSeriesFacts.PeriodNameAt | InfonetScrap.py:104-107 | name k >= 1 is the value or variation name of header (k-1)/2 |
| YearSeriesFacts.ValueNameClash | InfonetScrap.py:104-107 | a name equal to "<year> Valeur" can only be the value name of a header equal to year |
| YearSeriesFacts.VariationNameClash | InfonetScrap.py:104-107 | a name equal to "<year> Variation" can only be the variation name of a header equal to year |
| YearSeriesFacts.DerivedNameCases | InfonetScrap.py:115-123 | once the last year is read, the derived name is given exactly when the last two names are single and the name is new, and otherwise DuplicateColumn |
| YearSeriesFacts.LastPeriodNames | InfonetScrap.py:104-116 | when the last header occurs once, the last two names are single and the second-to-last is its value name; a name whose year is no header is absent |
| YearSeriesFacts.HeaderNames | InfonetScrap.py:101-107 | the names of a year header are the normalised title and the period names, and the title has no blank |
| YearSeriesFacts.LastYearSingle | InfonetScrap.py:101-107 | with the newest year first the last year occurs once |
| YearSeriesFacts.PriorYearAbsent | InfonetScrap.py:121-123 | with the newest year first the year before the last is not a header |
| YearSeriesFacts.SingleLastNamesPrior | InfonetScrap.py:115-123 | when the last header is single and the previous year is no header, the derived name is the previous year's value name |
| YearSeriesFacts.NewestFirstNamesPrior | InfonetScrap.py:101-123 | with strictly decreasing years the derived column is named after the last year minus one |
| YearSeriesFacts.PriorYearPresentFails | InfonetScrap.py:101-123 | when the year before the last is also a header (oldest-first order), the insertion is refused with DuplicateColumn |
| YearSeriesFacts.ValueNameAt | InfonetScrap.py:104-107 | the value name of header i is name 2i+1 |
| YearSeriesFacts.AddPriorKeeps | InfonetScrap.py:115-124 | the derived column is added exactly when its name is; the table is then rectangular and one column wider, keeps every earlier name and cell, keeps distinct names distinct, keeps the row count, and ends every row with its second-to-last cell divided by one plus its last |
| YearSeriesFacts.ShapedKeeps | InfonetScrap.py:95-124 | a shaped frame has the names followed by the derived one, each flattened row padded with NaN to the width and followed by its worked-back value |
| YearSeriesFacts.NamedShape | InfonetScrap.py:95-124 | after flattening, a processed table has 2N-1 period names and the derived name, and each row is its flattened row padded with NaN, then its worked-back value |
| YearSeriesFacts.ProcessedShape | InfonetScrap.py:79-124 | a processed table has the normalised title and period names then the derived name, one row per page row in order, each the flattened page row padded with NaN and starting with its normalised title |
| YearSeriesFacts.FlattenedTitles | InfonetScrap.py:83 | every flattened row starts with the normalised label of its row |
| YearSeriesFacts.FlattenRowFirst | InfonetScrap.py:83 | the first entry of a flattened row is its normalised label |
| YearSeriesFacts.ProcessedSteps | InfonetScrap.py:82-112 | a processing that succeeds flattens every row, and its data is exactly 2N-1 wide |
| YearSeriesFacts.NamedSteps | InfonetScrap.py:95-112 | after flattening, a naming that succeeds has a header and data exactly 2N-1 wide |
| YearSeriesFacts.FullWidthRow | InfonetScrap.py:82-112 | with two headers or more, a table processes only if some row has a variation line in every period cell |
| YearSeriesFacts.FlattenedWidths | InfonetScrap.py:84-92 | each flattened row has the label and the entries of the other cells |
| YearSeriesFacts.WidestRow | InfonetScrap.py:95-112 | a flattened row 2N-1 wide comes from a row whose every period cell has a variation line |
| Finalize.MentionsVariation | InfonetScrap.py:205 | no contract of its own; KeepMask, VariationNameDropped and ValueNameKept state which names it matches |
| Finalize.KeepMask | InfonetScrap.py:205 | a column is kept exactly when its lower-cased name does not contain "variation" |
| Finalize.StripVariations | InfonetScrap.py:205 | the stripped table is rectangular and keeps every row |
| Finalize.SelectRowsAt | InfonetScrap.py:205 | each row keeps the cells at the kept positions |
| Finalize.StripVariationsKeeps | InfonetScrap.py:205 | the columns left are exactly those whose name does not mention "variation", in their order, names and cells alike |
| Finalize.StripVariationsNames | InfonetScrap.py:205 | a name is left exactly when it was a column name and does not mention "variation" |
| Finalize.LowerAppend | InfonetScrap.py:205 | lower() of a period name lowers the year and the suffix separately |
| Finalize.VariationNameDropped | InfonetScrap.py:205 | every variation name is dropped by the filter |
| Finalize.ValueNameKept | InfonetScrap.py:205 | a value name whose year has no letter v is kept by the filter |
| Finalize.YearHasNoV | InfonetScrap.py:121 | the text of a year has no letter v |
| Finalize.ValueLabels | InfonetScrap.py:106 | the value names of the headers, in order |
| Finalize.KeepMaskAppend | InfonetScrap.py:205 | the mask of two name lists side by side is their masks side by side |
| Finalize.PeriodValuesKept | InfonetScrap.py:205 | of the period names the filter keeps exactly the value names, in order |
| Finalize.StripPeriodNames | InfonetScrap.py:205 | a stripped period table keeps its title (unless it mentions variation), every value name and the derived name |
| Finalize.StripYearNames | InfonetScrap.py:205 | for year headers the final columns are the title (unless it mentions variation), the value names and the derived name |
| Finalize.RenameFirst | InfonetScrap.py:225 | renaming keeps the width and makes "Actif/Passif" the first name |
| Finalize.MergedStacks | InfonetScrap.py:224-229 | the merge fails only for a table without columns; otherwise its rows are table 3's then table 4's, it is rectangular, its first name is "Actif/Passif", and every name not equal to the first keeps its place |
| Finalize.Merged | InfonetScrap.py:224-229 | no contract of its own; MergedStacks states it |
| Finalize.Stackable | InfonetScrap.py:229 | no contract of its own; the two tables have the same names once their first is renamed, the equal-schema case under which MergedStacks states the stacked rows |
| Finalize.MergeFinals | InfonetScrap.py:221-229 | reading back, renaming in place and concatenating compute Merged |
| Finalize.FinishBalanceSheets | InfonetScrap.py:204-229 | no contract of its own; FinishBalanceSheetsStacks states it |
| Finalize.FinishBalanceSheetsStacks | InfonetScrap.py:204-229 | a merged table exists exactly when both processed tables do; its rows are table 3's then table 4's, each reduced to the columns without "variation", under "Actif/Passif" |

## Left out

- Network and HTML: the HTTP fetches, status checks, headers and user-agent
  rotation (InfonetScrap.py:13-29, 132-155, 237-245), BeautifulSoup and
  `extract_table_data` (32-39). The extracted grid is an input
  (`Frames.FrameOf` takes the rows of text).
- The file system: CSV writes, `os.makedirs`, and the `os.path.exists`
  gating of the merge (127, 145, 173, 180, 189, 198, 206, 211, 216, 220,
  232). A table written with `to_csv` and read back with `read_csv` is
  taken to be the same table (`Frames.DataFrame.Load`). The file test at
  line 220 is modelled as the presence of both processed tables
  (`Finalize.FinishBalanceSheets`). The `locals()` tests of lines 204, 209
  and 214 become `Option` values.
- Console output (`print`, including the warning of line 112) and the
  pacing with `time.sleep` and `random` (241-243).
- ParseInt: models `int()` on plain ASCII decimal text only (whitespace,
  sign, digits). Underscores between digits and non-ASCII digits, which
  `int()` accepts, are refused. The year headers the script reads are
  plain digits.
- ParseDecimal: models `float()` on plain decimal text only (sign, digits,
  optional point, optional exponent). `inf`, `nan`, underscores between
  digits and non-ASCII digits are not recognised. Numbers are reals, so
  neither float rounding nor overflow is modelled.
- YearSeries.DivideRecoversValue: when an operand is not a number or
  1 + variation is zero, the division of line 118 gives NaN (`Missing`).
  For a non-number operand this agrees with pandas: a `''` placeholder in
  the value column always sits beside NaN padding, and pandas' masked
  fallback gives NaN. For a zero divisor it does not. Line 95 builds the
  frame with the header row in the data, so the value column is
  object-typed when the header row reaches it (a single period header,
  whose year text sits in column 1) or when a `''` placeholder sits in it.
  There `x / 0.0` raises `ZeroDivisionError`, pandas catches only
  `TypeError`, and the script stops. A float column gives an infinity or
  NaN instead.
- TitleNormalizer.Transliterate: `unidecode` is modelled for ASCII, the
  accented Latin letters and ligatures of French text, the no-break space
  and curly apostrophes. Every other character is dropped.
- TitleNormalizer.Lower: `str.lower()` is modelled on ASCII letters only,
  which are the only ones left after transliteration.
- Finalize.KeepMask: `str.contains(..., case=False)` is modelled with ASCII
  lower-casing. Column names built from non-ASCII headers are not
  case-folded.
- Finalize.MergedStacks: `pd.concat` aligning differently named columns
  (filling with NaN) is not modelled. The merge requires the two tables to
  have the same names once the first is renamed (`Finalize.Stackable`).
- YearSeries.DerivedName: when one of the last two column names is shared
  by another column, pandas selects a frame rather than a column, and the
  assignment of line 118 raises. The model reports that as
  `DuplicateColumn` at the first selection, without modelling the
  intermediate frame.
- Table 2 goes through the same processing and variation filter as
  tables 3 and 4 (lines 181 and 214-216). It is covered by the same
  members, and it is not merged.
