# Excel data cleaner — a verified model

`pythondatacleaner.py` is a small desktop tool that loads an Excel workbook.
It cleans one sheet at a time with a set of pandas transforms and writes the
workbook back. This project models the tool's data-cleaning library and the
rule its button handlers follow when they store a result. It proves what
each transform does to a table.

- **Tables** (`tables.dfy`). A sheet is a `Table`: column names plus rows of
  cells. A cell is `Str`, `Num` (an opaque number) or `Missing` (pandas'
  NaN). Every transform is defined here as a function on tables:
  - `drop_duplicates`: keep first occurrences;
  - `fillna`;
  - `dropna`;
  - exact-value `replace` in one column;
  - upper-casing of string cells;
  - whitespace stripping in one column;
  - date conversion in one column;
  - `df[name] = value`;
  - `pd.concat`.

  The lemmas beside them state:
  - subsequence, order, no-duplicate and multiplicity facts;
  - idempotence;
  - "nothing else changes";
  - what a cell of the combined import/export sheet is, and that its import
    rows give back the import sheet.
- **Sequences** (`sequences.dfy`) and **Text** (`text.dfy`) hold the generic
  parts: keeping first occurrences, filtering, Python's `str.upper`,
  `str.strip()` and `str.split`.
- **Fuzzy** (`fuzzy.dfy`). `correct_port_name` keeps rapidfuzz's
  `process.extractOne` choice only when the score is strictly above 80;
  `extractOne` picks the first candidate with the highest score. The scorer
  is a parameter. `Ratio` defines `fuzz.ratio` as the normalised Indel
  similarity 200·LCS/(|a|+|b|). It is proved to be at most 100, to equal 100
  exactly for equal strings, and to be symmetric.
- **Frames** (`frames.dfy`). The transforms that assign into the caller's
  frame (`df[column] = ...`, `import_df['Source'] = ...`) are methods of a
  `Frame` class. Each is proved to leave the frame holding the `Tables`
  function's result. `CombineImportExportSheets` covers the case where both
  arguments are the same frame.
- **Session** (`session.dfy`). `DataCleaner` holds the sheets, the chosen
  sheet's name and its frame. Every `apply_*` handler does nothing until a
  sheet is chosen and the prompts are answered. Then it replaces only the
  chosen sheet, with the value the transform defines.

Dialog answers, the workbook that was read and the date parser enter as
parameters.

Four behaviours of the code are easy to mistake. The model follows the code
in each:
- **Empty candidate list.** One might expect an empty list to be rejected as
  an invalid argument. The code returns the cell unchanged, because
  `extractOne` gives no result (`ExtractOne`, `CorrectPortName`).
- **A misspelled name.** One might expect "Newyrok" to become "New York".
  With `fuzz.ratio` as called, it scores 66.7 (at most 80 is what is proved),
  which is not above the threshold, so the cell is kept (`MisspelledNameKept`).
- **Existing `Source` column.** Combining overwrites an existing `Source`
  column rather than appending a second one (`WithColumn`).
- **Non-string cells when stripping.** The `.str` accessor turns them into
  missing cells (`StripColumn`).

No GUI control calls `combine_import_export_sheets`: the combine button's
command is `check_import_export_sheets`, which only changes the button's
visibility. The function is modelled on its own.

## Model

| member | source | states |
|---|---|---|
| `Sequences.Distinct` | pythondatacleaner.py:8-9 | the kept rows are rows of the input; every input row is among them; no two are equal |
| `Sequences.DistinctIsSubsequence` | pythondatacleaner.py:8-9 | the kept rows appear in input order |
| `Sequences.DistinctFirstOccurrenceOrder` | pythondatacleaner.py:8-9 | kept rows are ordered by their first occurrence in the input |
| `Sequences.DistinctOfNoDup` | pythondatacleaner.py:8-9 | rows without duplicates are kept as they are |
| `Sequences.DistinctIdempotent` | pythondatacleaner.py:8-9 | removing duplicates twice is removing them once |
| `Tables.RemoveDuplicates` | pythondatacleaner.py:8-9 | `drop_duplicates` keeps the table well formed |
| `Tables.RemoveDuplicatesSpec` | pythondatacleaner.py:8-9 | same columns; a subsequence of the rows, without equal rows; every input row survives; first-occurrence order; idempotent |
| `Tables.MapCells` | pythondatacleaner.py:11-12 | an element-wise map keeps the shape and maps every cell |
| `Tables.FillMissing` | pythondatacleaner.py:11-12 | every missing cell becomes the fill value; every other cell is unchanged; shape unchanged |
| `Tables.FillMissingComplete` | pythondatacleaner.py:11-12 | filling with a present value leaves no missing cell, so filling again changes nothing |
| `Sequences.Filter` | pythondatacleaner.py:14-15 | kept elements come from the input and satisfy the predicate; every satisfying element is kept |
| `Sequences.FilterIsSubsequence` | pythondatacleaner.py:14-15 | filtering keeps the input order |
| `Sequences.FilterCount` | pythondatacleaner.py:14-15 | an element keeps its multiplicity if it satisfies the predicate, else it disappears |
| `Sequences.FilterIdempotent` | pythondatacleaner.py:14-15 | filtering twice is filtering once |
| `Tables.DropMissing` | pythondatacleaner.py:14-15 | `dropna` keeps exactly the rows with no missing cell, same columns |
| `Tables.DropMissingSpec` | pythondatacleaner.py:14-15 | the kept rows are a subsequence; each complete row keeps its multiplicity and each incomplete row is gone; idempotent |
| `Tables.ConvertDates` | pythondatacleaner.py:17-19 | in the column, a missing or unparsable cell becomes missing and a parsed one becomes its formatted string; other columns unchanged |
| `Frames.Frame.ConvertDatesToFormat` | pythondatacleaner.py:17-19 | the frame afterwards holds `ConvertDates` of its old contents, or is unchanged when the column does not exist (KeyError) |
| `Tables.ReplaceInColumn` | pythondatacleaner.py:21-23 | in the column, exactly the cells equal to `to_replace` become `value`; every other cell is unchanged |
| `Tables.ReplaceNoMatch` | pythondatacleaner.py:21-23 | when nothing in the column matches, the table is unchanged |
| `Tables.ReplaceIdempotent` | pythondatacleaner.py:21-23 | replacing twice is replacing once |
| `Frames.Frame.ReplaceValues` | pythondatacleaner.py:21-23 | the frame afterwards holds `ReplaceInColumn` of its old contents, or is unchanged when the column does not exist |
| `Fuzzy.ExtractOne` | pythondatacleaner.py:26 | no match exactly for an empty list; otherwise the first candidate with the highest score, with its score and index |
| `Fuzzy.CorrectPortName` | pythondatacleaner.py:25-30 | the result is the input or a candidate; a candidate only when its score is above 80, and then the first best one; the input when no score exceeds 80 |
| `Fuzzy.ExactNameKept` | pythondatacleaner.py:25-30 | with a scorer that gives 100 exactly to equal strings, a name already in the list is kept |
| `Fuzzy.CorrectPortNameIdempotent` | pythondatacleaner.py:25-30 | correcting a corrected name changes nothing |
| `Fuzzy.CorrectPortNameExamples` | pythondatacleaner.py:25-30 | with `fuzz.ratio`: "New York" is kept; of two equally good candidates `extractOne` reports position 0; "Tokyo" is kept |
| `Fuzzy.MisspelledNameScores` | pythondatacleaner.py:26-27 | "Newyrok" scores at most 80 against both "New York" and "Los Angeles" |
| `Fuzzy.MisspelledNameKept` | pythondatacleaner.py:25-30 | "Newyrok" is therefore left uncorrected |
| `Fuzzy.Lcs` | pythondatacleaner.py:26 | the recurrence on last characters is no longer than either string |
| `Fuzzy.CommonSubsequence` | pythondatacleaner.py:26 | some string of length `Lcs(a, b)` is a subsequence of both `a` and `b` |
| `Fuzzy.LcsMaximal` | pythondatacleaner.py:26 | every common subsequence of `a` and `b` is at most `Lcs(a, b)` long, so `Lcs` is the longest-common-subsequence length |
| `Fuzzy.LcsSelf` | pythondatacleaner.py:26 | a string's LCS with itself is its whole length |
| `Fuzzy.LcsFull` | pythondatacleaner.py:26 | an LCS covering both strings means they are equal |
| `Fuzzy.LcsSymmetric` | pythondatacleaner.py:26 | the LCS length does not depend on argument order |
| `Fuzzy.LcsSharedChars` | pythondatacleaner.py:26 | the LCS is bounded by the characters of one string that occur in the other |
| `Fuzzy.Ratio` | pythondatacleaner.py:26 | `fuzz.ratio` lies in 0..100 |
| `Fuzzy.RatioAboveThreshold` | pythondatacleaner.py:26-27 | the ratio exceeds 80 exactly when 5·LCS > 2·(len a + len b) |
| `Fuzzy.RatioFull` | pythondatacleaner.py:26 | the ratio is 100 exactly when 2·LCS = len a + len b |
| `Fuzzy.RatioFullIffEqual` | pythondatacleaner.py:26 | the ratio is 100 if and only if the strings are equal |
| `Fuzzy.RatioSymmetric` | pythondatacleaner.py:26 | the ratio is symmetric |
| `Fuzzy.RatioPerfectOnlyWhenEqual` | pythondatacleaner.py:26 | `fuzz.ratio` never exceeds 100 and gives 100 only to equal strings |
| `Fuzzy.RatioLengthBound` | pythondatacleaner.py:26-27 | strings of very different lengths never score above 80 |
| `Fuzzy.RatioSharedCharsBound` | pythondatacleaner.py:26-27 | too few shared characters keep the score at or below 80 |
| `Tables.MapColumn` | pythondatacleaner.py:170 | `apply` on one column maps each of its cells on its own; other columns, rows and shape unchanged |
| `Fuzzy.CorrectCell` | pythondatacleaner.py:170 | a string cell stays a string and becomes itself or a candidate, a different one only when it scores above 80, itself when no candidate does; any other cell is unchanged |
| `Fuzzy.CorrectColumn` | pythondatacleaner.py:170 | each cell of the column becomes `CorrectCell` of itself; other cells and columns unchanged |
| `Fuzzy.CorrectColumnIdempotent` | pythondatacleaner.py:170 | correcting a column twice is correcting it once |
| `Frames.Frame.CorrectPortNames` | pythondatacleaner.py:170 | the frame afterwards holds `CorrectColumn` of its old contents, or is unchanged when the column does not exist |
| `Text.UpperChar` | pythondatacleaner.py:33 | lower-case ASCII letters become their capitals, other characters stay |
| `Text.Upper` | pythondatacleaner.py:33 | same length; each lower-case ASCII letter becomes the capital 32 code points below it; every other character is kept; no lower-case letter is left |
| `Text.UpperIdempotent` | pythondatacleaner.py:33 | upper-casing twice is upper-casing once |
| `Tables.Uppercase` | pythondatacleaner.py:32-33 | each string cell is upper-cased; every other cell is unchanged; shape unchanged |
| `Tables.UppercaseIdempotent` | pythondatacleaner.py:32-33 | applying the transform twice equals applying it once |
| `Text.Strip` | pythondatacleaner.py:36 | the result is a slice of the input with only whitespace cut on either side, and it neither starts nor ends with whitespace |
| `Text.StripTrimmed` | pythondatacleaner.py:36 | a string without surrounding whitespace is unchanged |
| `Text.StripIdempotent` | pythondatacleaner.py:36 | stripping twice is stripping once |
| `Text.StripAllSpace` | pythondatacleaner.py:36 | an all-whitespace string strips to "" |
| `Tables.StripColumn` | pythondatacleaner.py:35-37 | string cells of the column are stripped, other cells of it become missing; other columns unchanged |
| `Tables.StripColumnIdempotent` | pythondatacleaner.py:35-37 | stripping a column twice is stripping it once |
| `Frames.Frame.RemoveLeadingTrailingSpaces` | pythondatacleaner.py:35-37 | the frame afterwards holds `StripColumn` of its old contents, or is unchanged when the column does not exist |
| `Tables.WithColumn` | pythondatacleaner.py:40-41 | the column reads `value` on every row; every other cell keeps its value; old columns keep their places; an absent column is added |
| `Tables.WithColumnTwice` | pythondatacleaner.py:40-41 | assigning a column twice leaves the second value |
| `Frames.Frame.SetColumn` | pythondatacleaner.py:40-41 | the frame afterwards holds `WithColumn` of its old contents |
| `Tables.NewColumns` | pythondatacleaner.py:42 | exactly the second frame's columns the first does not have, without repetition |
| `Tables.NewColumnsOrder` | pythondatacleaner.py:42 | the new columns keep the second frame's order |
| `Tables.UnionColumns` | pythondatacleaner.py:42 | the first frame's columns, then the new ones: no repetition, every column of either |
| `Tables.UnionColumnsOrder` | pythondatacleaner.py:42 | the columns after the first frame's keep the second frame's order, as `pd.concat` does by default (its `sort` is false) |
| `Tables.Concat` | pythondatacleaner.py:42 | len a + len b rows, `a`'s first, each laid out under the union of the columns |
| `Tables.ConcatCells` | pythondatacleaner.py:42 | each row of the concatenation keeps its own cells and is missing under columns only the other frame has |
| `Tables.CombineImportExport` | pythondatacleaner.py:39-43 | len imp + len exp rows, import first; the import sheet's columns come first, plus the export sheet's and `Source`; `Source` reads "import" on import rows and "export" on export rows; every other cell is the one its row had in its own sheet |
| `Tables.CombineImportExportSpec` | pythondatacleaner.py:39-43 | the import rows of the combined sheet, cut to the import sheet's columns, give back the import sheet's rows, but for an existing `Source` column, which reads "import" |
| `Frames.CombineImportExportSheets` | pythondatacleaner.py:39-43 | both frames get their `Source` column in place, and a fresh frame holds their concatenation; with the same frame twice, every row reads "export" |
| `Text.Split` | pythondatacleaner.py:210 | `split(',')` gives at least one piece, none containing a comma |
| `Text.JoinSplit` | pythondatacleaner.py:210 | joining the pieces with commas gives back the answer as typed |
| `Text.SplitJoin` | pythondatacleaner.py:210 | comma-free pieces joined and split again give back the pieces |
| `Session.DataCleaner.constructor` | pythondatacleaner.py:52-55 | the state before any upload: no sheets (the code's `None`, as an empty map) and no frame |
| `Session.DataCleaner.Install` | pythondatacleaner.py:129-130 | the write-back every handler ends with: the frame is replaced and only the chosen sheet's entry changes, to the new table |
| `Session.DataCleaner.UploadFile` | pythondatacleaner.py:110-116 | the read sheets replace the old ones and the first sheet becomes the chosen one |
| `Session.DataCleaner.ChangeSheet` | pythondatacleaner.py:120-125 | an empty selection changes nothing; otherwise the named sheet is chosen and the sheets are unchanged |
| `Session.DataCleaner.ApplyRemoveDuplicates` | pythondatacleaner.py:127-131 | without a frame nothing changes; otherwise only the chosen sheet changes, to `RemoveDuplicates` of it |
| `Session.DataCleaner.ApplyFillMissingValues` | pythondatacleaner.py:133-137 | as above, with `FillMissing` with 0 |
| `Session.DataCleaner.ApplyDropMissingValues` | pythondatacleaner.py:139-143 | as above, with `DropMissing` |
| `Session.DataCleaner.ApplyConvertDatesToFormat` | pythondatacleaner.py:145-152 | only with a frame and an existing non-empty column name, the chosen sheet becomes `ConvertDates` of it; otherwise nothing changes |
| `Session.DataCleaner.ApplyReplaceValues` | pythondatacleaner.py:154-163 | only with a chosen column and both values answered, the chosen sheet becomes `ReplaceInColumn` of it with string cells; otherwise nothing changes |
| `Session.DataCleaner.ApplyCorrectPortName` | pythondatacleaner.py:165-172 | only with a chosen column and an answered names prompt, the chosen sheet becomes `CorrectColumn` of it with `fuzz.ratio` and the comma-separated candidates; otherwise nothing changes |
| `Session.DataCleaner.ApplyConvertTextToUppercase` | pythondatacleaner.py:174-178 | without a frame nothing changes; otherwise only the chosen sheet changes, to `Uppercase` of it |
| `Session.DataCleaner.ApplyRemoveLeadingTrailingSpaces` | pythondatacleaner.py:180-186 | only with a chosen column, the chosen sheet becomes `StripColumn` of it; otherwise nothing changes |

## Left out

- The tkinter window, buttons, message boxes and file dialogs (lines 45-107, 188-201) are user interface. Prompt answers enter as `Option<string>` parameters, `None` for a cancelled prompt.
- Reading and writing Excel files (`pd.read_excel`, `ExcelWriter`, lines 111 and 188-195) is file I/O. `UploadFile` takes the sheets as read, and `download_file` is not modelled.
- `check_import_export_sheets` (lines 197-201) only shows or hides a button, so it is not modelled.
- `Tables.ConvertDates`: `pd.to_datetime` date inference and `strftime` formatting have no visible definition here. They are one `render` parameter per column, and a cancelled date-format prompt is not modelled.
- `Fuzzy.Ratio`: rapidfuzz's float arithmetic is modelled with exact reals, so its rounding near 80 is not captured. The scorer is applied with no string preprocessing, as `extractOne` does by default.
- `Fuzzy.CorrectCell`, `Fuzzy.CorrectColumn`: a column holding even one `Num` cell is corrected cell by cell in the model, every string cell included, with the number kept. In the code, rapidfuzz raises TypeError on the non-string query, so the whole `apply` aborts: no cell of the column is corrected and the sheet is not written back. A missing cell is kept, as rapidfuzz does.
- `Tables.StripColumn`: non-string cells become missing. The AttributeError that `.str` raises on a column with no strings at all is not modelled.
- `Text.UpperChar`, `Text.Upper`: only ASCII letters are mapped. Python's full Unicode case mapping (for example `ß` to `SS`) is not modelled.
- `Tables.RemoveDuplicates`: the row index that pandas keeps on the surviving rows is not modelled. The same holds for `Tables.DropMissing`, whose rows are compared by value only.
- Cells are compared by value. pandas' cross-type equalities (`1 == 1.0 == True`) and NaN handling beyond a single `Missing` marker are not modelled, and `Num` holds an integer.
- `Session.DataCleaner.ChangeSheet` requires the selected name to be a sheet, as the menu only offers sheet names. For any other name, the code raises KeyError after it has already set `current_sheet`.
- In the code, `df` and `sheets[current_sheet]` are the same pandas object. The model keeps two values and proves them equal after every step, so it does not model the sharing itself.

