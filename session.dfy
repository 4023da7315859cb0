/** The state `DataCleanerApp` keeps between button presses: the workbook's
    sheets by name, the name of the sheet being cleaned and its frame `df`.
    Every cleaning handler does nothing until a sheet is chosen, and then
    writes its result back to that one sheet: after it, `sheets[current]`
    is the cleaned frame and every other sheet is as it was. The dialog
    answers come in as parameters (`None` for a cancelled prompt). */
module Session {
  import opened Sequences
  import opened Text
  import opened Tables
  import opened Fuzzy
  import opened Frames

  /** `column and column in self.df.columns`: the column prompt was answered
      with a non-empty name of an existing column. */
  predicate ColumnChosen(column: Option<string>, columns: seq<string>) {
    column.Some? && column.value != "" && column.value in columns
  }

  class DataCleaner {
    var sheets: map<string, Table>
    var currentSheet: string
    var df: Frame?

    /** The chosen sheet's frame is the one stored under its name. */
    ghost predicate Valid()
      reads this, df
    {
      && (forall n :: n in sheets ==> WellFormed(sheets[n]))
      && (df != null ==> df.Valid() && currentSheet in sheets && sheets[currentSheet] == df.Contents())
    }

    /** The state before any file is uploaded: no sheets and no frame. */
    constructor ()
      ensures Valid() && sheets == map[] && df == null
    {
      sheets := map[];
      currentSheet := "";
      df := null;
    }

    /** `upload_file` once the workbook `loaded` is read: its sheets replace the
        old ones and its first sheet `first` becomes the chosen one. */
    method UploadFile(loaded: map<string, Table>, first: string)
      requires forall n :: n in loaded ==> WellFormed(loaded[n])
      requires first in loaded
      modifies this
      ensures Valid() && sheets == loaded && currentSheet == first
      ensures fresh(df) && df.Contents() == loaded[first]
    {
      sheets := loaded;
      currentSheet := first;
      df := new Frame(loaded[first]);
    }

    /** `change_sheet`: an empty selection does nothing; otherwise the named
        sheet becomes the chosen one (the menu only offers sheet names). */
    method ChangeSheet(sheetName: string)
      requires Valid()
      requires sheetName == "" || sheetName in sheets
      modifies this
      ensures Valid() && sheets == old(sheets)
      ensures sheetName == "" ==> currentSheet == old(currentSheet) && df == old(df)
      ensures sheetName != "" ==> currentSheet == sheetName && fresh(df) && df.Contents() == sheets[sheetName]
    {
      if sheetName != "" {
        currentSheet := sheetName;
        df := new Frame(sheets[sheetName]);
      }
    }

    /** `self.df = t; self.sheets[self.current_sheet] = self.df`. */
    method Install(t: Table)
      requires Valid() && df != null && WellFormed(t)
      modifies this
      ensures Valid() && currentSheet == old(currentSheet)
      ensures fresh(df) && sheets == old(sheets)[currentSheet := t]
    {
      df := new Frame(t);
      sheets := sheets[currentSheet := t];
    }

    /** `apply_remove_duplicates`. */
    method ApplyRemoveDuplicates()
      requires Valid()
      modifies this
      ensures Valid() && currentSheet == old(currentSheet)
      ensures old(df) == null ==> df == null && sheets == old(sheets)
      ensures old(df) != null ==> fresh(df) && sheets == old(sheets)[currentSheet := RemoveDuplicates(old(df.Contents()))]
    {
      if df != null {
        Install(RemoveDuplicates(df.Contents()));
      }
    }

    /** `apply_fill_missing_values`, with the default fill value 0. */
    method ApplyFillMissingValues()
      requires Valid()
      modifies this
      ensures Valid() && currentSheet == old(currentSheet)
      ensures old(df) == null ==> df == null && sheets == old(sheets)
      ensures old(df) != null ==> fresh(df) && sheets == old(sheets)[currentSheet := FillMissing(old(df.Contents()), DefaultFill)]
    {
      if df != null {
        Install(FillMissing(df.Contents(), DefaultFill));
      }
    }

    /** `apply_drop_missing_values`. */
    method ApplyDropMissingValues()
      requires Valid()
      modifies this
      ensures Valid() && currentSheet == old(currentSheet)
      ensures old(df) == null ==> df == null && sheets == old(sheets)
      ensures old(df) != null ==> fresh(df) && sheets == old(sheets)[currentSheet := DropMissing(old(df.Contents()))]
    {
      if df != null {
        Install(DropMissing(df.Contents()));
      }
    }

    /** `apply_convert_text_to_uppercase`. */
    method ApplyConvertTextToUppercase()
      requires Valid()
      modifies this
      ensures Valid() && currentSheet == old(currentSheet)
      ensures old(df) == null ==> df == null && sheets == old(sheets)
      ensures old(df) != null ==> fresh(df) && sheets == old(sheets)[currentSheet := Uppercase(old(df.Contents()))]
    {
      if df != null {
        Install(Uppercase(df.Contents()));
      }
    }

    /** `apply_convert_dates_to_format`: `render` parses a cell and formats it
        with the date format the second prompt asked for. */
    method ApplyConvertDatesToFormat(column: Option<string>, render: Cell -> Option<string>)
      requires Valid()
      modifies this, df
      ensures Valid() && currentSheet == old(currentSheet) && df == old(df)
      ensures old(df) != null && ColumnChosen(column, old(df.columns)) ==>
        sheets == old(sheets)[currentSheet := ConvertDates(old(df.Contents()), FirstIndex(old(df.columns), column.value), render)]
      ensures !(old(df) != null && ColumnChosen(column, old(df.columns))) ==>
        sheets == old(sheets) && (df != null ==> df.Contents() == old(df.Contents()))
    {
      if df != null && ColumnChosen(column, df.columns) {
        var found := df.ConvertDatesToFormat(column.value, render);
        sheets := sheets[currentSheet := df.Contents()];
      }
    }

    /** `apply_replace_values`: both value prompts must be answered; the
        answers are strings, so only string cells can match. */
    method ApplyReplaceValues(column: Option<string>, toReplace: Option<string>, value: Option<string>)
      requires Valid()
      modifies this, df
      ensures Valid() && currentSheet == old(currentSheet) && df == old(df)
      ensures old(df) != null && ColumnChosen(column, old(df.columns)) && toReplace.Some? && value.Some? ==>
        sheets == old(sheets)[currentSheet :=
          ReplaceInColumn(old(df.Contents()), FirstIndex(old(df.columns), column.value), Str(toReplace.value), Str(value.value))]
      ensures !(old(df) != null && ColumnChosen(column, old(df.columns)) && toReplace.Some? && value.Some?) ==>
        sheets == old(sheets) && (df != null ==> df.Contents() == old(df.Contents()))
    {
      if df != null && ColumnChosen(column, df.columns) && toReplace.Some? && value.Some? {
        var found := df.ReplaceValues(column.value, Str(toReplace.value), Str(value.value));
        sheets := sheets[currentSheet := df.Contents()];
      }
    }

    /** `apply_correct_port_name`: the names prompt is split at commas into the
        candidate list (a cancelled prompt stops the handler before anything
        changes) and every cell of the column is corrected with `fuzz.ratio`. */
    method ApplyCorrectPortName(column: Option<string>, namesInput: Option<string>)
      requires Valid()
      modifies this, df
      ensures Valid() && currentSheet == old(currentSheet) && df == old(df)
      ensures old(df) != null && ColumnChosen(column, old(df.columns)) && namesInput.Some? ==>
        sheets == old(sheets)[currentSheet :=
          CorrectColumn(old(df.Contents()), FirstIndex(old(df.columns), column.value), Ratio, Split(namesInput.value, ','))]
      ensures !(old(df) != null && ColumnChosen(column, old(df.columns)) && namesInput.Some?) ==>
        sheets == old(sheets) && (df != null ==> df.Contents() == old(df.Contents()))
    {
      if df != null && ColumnChosen(column, df.columns) && namesInput.Some? {
        var names := Split(namesInput.value, ',');
        var found := df.CorrectPortNames(column.value, Ratio, names);
        sheets := sheets[currentSheet := df.Contents()];
      }
    }

    /** `apply_remove_leading_trailing_spaces`. */
    method ApplyRemoveLeadingTrailingSpaces(column: Option<string>)
      requires Valid()
      modifies this, df
      ensures Valid() && currentSheet == old(currentSheet) && df == old(df)
      ensures old(df) != null && ColumnChosen(column, old(df.columns)) ==>
        sheets == old(sheets)[currentSheet := StripColumn(old(df.Contents()), FirstIndex(old(df.columns), column.value))]
      ensures !(old(df) != null && ColumnChosen(column, old(df.columns))) ==>
        sheets == old(sheets) && (df != null ==> df.Contents() == old(df.Contents()))
    {
      if df != null && ColumnChosen(column, df.columns) {
        var found := df.RemoveLeadingTrailingSpaces(column.value);
        sheets := sheets[currentSheet := df.Contents()];
      }
    }
  }
}
