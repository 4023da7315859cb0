/** The transforms that change a data frame in place (`df[column] = ...`):
    a `Frame` object whose methods update its columns and rows, each proved
    against the value-level function of `Tables` or `Fuzzy` it implements. */
module Frames {
  import opened Sequences
  import opened Tables
  import opened Fuzzy

  /** A pandas DataFrame: column labels and rows that its methods overwrite. */
  class Frame {
    var columns: seq<string>
    var rows: seq<Row>

    predicate Valid()
      reads this
    {
      WellFormed(Table(columns, rows))
    }

    /** The table the frame currently holds. */
    function Contents(): Table
      reads this
    {
      Table(columns, rows)
    }

    constructor (t: Table)
      requires WellFormed(t)
      ensures Valid() && Contents() == t
    {
      columns := t.columns;
      rows := t.rows;
    }

    /** `df[column] = df[column].replace(to_replace, value)`, the body of
        `replace_values`. A column the frame does not have raises KeyError
        before anything is assigned: `found` is false and nothing changes. */
    method ReplaceValues(column: string, toReplace: Cell, value: Cell) returns (found: bool)
      requires Valid()
      modifies this
      ensures Valid()
      ensures found <==> column in old(columns)
      ensures found ==> Contents() == ReplaceInColumn(old(Contents()), FirstIndex(old(columns), column), toReplace, value)
      ensures !found ==> Contents() == old(Contents())
    {
      found := column in columns;
      if found {
        var r := ReplaceInColumn(Contents(), FirstIndex(columns, column), toReplace, value);
        rows := r.rows;
      }
    }

    /** `df[column] = df[column].str.strip()`, the body of
        `remove_leading_trailing_spaces`. */
    method RemoveLeadingTrailingSpaces(column: string) returns (found: bool)
      requires Valid()
      modifies this
      ensures Valid()
      ensures found <==> column in old(columns)
      ensures found ==> Contents() == StripColumn(old(Contents()), FirstIndex(old(columns), column))
      ensures !found ==> Contents() == old(Contents())
    {
      found := column in columns;
      if found {
        var r := StripColumn(Contents(), FirstIndex(columns, column));
        rows := r.rows;
      }
    }

    /** `df[column] = pd.to_datetime(df[column], errors='coerce').dt.strftime(date_format)`,
        the body of `convert_dates_to_format`, with parsing and formatting
        given as `render`. */
    method ConvertDatesToFormat(column: string, render: Cell -> Option<string>) returns (found: bool)
      requires Valid()
      modifies this
      ensures Valid()
      ensures found <==> column in old(columns)
      ensures found ==> Contents() == ConvertDates(old(Contents()), FirstIndex(old(columns), column), render)
      ensures !found ==> Contents() == old(Contents())
    {
      found := column in columns;
      if found {
        var r := ConvertDates(Contents(), FirstIndex(columns, column), render);
        rows := r.rows;
      }
    }

    /** `df[column] = df[column].apply(lambda x: correct_port_name(x, names))`,
        the update `apply_correct_port_name` makes. */
    method CorrectPortNames(column: string, score: Scorer, names: seq<string>) returns (found: bool)
      requires Valid()
      modifies this
      ensures Valid()
      ensures found <==> column in old(columns)
      ensures found ==> Contents() == CorrectColumn(old(Contents()), FirstIndex(old(columns), column), score, names)
      ensures !found ==> Contents() == old(Contents())
    {
      found := column in columns;
      if found {
        var r := CorrectColumn(Contents(), FirstIndex(columns, column), score, names);
        rows := r.rows;
      }
    }

    /** `df[name] = value`: the column is overwritten on every row, or added
        as the last column. */
    method SetColumn(name: string, value: Cell)
      requires Valid()
      modifies this
      ensures Valid()
      ensures Contents() == WithColumn(old(Contents()), name, value)
    {
      var r := WithColumn(Contents(), name, value);
      columns, rows := r.columns, r.rows;
    }
  }

  /** `combine_import_export_sheets(import_df, export_df)`: both frames get
      their `Source` column in place, and a new frame holds their
      concatenation. When both arguments are the same frame, the second
      assignment overwrites the first and every row reads "export". */
  method CombineImportExportSheets(imp: Frame, exp: Frame) returns (combined: Frame)
    requires imp.Valid() && exp.Valid()
    modifies imp, exp
    ensures fresh(combined) && combined.Valid() && imp.Valid() && exp.Valid()
    ensures combined.Contents() == Concat(imp.Contents(), exp.Contents())
    ensures imp != exp ==>
      && imp.Contents() == WithColumn(old(imp.Contents()), SourceColumn, Str("import"))
      && exp.Contents() == WithColumn(old(exp.Contents()), SourceColumn, Str("export"))
      && combined.Contents() == CombineImportExport(old(imp.Contents()), old(exp.Contents()))
    ensures imp == exp ==> imp.Contents() == WithColumn(old(imp.Contents()), SourceColumn, Str("export"))
  {
    ghost var before := imp.Contents();
    imp.SetColumn(SourceColumn, Str("import"));
    exp.SetColumn(SourceColumn, Str("export"));
    if imp == exp {
      WithColumnTwice(before, SourceColumn, Str("import"), Str("export"));
    }
    combined := new Frame(Concat(imp.Contents(), exp.Contents()));
  }
}
