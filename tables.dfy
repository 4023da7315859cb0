/** The table the cleaner works on (a pandas DataFrame read from one sheet) and
    the value-level meaning of every cleaning transform. The in-place
    transforms of `Frames` are proved against the functions defined here. */
module Tables {
  import opened Sequences
  import Text

  /** A cell: a string, a number, or the missing marker (pandas' NaN/None).
      Numbers are opaque: the cleaner only ever compares them for equality. */
  datatype Cell = Str(text: string) | Num(n: int) | Missing

  type Row = seq<Cell>

  /** Column names, and the rows in order; row i holds one cell per column. */
  datatype Table = Table(columns: seq<string>, rows: seq<Row>)

  datatype Option<T> = None | Some(value: T)

  /** Column names are unique and every row has one cell per column. */
  predicate WellFormed(t: Table) {
    NoDup(t.columns) && forall i :: 0 <= i < |t.rows| ==> |t.rows[i]| == |t.columns|
  }

  /** Same column names, same number of rows, same row lengths. */
  predicate SameShape(a: Table, b: Table) {
    && a.columns == b.columns
    && |a.rows| == |b.rows|
    && forall i :: 0 <= i < |a.rows| ==> |a.rows[i]| == |b.rows[i]|
  }

  /** Applies `f` to every cell (pandas `applymap` / `fillna` over the frame). */
  function MapCells(t: Table, f: Cell -> Cell): (r: Table)
    ensures SameShape(t, r) && (WellFormed(t) ==> WellFormed(r))
    ensures forall i, j :: 0 <= i < |t.rows| && 0 <= j < |t.rows[i]| ==> r.rows[i][j] == f(t.rows[i][j])
  {
    Table(t.columns, seq(|t.rows|, i requires 0 <= i < |t.rows| =>
      seq(|t.rows[i]|, j requires 0 <= j < |t.rows[i]| => f(t.rows[i][j]))))
  }

  /** Applies `f` to the cells of column `k` only (pandas `df[c] = df[c].apply(f)`). */
  function MapColumn(t: Table, k: nat, f: Cell -> Cell): (r: Table)
    ensures SameShape(t, r) && (WellFormed(t) ==> WellFormed(r))
    ensures forall i :: 0 <= i < |t.rows| && k < |t.rows[i]| ==> r.rows[i][k] == f(t.rows[i][k])
    ensures forall i, j :: 0 <= i < |t.rows| && 0 <= j < |t.rows[i]| && j != k ==> r.rows[i][j] == t.rows[i][j]
  {
    Table(t.columns, seq(|t.rows|, i requires 0 <= i < |t.rows| =>
      seq(|t.rows[i]|, j requires 0 <= j < |t.rows[i]| => if j == k then f(t.rows[i][j]) else t.rows[i][j])))
  }

  /** A column map that leaves every cell of its column alone leaves the table alone. */
  lemma MapColumnIdentity(t: Table, k: nat, f: Cell -> Cell)
    requires forall i :: 0 <= i < |t.rows| && k < |t.rows[i]| ==> f(t.rows[i][k]) == t.rows[i][k]
    ensures MapColumn(t, k, f) == t
  {
    var r := MapColumn(t, k, f);
    forall i | 0 <= i < |t.rows| ensures r.rows[i] == t.rows[i] {
      assert |r.rows[i]| == |t.rows[i]|;
    }
    assert r.rows == t.rows;
  }

  // ---------------------------------------------------------------- remove_duplicates

  /** `drop_duplicates()`: the first occurrence of every distinct row, comparing
      whole rows (two missing cells compare equal, as in pandas). */
  function RemoveDuplicates(t: Table): (r: Table)
    ensures WellFormed(t) ==> WellFormed(r)
  {
    Table(t.columns, Distinct(t.rows))
  }

  lemma RemoveDuplicatesSpec(t: Table)
    ensures RemoveDuplicates(t).columns == t.columns
    ensures |RemoveDuplicates(t).rows| <= |t.rows|
    ensures IsSubsequence(RemoveDuplicates(t).rows, t.rows)
    ensures NoDup(RemoveDuplicates(t).rows)
    ensures forall i :: 0 <= i < |t.rows| ==> t.rows[i] in RemoveDuplicates(t).rows
    ensures forall i, j :: 0 <= i < j < |RemoveDuplicates(t).rows| ==>
      FirstIndex(t.rows, RemoveDuplicates(t).rows[i]) < FirstIndex(t.rows, RemoveDuplicates(t).rows[j])
    ensures RemoveDuplicates(RemoveDuplicates(t)) == RemoveDuplicates(t)
  {
    DistinctIsSubsequence(t.rows);
    DistinctFirstOccurrenceOrder(t.rows);
    DistinctIdempotent(t.rows);
  }

  // ---------------------------------------------------------------- fill_missing_values

  /** The fill value `fill_missing_values` uses when none is given. */
  const DefaultFill: Cell := Num(0)

  function FillCell(value: Cell): Cell -> Cell {
    (c: Cell) => if c.Missing? then value else c
  }

  /** `fillna(value)`: every missing cell becomes `value`, every other cell stays. */
  function FillMissing(t: Table, value: Cell): (r: Table)
    ensures SameShape(t, r) && (WellFormed(t) ==> WellFormed(r))
    ensures forall i, j :: 0 <= i < |t.rows| && 0 <= j < |t.rows[i]| ==>
      (t.rows[i][j].Missing? ==> r.rows[i][j] == value) && (!t.rows[i][j].Missing? ==> r.rows[i][j] == t.rows[i][j])
  {
    MapCells(t, FillCell(value))
  }

  /** Filling with a present value leaves no missing cell, so filling again
      changes nothing. */
  lemma FillMissingComplete(t: Table, value: Cell)
    requires value != Missing
    ensures forall i :: 0 <= i < |FillMissing(t, value).rows| ==> Complete(FillMissing(t, value).rows[i])
    ensures FillMissing(FillMissing(t, value), value) == FillMissing(t, value)
  {
    var r := FillMissing(t, value);
    forall i | 0 <= i < |r.rows| ensures Complete(r.rows[i]) {
      forall j | 0 <= j < |r.rows[i]| ensures r.rows[i][j] != Missing {}
    }
    var r2 := FillMissing(r, value);
    forall i | 0 <= i < |r.rows| ensures r2.rows[i] == r.rows[i] {}
  }

  // ---------------------------------------------------------------- drop_missing_values

  /** A row with no missing cell (what `dropna(how='any')` keeps). */
  predicate Complete(row: Row) {
    Missing !in row
  }

  /** `dropna()`: the rows without a missing cell, in their original order. */
  function DropMissing(t: Table): (r: Table)
    ensures r.columns == t.columns && |r.rows| <= |t.rows|
    ensures forall i :: 0 <= i < |r.rows| ==> Complete(r.rows[i]) && r.rows[i] in t.rows
    ensures forall i :: 0 <= i < |t.rows| && Complete(t.rows[i]) ==> t.rows[i] in r.rows
    ensures WellFormed(t) ==> WellFormed(r)
  {
    Table(t.columns, Filter(Complete, t.rows))
  }

  /** `DropMissing` keeps exactly the complete rows: in order, each as often as
      it occurs in the input; and it is idempotent. */
  lemma DropMissingSpec(t: Table, row: Row)
    ensures IsSubsequence(DropMissing(t).rows, t.rows)
    ensures multiset(DropMissing(t).rows)[row] == if Complete(row) then multiset(t.rows)[row] else 0
    ensures DropMissing(DropMissing(t)) == DropMissing(t)
  {
    FilterIsSubsequence(Complete, t.rows);
    FilterCount(Complete, t.rows, row);
    FilterIdempotent(Complete, t.rows);
  }

  // ---------------------------------------------------------------- convert_text_to_uppercase

  function UpperCell(c: Cell): (u: Cell)
  {
    match c
    case Str(s) => Str(Text.Upper(s))
    case _ => c
  }

  /** `applymap(upper if str)`: string cells upper-cased, other cells unchanged. */
  function Uppercase(t: Table): (r: Table)
    ensures SameShape(t, r) && (WellFormed(t) ==> WellFormed(r))
    ensures forall i, j :: 0 <= i < |t.rows| && 0 <= j < |t.rows[i]| ==>
      (t.rows[i][j].Str? ==> r.rows[i][j] == Str(Text.Upper(t.rows[i][j].text)))
      && (!t.rows[i][j].Str? ==> r.rows[i][j] == t.rows[i][j])
  {
    MapCells(t, UpperCell)
  }

  lemma UppercaseIdempotent(t: Table)
    ensures Uppercase(Uppercase(t)) == Uppercase(t)
  {
    var u := Uppercase(t);
    var uu := Uppercase(u);
    forall i | 0 <= i < |t.rows| ensures uu.rows[i] == u.rows[i] {
      forall j | 0 <= j < |t.rows[i]| ensures uu.rows[i][j] == u.rows[i][j] {
        if t.rows[i][j].Str? {
          Text.UpperIdempotent(t.rows[i][j].text);
        }
      }
    }
  }

  // ---------------------------------------------------------------- replace_values

  function ReplaceCell(toReplace: Cell, value: Cell): Cell -> Cell {
    c => if c == toReplace then value else c
  }

  /** `df[column].replace(to_replace, value)` for the column at index `k`. */
  function ReplaceInColumn(t: Table, k: nat, toReplace: Cell, value: Cell): (r: Table)
    ensures SameShape(t, r) && (WellFormed(t) ==> WellFormed(r))
    ensures forall i :: 0 <= i < |t.rows| && k < |t.rows[i]| ==>
      r.rows[i][k] == if t.rows[i][k] == toReplace then value else t.rows[i][k]
    ensures forall i, j :: 0 <= i < |t.rows| && 0 <= j < |t.rows[i]| && j != k ==> r.rows[i][j] == t.rows[i][j]
  {
    MapColumn(t, k, ReplaceCell(toReplace, value))
  }

  /** When no cell of the column equals `toReplace`, the table is unchanged. */
  lemma ReplaceNoMatch(t: Table, k: nat, toReplace: Cell, value: Cell)
    requires forall i :: 0 <= i < |t.rows| && k < |t.rows[i]| ==> t.rows[i][k] != toReplace
    ensures ReplaceInColumn(t, k, toReplace, value) == t
  {
    MapColumnIdentity(t, k, ReplaceCell(toReplace, value));
  }

  /** After replacing, no cell of the column equals `toReplace`, unless that is
      the replacement itself; so replacing twice is replacing once. */
  lemma ReplaceIdempotent(t: Table, k: nat, toReplace: Cell, value: Cell)
    ensures ReplaceInColumn(ReplaceInColumn(t, k, toReplace, value), k, toReplace, value)
         == ReplaceInColumn(t, k, toReplace, value)
  {
    var r := ReplaceInColumn(t, k, toReplace, value);
    MapColumnIdentity(r, k, ReplaceCell(toReplace, value));
  }

  // ---------------------------------------------------------------- remove_leading_trailing_spaces

  /** `.str.strip()` on one cell. A string is stripped; a cell that is not a
      string becomes missing, which is what the `.str` accessor does to a
      non-string entry of an object column. */
  function StripCell(c: Cell): (r: Cell)
  {
    match c
    case Str(s) => Str(Text.Strip(s))
    case _ => Missing
  }

  function StripColumn(t: Table, k: nat): (r: Table)
    ensures SameShape(t, r) && (WellFormed(t) ==> WellFormed(r))
    ensures forall i :: 0 <= i < |t.rows| && k < |t.rows[i]| ==>
      r.rows[i][k] == if t.rows[i][k].Str? then Str(Text.Strip(t.rows[i][k].text)) else Missing
    ensures forall i, j :: 0 <= i < |t.rows| && 0 <= j < |t.rows[i]| && j != k ==> r.rows[i][j] == t.rows[i][j]
  {
    MapColumn(t, k, StripCell)
  }

  lemma StripColumnIdempotent(t: Table, k: nat)
    ensures StripColumn(StripColumn(t, k), k) == StripColumn(t, k)
  {
    var r := StripColumn(t, k);
    forall i | 0 <= i < |r.rows| && k < |r.rows[i]| ensures StripCell(r.rows[i][k]) == r.rows[i][k] {
      if t.rows[i][k].Str? {
        Text.StripIdempotent(t.rows[i][k].text);
      }
    }
    MapColumnIdentity(r, k, StripCell);
  }

  // ---------------------------------------------------------------- convert_dates_to_format

  /** `pd.to_datetime(column, errors='coerce').dt.strftime(format)` for column
      `k`, given the parse-and-format step as `render` (chosen once for the
      column, as pandas infers a single format). A cell that does not parse
      becomes missing; a missing cell stays missing. */
  function ConvertDates(t: Table, k: nat, render: Cell -> Option<string>): (r: Table)
    ensures SameShape(t, r) && (WellFormed(t) ==> WellFormed(r))
    ensures forall i :: 0 <= i < |t.rows| && k < |t.rows[i]| ==>
      && (r.rows[i][k].Str? || r.rows[i][k] == Missing)
      && (t.rows[i][k] == Missing ==> r.rows[i][k] == Missing)
      && (t.rows[i][k] != Missing && render(t.rows[i][k]).Some? ==> r.rows[i][k] == Str(render(t.rows[i][k]).value))
      && (render(t.rows[i][k]).None? ==> r.rows[i][k] == Missing)
    ensures forall i, j :: 0 <= i < |t.rows| && 0 <= j < |t.rows[i]| && j != k ==> r.rows[i][j] == t.rows[i][j]
  {
    MapColumn(t, k, (c: Cell) => if c.Missing? then Missing else
                                  match render(c) case Some(s) => Str(s) case None => Missing)
  }

  // ---------------------------------------------------------------- combine_import_export_sheets

  /** The cell of `row` under column `c`, the row being laid out by `columns`;
      missing when there is no such column. */
  function Lookup(row: Row, columns: seq<string>, c: string): Cell {
    if c in columns && FirstIndex(columns, c) < |row| then row[FirstIndex(columns, c)] else Missing
  }

  /** The cell of row `i` of `t` under column `c` (missing if `t` has no column `c`). */
  function Get(t: Table, i: nat, c: string): Cell
    requires i < |t.rows|
  {
    Lookup(t.rows[i], t.columns, c)
  }

  /** The column `combine_import_export_sheets` adds to both sheets. */
  const SourceColumn: string := "Source"

  /** `df[name] = value`: overwrites column `name` with `value` on every row, or
      appends it as a new last column when the frame has no such column. */
  function WithColumn(t: Table, name: string, value: Cell): (r: Table)
    requires WellFormed(t)
    ensures WellFormed(r) && |r.rows| == |t.rows|
    ensures forall c :: c in r.columns <==> c in t.columns || c == name
    ensures |t.columns| <= |r.columns| && r.columns[..|t.columns|] == t.columns
    ensures forall i :: 0 <= i < |r.rows| ==> Get(r, i, name) == value
    ensures forall i, c :: 0 <= i < |r.rows| && c != name ==> Get(r, i, c) == Get(t, i, c)
  {
    if name in t.columns then
      var r := MapColumn(t, FirstIndex(t.columns, name), _ => value);
      assert r.columns[..|t.columns|] == r.columns;
      r
    else
      var cols := t.columns + [name];
      assert NoDup(cols);
      var r := Table(cols, seq(|t.rows|, i requires 0 <= i < |t.rows| => t.rows[i] + [value]));
      assert FirstIndex(cols, name) == |t.columns| by {
        assert forall j :: 0 <= j < |t.columns| ==> cols[j] == t.columns[j] != name;
      }
      forall c | c in t.columns ensures FirstIndex(cols, c) == FirstIndex(t.columns, c) {
        FirstIndexPrefix(t.columns, [name], c);
      }
      r
  }

  /** Setting the same column twice leaves only the second value. */
  lemma WithColumnTwice(t: Table, name: string, first: Cell, second: Cell)
    requires WellFormed(t)
    ensures WithColumn(WithColumn(t, name, first), name, second) == WithColumn(t, name, second)
  {
    var a := WithColumn(t, name, first);
    var b, c := WithColumn(a, name, second), WithColumn(t, name, second);
    if name !in t.columns {
      var k := |t.columns|;
      assert a.columns == t.columns + [name] && FirstIndex(a.columns, name) == k by {
        assert forall j :: 0 <= j < k ==> a.columns[j] == t.columns[j] != name;
      }
      forall i | 0 <= i < |t.rows| ensures b.rows[i] == c.rows[i] {
        assert |b.rows[i]| == |c.rows[i]| == k + 1;
        assert forall j :: 0 <= j < k ==> b.rows[i][j] == a.rows[i][j] == t.rows[i][j] == c.rows[i][j];
      }
    } else {
      var k := FirstIndex(t.columns, name);
      assert a.columns == t.columns;
      forall i | 0 <= i < |t.rows| ensures b.rows[i] == c.rows[i] {
        assert forall j :: 0 <= j < |t.rows[i]| && j != k ==> b.rows[i][j] == t.rows[i][j] == c.rows[i][j];
      }
    }
    assert b.rows == c.rows;
  }

  /** The columns of `b` that `a` does not have (in `b`'s order: `NewColumnsOrder`). */
  function NewColumns(a: seq<string>, b: seq<string>): (r: seq<string>)
    ensures forall c :: c in r <==> c in b && c !in a
    ensures NoDup(b) ==> NoDup(r)
  {
    var r := Filter(c => c !in a, b);
    FilterMembers(c => c !in a, b);
    assert NoDup(b) ==> NoDup(r) by {
      if NoDup(b) {
        FilterNoDup(c => c !in a, b);
      }
    }
    r
  }

  /** The columns of `pd.concat([a, b])`: those of `a`, then the new ones of `b`. */
  function UnionColumns(a: seq<string>, b: seq<string>): (cols: seq<string>)
    requires NoDup(a) && NoDup(b)
    ensures NoDup(cols)
    ensures |a| <= |cols| && cols[..|a|] == a
    ensures forall c :: c in cols <==> c in a || c in b
  {
    var extra := NewColumns(a, b);
    var cols := a + extra;
    assert NoDup(cols) by {
      forall i, j | 0 <= i < j < |cols| ensures cols[i] != cols[j] {
        if j >= |a| {
          assert cols[j] in extra;
          if i < |a| {
            assert cols[i] in a;
          }
        }
      }
    }
    assert cols[..|a|] == a;
    cols
  }

  /** The new columns come in `b`'s order. */
  lemma NewColumnsOrder(a: seq<string>, b: seq<string>)
    ensures IsSubsequence(NewColumns(a, b), b)
  {
    FilterIsSubsequence(c => c !in a, b);
  }

  /** The columns `pd.concat` adds after `a`'s keep their order in `b`. */
  lemma UnionColumnsOrder(a: seq<string>, b: seq<string>)
    requires NoDup(a) && NoDup(b)
    ensures IsSubsequence(UnionColumns(a, b)[|a|..], b)
  {
    var cols := UnionColumns(a, b);
    assert cols[|a|..] == NewColumns(a, b);
    NewColumnsOrder(a, b);
  }

  /** `row` (laid out by `from`) laid out again under the columns `to`. */
  function Align(row: Row, from: seq<string>, to: seq<string>): (r: Row)
    ensures |r| == |to|
  {
    seq(|to|, j requires 0 <= j < |to| => Lookup(row, from, to[j]))
  }

  /** Re-laying a row out keeps the cell under every column of the new layout. */
  lemma AlignLookup(row: Row, from: seq<string>, to: seq<string>, c: string)
    requires c in to
    ensures Lookup(Align(row, from, to), to, c) == Lookup(row, from, c)
  {
  }

  /** `pd.concat([a, b], ignore_index=True)`: the rows of `a` then the rows of
      `b`, under the union of the columns. */
  function Concat(a: Table, b: Table): (r: Table)
    requires WellFormed(a) && WellFormed(b)
    ensures WellFormed(r)
    ensures |r.rows| == |a.rows| + |b.rows|
    ensures r.columns == UnionColumns(a.columns, b.columns)
    ensures forall i :: 0 <= i < |a.rows| ==> r.rows[i] == Align(a.rows[i], a.columns, r.columns)
    ensures forall i :: |a.rows| <= i < |r.rows| ==> r.rows[i] == Align(b.rows[i - |a.rows|], b.columns, r.columns)
  {
    var cols := UnionColumns(a.columns, b.columns);
    var top := seq(|a.rows|, i requires 0 <= i < |a.rows| => Align(a.rows[i], a.columns, cols));
    var bottom := seq(|b.rows|, i requires 0 <= i < |b.rows| => Align(b.rows[i], b.columns, cols));
    var rows := top + bottom;
    assert forall i :: 0 <= i < |rows| ==> |rows[i]| == |cols| by {
      forall i | 0 <= i < |rows| ensures |rows[i]| == |cols| {
        if i < |top| { assert rows[i] == top[i]; } else { assert rows[i] == bottom[i - |top|]; }
      }
    }
    Table(cols, rows)
  }

  /** Every row of the concatenation keeps its own cells under their column
      names and has missing cells under the columns only the other side has. */
  lemma ConcatCells(a: Table, b: Table)
    requires WellFormed(a) && WellFormed(b)
    ensures forall i, c :: 0 <= i < |a.rows| ==> Get(Concat(a, b), i, c) == Get(a, i, c)
    ensures forall i, c :: |a.rows| <= i < |a.rows| + |b.rows| ==> Get(Concat(a, b), i, c) == Get(b, i - |a.rows|, c)
  {
    var r := Concat(a, b);
    forall i, c | 0 <= i < |a.rows| ensures Get(r, i, c) == Get(a, i, c) {
      if c in r.columns {
        AlignLookup(a.rows[i], a.columns, r.columns, c);
      } else {
        assert c !in a.columns;
      }
    }
    forall i, c | |a.rows| <= i < |a.rows| + |b.rows| ensures Get(r, i, c) == Get(b, i - |a.rows|, c) {
      if c in r.columns {
        AlignLookup(b.rows[i - |a.rows|], b.columns, r.columns, c);
      } else {
        assert c !in b.columns;
      }
    }
  }

  /** `combine_import_export_sheets` on values: tag the import sheet's rows with
      "import" and the export sheet's with "export" in column `Source`, then
      concatenate, import rows first. The result has |imp| + |exp| rows; its
      columns are the import sheet's, then the export sheet's new ones, and
      `Source`; `Source` reads "import" on the import rows and "export" on the
      export rows; every other cell is the one its row had in its own sheet,
      missing where that sheet had no such column. */
  function CombineImportExport(imp: Table, exp: Table): (r: Table)
    requires WellFormed(imp) && WellFormed(exp)
    ensures WellFormed(r)
    ensures |r.rows| == |imp.rows| + |exp.rows|
    ensures forall c :: c in r.columns <==> c in imp.columns || c in exp.columns || c == SourceColumn
    ensures |imp.columns| <= |r.columns| && r.columns[..|imp.columns|] == imp.columns
    ensures forall i :: 0 <= i < |r.rows| ==>
      Get(r, i, SourceColumn) == if i < |imp.rows| then Str("import") else Str("export")
    ensures forall i, c :: 0 <= i < |imp.rows| && c != SourceColumn ==> Get(r, i, c) == Get(imp, i, c)
    ensures forall i, c :: |imp.rows| <= i < |r.rows| && c != SourceColumn ==> Get(r, i, c) == Get(exp, i - |imp.rows|, c)
  {
    var a := WithColumn(imp, SourceColumn, Str("import"));
    var b := WithColumn(exp, SourceColumn, Str("export"));
    var r := Concat(a, b);
    assert r.columns[..|imp.columns|] == r.columns[..|a.columns|][..|imp.columns|];
    ConcatCells(a, b);
    r
  }

  /** The first |imp| rows of the combined sheet, cut to the import sheet's
      columns, give back the import sheet's rows, except for a `Source` column
      the import sheet already had, which now reads "import". */
  lemma CombineImportExportSpec(imp: Table, exp: Table)
    requires WellFormed(imp) && WellFormed(exp)
    ensures var r := CombineImportExport(imp, exp);
      forall i :: 0 <= i < |imp.rows| ==>
        && |imp.columns| <= |r.rows[i]|
        && forall j :: 0 <= j < |imp.columns| ==>
             r.rows[i][j] == if imp.columns[j] == SourceColumn then Str("import") else imp.rows[i][j]
  {
    var r := CombineImportExport(imp, exp);
    forall i, j | 0 <= i < |imp.rows| && 0 <= j < |imp.columns|
      ensures r.rows[i][j] == if imp.columns[j] == SourceColumn then Str("import") else imp.rows[i][j]
    {
      var c := imp.columns[j];
      FirstIndexNoDup(imp.columns, j);
      assert r.columns[j] == c;
      FirstIndexNoDup(r.columns, j);
      assert Get(r, i, c) == r.rows[i][j];
    }
  }
}
