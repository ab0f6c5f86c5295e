/**
  The DataFrame `transform_data` works on, as a value: a list of column names
  and a list of rows, each row carrying its index label and one cell per
  column. A missing value (`None`/`NaN`) is a `None` cell. The operations here
  are the pandas calls `transform_data` makes, as functions from table to
  table; the `Frames` module wraps them in a mutable frame.
 */
module Tables {
  import opened Wrappers
  import opened Errors
  import opened Derive

  /** A present cell: text from the JSON listing, or a value the job computes. */
  datatype Cell = Text(text: string) | Integer(n: int) | Time(micros: int)

  /** One row's cells by column name; `None` is a missing value. */
  type Cells = map<string, Option<Cell>>

  datatype Row = Row(index: int, cells: Cells)

  datatype Table = Table(columns: seq<string>, rows: seq<Row>)

  // ---------------------------------------------------------------------------
  // Shape
  // ---------------------------------------------------------------------------

  predicate Distinct<T(==)>(s: seq<T>) {
    forall i, j :: 0 <= i < j < |s| ==> s[i] != s[j]
  }

  function ColumnSet(columns: seq<string>): set<string> {
    set c | c in columns
  }

  /** Every row has a cell for exactly the table's columns. */
  predicate Fits(rows: seq<Row>, columns: seq<string>) {
    forall r :: r in rows ==> r.cells.Keys == ColumnSet(columns)
  }

  /** Column names are unique and every row has a cell for exactly those columns. */
  predicate WellFormed(t: Table) {
    Distinct(t.columns) && Fits(t.rows, t.columns)
  }

  /** Index labels increase from row to row. */
  predicate Ordered(rows: seq<Row>) {
    forall i, j :: 0 <= i < j < |rows| ==> rows[i].index < rows[j].index
  }

  /** The row has no missing value. */
  predicate Complete(r: Row) {
    forall c :: c in r.cells ==> r.cells[c].Some?
  }

  function Lookup(r: Row, column: string): Option<Cell> {
    if column in r.cells then r.cells[column] else None
  }

  /** The cells of each row, in order: what `drop_duplicates` compares. */
  function Contents(rows: seq<Row>): (cs: seq<Cells>)
    ensures |cs| == |rows|
    ensures forall i :: 0 <= i < |rows| ==> cs[i] == rows[i].cells
  {
    seq(|rows|, i requires 0 <= i < |rows| => rows[i].cells)
  }

  // ---------------------------------------------------------------------------
  // dropna and drop_duplicates
  // ---------------------------------------------------------------------------

  /** `dropna()`: the rows without a missing value, in order. */
  function DropMissing(rows: seq<Row>): seq<Row>
    decreases |rows|
  {
    if rows == [] then []
    else
      var prev := DropMissing(rows[..|rows| - 1]);
      var last := rows[|rows| - 1];
      if Complete(last) then prev + [last] else prev
  }

  /** `drop_duplicates()` with its default `keep='first'`: a row is dropped
      when an earlier row has the same cells in every column. */
  function Dedup(rows: seq<Row>): seq<Row>
    decreases |rows|
  {
    if rows == [] then []
    else
      var init := rows[..|rows| - 1];
      var last := rows[|rows| - 1];
      var prev := Dedup(init);
      if last.cells in Contents(init) then prev else prev + [last]
  }

  /** The two cleaning steps of `transform_data`, in its order. */
  function Clean(rows: seq<Row>): seq<Row> {
    Dedup(DropMissing(rows))
  }

  /** `data.index += k`. */
  function Shift(rows: seq<Row>, k: int): (r: seq<Row>)
    ensures |r| == |rows|
    ensures forall i :: 0 <= i < |rows| ==> r[i].index == rows[i].index + k && r[i].cells == rows[i].cells
  {
    seq(|rows|, i requires 0 <= i < |rows| => Row(rows[i].index + k, rows[i].cells))
  }

  /** A row is kept by `dropna` exactly when it is complete. */
  lemma {:induction false} DropMissingMembers(rows: seq<Row>)
    ensures forall r :: r in DropMissing(rows) <==> r in rows && Complete(r)
    decreases |rows|
  {
    if rows != [] {
      var init := rows[..|rows| - 1];
      DropMissingMembers(init);
      assert rows == init + [rows[|rows| - 1]];
    }
  }

  /** `dropna` keeps the order of the rows it keeps. */
  lemma {:induction false} DropMissingOrdered(rows: seq<Row>)
    requires Ordered(rows)
    ensures Ordered(DropMissing(rows))
    decreases |rows|
  {
    if rows != [] {
      var init := rows[..|rows| - 1];
      var last := rows[|rows| - 1];
      DropMissingOrdered(init);
      DropMissingMembers(init);
      var prev := DropMissing(init);
      forall r | r in prev
        ensures r.index < last.index
      {
        var k :| 0 <= k < |init| && init[k] == r;
      }
    }
  }

  /** A table with no missing value is left as it is by `dropna`. */
  lemma {:induction false} DropMissingOfComplete(rows: seq<Row>)
    requires forall r :: r in rows ==> Complete(r)
    ensures DropMissing(rows) == rows
    decreases |rows|
  {
    if rows != [] {
      var init := rows[..|rows| - 1];
      DropMissingOfComplete(init);
      assert init + [rows[|rows| - 1]] == rows;
    }
  }

  lemma DropMissingIdempotent(rows: seq<Row>)
    ensures DropMissing(DropMissing(rows)) == DropMissing(rows)
  {
    DropMissingMembers(rows);
    DropMissingOfComplete(DropMissing(rows));
  }

  /** `drop_duplicates` keeps only rows of its input. */
  lemma {:induction false} DedupMembers(rows: seq<Row>)
    ensures forall r :: r in Dedup(rows) ==> r in rows
    decreases |rows|
  {
    if rows != [] {
      var init := rows[..|rows| - 1];
      DedupMembers(init);
      assert rows == init + [rows[|rows| - 1]];
    }
  }

  /** Every distinct content of the input survives `drop_duplicates`. */
  lemma {:induction false} DedupContents(rows: seq<Row>)
    ensures forall c :: c in Contents(Dedup(rows)) <==> c in Contents(rows)
    decreases |rows|
  {
    if rows != [] {
      var init := rows[..|rows| - 1];
      var last := rows[|rows| - 1];
      DedupContents(init);
      assert Contents(rows) == Contents(init) + [last.cells];
      var prev := Dedup(init);
      if last.cells !in Contents(init) {
        assert Contents(prev + [last]) == Contents(prev) + [last.cells];
      }
    }
  }

  /** No two rows `drop_duplicates` keeps have the same cells. */
  lemma {:induction false} DedupDistinct(rows: seq<Row>)
    ensures Distinct(Contents(Dedup(rows)))
    decreases |rows|
  {
    if rows != [] {
      var init := rows[..|rows| - 1];
      var last := rows[|rows| - 1];
      DedupDistinct(init);
      DedupContents(init);
      var prev := Dedup(init);
      if last.cells !in Contents(init) {
        var out := Contents(prev + [last]);
        assert out == Contents(prev) + [last.cells];
        forall i, j | 0 <= i < j < |out|
          ensures out[i] != out[j]
        {
          if j == |out| - 1 {
            assert out[i] in Contents(prev);
          }
        }
      }
    }
  }

  /** `drop_duplicates` keeps the order of the rows it keeps. */
  lemma {:induction false} DedupOrdered(rows: seq<Row>)
    requires Ordered(rows)
    ensures Ordered(Dedup(rows))
    decreases |rows|
  {
    if rows != [] {
      var init := rows[..|rows| - 1];
      var last := rows[|rows| - 1];
      DedupOrdered(init);
      DedupMembers(init);
      var prev := Dedup(init);
      forall r | r in prev
        ensures r.index < last.index
      {
        var k :| 0 <= k < |init| && init[k] == r;
      }
    }
  }

  /** `keep='first'`: on rows with increasing index labels, a row survives
      exactly when no earlier row has the same cells. */
  lemma {:induction false} DedupKeepsFirst(rows: seq<Row>, i: nat)
    requires Ordered(rows)
    requires i < |rows|
    ensures rows[i] in Dedup(rows) <==> rows[i].cells !in Contents(rows[..i])
    decreases |rows|
  {
    var init := rows[..|rows| - 1];
    var last := rows[|rows| - 1];
    var prev := Dedup(init);
    DedupMembers(init);
    forall r | r in prev
      ensures r.index < last.index
    {
      var k :| 0 <= k < |init| && init[k] == r;
      assert rows[k].index < rows[|rows| - 1].index;
    }
    if i < |rows| - 1 {
      DedupKeepsFirst(init, i);
      assert init[..i] == rows[..i];
      assert rows[i] != last by {
        assert rows[i].index < rows[|rows| - 1].index;
      }
    } else {
      assert rows[..i] == init;
    }
  }

  /** Rows whose cells already differ pairwise are left as they are. */
  lemma {:induction false} DedupOfDistinct(rows: seq<Row>)
    requires Distinct(Contents(rows))
    ensures Dedup(rows) == rows
    decreases |rows|
  {
    if rows != [] {
      var init := rows[..|rows| - 1];
      var last := rows[|rows| - 1];
      assert Contents(init) == Contents(rows)[..|rows| - 1];
      DedupOfDistinct(init);
      forall k | 0 <= k < |init|
        ensures Contents(init)[k] != last.cells
      {
        assert Contents(rows)[k] != Contents(rows)[|rows| - 1];
      }
      assert init + [last] == rows;
    }
  }

  lemma DedupIdempotent(rows: seq<Row>)
    ensures Dedup(Dedup(rows)) == Dedup(rows)
  {
    DedupDistinct(rows);
    DedupOfDistinct(Dedup(rows));
  }

  /** Whether a content occurs among the complete rows does not depend on
      the incomplete ones, when the content itself is complete. */
  lemma {:induction false} ContentsOfComplete(rows: seq<Row>, r: Row)
    requires Complete(r)
    ensures r.cells in Contents(DropMissing(rows)) <==> r.cells in Contents(rows)
    decreases |rows|
  {
    if rows != [] {
      var init := rows[..|rows| - 1];
      var last := rows[|rows| - 1];
      ContentsOfComplete(init, r);
      assert Contents(rows) == Contents(init) + [last.cells];
      if Complete(last) {
        assert Contents(DropMissing(rows)) == Contents(DropMissing(init)) + [last.cells];
      } else if last.cells == r.cells {
        assert Complete(last);
      }
    }
  }

  /** Dropping missing values and dropping duplicates commute. */
  lemma {:induction false} DropMissingDedup(rows: seq<Row>)
    ensures DropMissing(Dedup(rows)) == Dedup(DropMissing(rows))
    decreases |rows|
  {
    if rows != [] {
      var init := rows[..|rows| - 1];
      var last := rows[|rows| - 1];
      DropMissingDedup(init);
      var prev := Dedup(init);
      if last.cells in Contents(init) {
        if Complete(last) {
          ContentsOfComplete(init, last);
        }
      } else {
        assert (prev + [last])[..|prev|] == prev;
        if Complete(last) {
          ContentsOfComplete(init, last);
          assert (DropMissing(init) + [last])[..|DropMissing(init)|] == DropMissing(init);
        } else {
          var dropped := DropMissing(init);
          if |dropped| > 0 {
            assert last != dropped[|dropped| - 1] || !Complete(last);
          }
        }
      }
    }
  }

  /** On rows with increasing index labels, a row survives cleaning exactly
      when it has no missing value and no earlier row has the same cells. */
  lemma CleanKeeps(rows: seq<Row>, i: nat)
    requires Ordered(rows)
    requires i < |rows|
    ensures rows[i] in Clean(rows) <==> Complete(rows[i]) && rows[i].cells !in Contents(rows[..i])
  {
    DropMissingDedup(rows);
    DropMissingMembers(Dedup(rows));
    DedupKeepsFirst(rows, i);
  }

  /** Cleaning a cleaned table changes nothing. */
  lemma CleanIdempotent(rows: seq<Row>)
    ensures Clean(Clean(rows)) == Clean(rows)
  {
    var d := DropMissing(rows);
    DropMissingDedup(d);
    DropMissingIdempotent(rows);
    DedupIdempotent(d);
  }

  /** The rows `transform_data` keeps: complete, no two alike, in their order,
      and with every complete content of the input still present. */
  lemma CleanRows(rows: seq<Row>)
    requires Ordered(rows)
    ensures forall r :: r in Clean(rows) ==> r in rows && Complete(r)
    ensures Distinct(Contents(Clean(rows)))
    ensures Ordered(Clean(rows))
    ensures forall r :: r in rows && Complete(r) ==> r.cells in Contents(Clean(rows))
  {
    var d := DropMissing(rows);
    DropMissingMembers(rows);
    DedupMembers(d);
    DedupDistinct(d);
    DropMissingOrdered(rows);
    DedupOrdered(d);
    DedupContents(d);
    forall r | r in rows && Complete(r)
      ensures r.cells in Contents(Clean(rows))
    {
      var k :| 0 <= k < |d| && d[k] == r;
      assert Contents(d)[k] == r.cells;
    }
  }

  // ---------------------------------------------------------------------------
  // Columns
  // ---------------------------------------------------------------------------

  /** `rename_axis(name).reset_index()`: the index labels become a first
      column `name`, and the rows are labelled 0, 1, 2, ... afresh. pandas
      refuses when a column of that name already exists. */
  function WithIndexColumn(t: Table, name: string): (r: Result<Table, Error>)
    ensures r.Err? <==> name in t.columns
    ensures r.Err? ==> r.error == ColumnExists(name)
    ensures r.Ok? ==>
              && r.value.columns == [name] + t.columns
              && |r.value.rows| == |t.rows|
              && forall i :: 0 <= i < |t.rows| ==>
                   && r.value.rows[i].index == i
                   && r.value.rows[i].cells == t.rows[i].cells[name := Some(Integer(t.rows[i].index))]
  {
    if name in t.columns then Err(ColumnExists(name))
    else
      Ok(Table([name] + t.columns,
               seq(|t.rows|, i requires 0 <= i < |t.rows| =>
                 Row(i, t.rows[i].cells[name := Some(Integer(t.rows[i].index))]))))
  }

  /** `data[name] = values`: replaces the column when it exists, otherwise
      appends it as the last column. */
  function WithColumn(t: Table, name: string, values: seq<Cell>): (r: Table)
    requires |values| == |t.rows|
    ensures r.columns == if name in t.columns then t.columns else t.columns + [name]
    ensures |r.rows| == |t.rows|
    ensures forall i :: 0 <= i < |t.rows| ==>
              && r.rows[i].index == t.rows[i].index
              && r.rows[i].cells == t.rows[i].cells[name := Some(values[i])]
  {
    Table(if name in t.columns then t.columns else t.columns + [name],
          seq(|t.rows|, i requires 0 <= i < |t.rows| =>
            Row(t.rows[i].index, t.rows[i].cells[name := Some(values[i])])))
  }

  /** `data[name] = value` with a single value: the same value in every row. */
  function WithConstant(t: Table, name: string, value: Cell): Table {
    WithColumn(t, name, seq(|t.rows|, _ => value))
  }

  /** The three conversions `transform_data` applies. */
  datatype Derivation = Length | Published(now: int) | Views

  /** One conversion on one cell; a cell that is not text has no `split`
      (nor a string for `re.findall`) and raises. */
  function DeriveCell(kind: Derivation, c: Option<Cell>): (r: Result<Cell, Error>)
    ensures r.Ok? ==> c.Some? && c.value.Text?
  {
    match c
    case Some(Text(s)) => Convert(kind, s)
    case _ => Err(NotText)
  }

  /** `get_length_minutes`, `get_published_time` or `get_views_count` on a text
      cell, with the result kept exact (seconds, microseconds, a count). */
  function Convert(kind: Derivation, s: string): (r: Result<Cell, Error>)
    ensures r.Ok? ==> (kind.Published? <==> r.value.Time?) && (kind.Published? || r.value.Integer?)
  {
    match kind
    case Length =>
      var n :- DurationSeconds(s);
      Ok(Integer(n))
    case Published(now) =>
      var t :- PublishedTime(s, now);
      Ok(Time(t))
    case Views =>
      var n :- ViewsCount(s);
      Ok(Integer(n))
  }

  /** A function `apply` runs on each cell. */
  type CellFunction = Option<Cell> -> Result<Cell, Error>

  /** The conversion as the function `apply` is given. */
  function Converter(kind: Derivation): Option<Cell> -> Result<Cell, Error> {
    c => DeriveCell(kind, c)
  }

  /** The conversion of a cell succeeds exactly when the cell is text that
      the job's helper accepts, and then holds that helper's exact result. */
  lemma ConverterMeaning(kind: Derivation, c: Option<Cell>)
    ensures Converter(kind)(c).Ok? <==> c.Some? && c.value.Text? && match kind
              case Length => DurationSeconds(c.value.text).Ok?
              case Published(now) => PublishedTime(c.value.text, now).Ok?
              case Views => ViewsCount(c.value.text).Ok?
    ensures Converter(kind)(c).Ok? ==> Converter(kind)(c).value == match kind
              case Length => Integer(DurationSeconds(c.value.text).value)
              case Published(now) => Time(PublishedTime(c.value.text, now).value)
              case Views => Integer(ViewsCount(c.value.text).value)
  {
    assert Converter(kind)(c) == DeriveCell(kind, c);
  }

  /** `series.apply(f)`: `f` on each row's cell, in row order; the first
      exception stops the whole column. */
  function ApplyColumn(rows: seq<Row>, source: string, f: Option<Cell> -> Result<Cell, Error>): (r: Result<seq<Cell>, Error>)
    ensures r.Ok? ==> |r.value| == |rows|
    decreases |rows|
  {
    if rows == [] then Ok([])
    else
      var prev :- ApplyColumn(rows[..|rows| - 1], source, f);
      var c :- f(Lookup(rows[|rows| - 1], source));
      Ok(prev + [c])
  }

  /** The column succeeds exactly when every cell converts. */
  lemma {:induction false} ApplyColumnOk(rows: seq<Row>, source: string, f: Option<Cell> -> Result<Cell, Error>)
    ensures ApplyColumn(rows, source, f).Ok? <==>
              forall i :: 0 <= i < |rows| ==> f(Lookup(rows[i], source)).Ok?
    decreases |rows|
  {
    if rows != [] {
      var init := rows[..|rows| - 1];
      var last := rows[|rows| - 1];
      ApplyColumnOk(init, source, f);
      assert forall i :: 0 <= i < |init| ==> init[i] == rows[i];
      var c := f(Lookup(last, source));
      if ApplyColumn(init, source, f).Err? {
        assert ApplyColumn(rows, source, f).Err?;
      } else if c.Err? {
        assert ApplyColumn(rows, source, f).Err?;
      } else {
        assert ApplyColumn(rows, source, f) == Ok(ApplyColumn(init, source, f).value + [c.value]);
      }
    }
  }

  /** A column that succeeds holds each cell's conversion, in row order. */
  lemma {:induction false} ApplyColumnValues(rows: seq<Row>, source: string, f: Option<Cell> -> Result<Cell, Error>)
    requires ApplyColumn(rows, source, f).Ok?
    ensures forall i :: 0 <= i < |rows| ==>
              f(Lookup(rows[i], source)) == Ok(ApplyColumn(rows, source, f).value[i])
    decreases |rows|
  {
    if rows != [] {
      var init := rows[..|rows| - 1];
      var last := rows[|rows| - 1];
      var c := f(Lookup(last, source));
      assert ApplyColumn(init, source, f).Ok? && c.Ok?;
      var prev := ApplyColumn(init, source, f).value;
      assert ApplyColumn(rows, source, f).value == prev + [c.value];
      ApplyColumnValues(init, source, f);
      assert forall i :: 0 <= i < |init| ==> init[i] == rows[i];
    }
  }

  /** A failing column reports the error of its first failing cell. */
  lemma {:induction false} ApplyColumnFirstError(rows: seq<Row>, source: string, f: Option<Cell> -> Result<Cell, Error>)
    requires ApplyColumn(rows, source, f).Err?
    ensures exists k :: 0 <= k < |rows|
              && f(Lookup(rows[k], source)) == Err(ApplyColumn(rows, source, f).error)
              && forall i :: 0 <= i < k ==> f(Lookup(rows[i], source)).Ok?
    decreases |rows|
  {
    var init := rows[..|rows| - 1];
    var last := rows[|rows| - 1];
    var e := ApplyColumn(rows, source, f).error;
    if ApplyColumn(init, source, f).Err? {
      ApplyColumnFirstError(init, source, f);
      var k :| 0 <= k < |init|
        && f(Lookup(init[k], source)) == Err(e)
        && forall i :: 0 <= i < k ==> f(Lookup(init[i], source)).Ok?;
      assert forall i :: 0 <= i <= k ==> init[i] == rows[i];
    } else {
      ApplyColumnOk(init, source, f);
      assert forall i :: 0 <= i < |init| ==> init[i] == rows[i];
      assert f(Lookup(rows[|rows| - 1], source)) == Err(e);
    }
  }

  /** One step of `apply` with the job's conversion: a failing cell stops
      the column with its error, a converting one extends the prefix. */
  lemma ConverterStep(rows: seq<Row>, i: nat, values: seq<Cell>, source: string, kind: Derivation, c: Result<Cell, Error>)
    requires i < |rows|
    requires ApplyColumn(rows[..i], source, Converter(kind)) == Ok(values)
    requires c == DeriveCell(kind, Lookup(rows[i], source))
    ensures c.Err? ==> ApplyColumn(rows, source, Converter(kind)) == Err(c.error)
    ensures c.Ok? ==> ApplyColumn(rows[..i + 1], source, Converter(kind)) == Ok(values + [c.value])
  {
    assert Converter(kind)(Lookup(rows[i], source)) == c;
    if c.Err? {
      ApplyColumnStops(rows, i, source, Converter(kind));
    } else {
      ApplyColumnGrows(rows, i, values, source, Converter(kind));
    }
  }

  /** A prefix that converts grows by the next row's converted cell. */
  lemma ApplyColumnGrows(rows: seq<Row>, k: nat, values: seq<Cell>, source: string, f: Option<Cell> -> Result<Cell, Error>)
    requires k < |rows|
    requires ApplyColumn(rows[..k], source, f) == Ok(values)
    requires f(Lookup(rows[k], source)).Ok?
    ensures ApplyColumn(rows[..k + 1], source, f) == Ok(values + [f(Lookup(rows[k], source)).value])
  {
    assert rows[..k + 1][..k] == rows[..k];
  }

  /** Once a cell fails, the column fails with that cell's error, whatever
      the later rows hold. */
  lemma {:induction false} ApplyColumnStops(rows: seq<Row>, k: nat, source: string, f: Option<Cell> -> Result<Cell, Error>)
    requires k < |rows|
    requires ApplyColumn(rows[..k], source, f).Ok?
    requires f(Lookup(rows[k], source)).Err?
    ensures ApplyColumn(rows, source, f) == Err(f(Lookup(rows[k], source)).error)
    decreases |rows|
  {
    var init := rows[..|rows| - 1];
    if k == |rows| - 1 {
      assert rows[..k] == init;
    } else {
      assert init[..k] == rows[..k];
      ApplyColumnStops(init, k, source, f);
    }
  }

  /** Two lists of rows hold the same cells in column `column`, row by row. */
  predicate Agrees(a: seq<Row>, b: seq<Row>, column: string) {
    |a| == |b| && forall k :: 0 <= k < |a| ==> Lookup(a[k], column) == Lookup(b[k], column)
  }

  /** `apply` reads only the source column: rows that agree on it give the
      same outcome. */
  lemma {:induction false} ApplyColumnSame(a: seq<Row>, b: seq<Row>, source: string, f: Option<Cell> -> Result<Cell, Error>)
    requires Agrees(a, b, source)
    ensures ApplyColumn(a, source, f) == ApplyColumn(b, source, f)
    decreases |a|
  {
    if a != [] {
      var n := |a| - 1;
      ApplyColumnSame(a[..n], b[..n], source, f);
      assert Lookup(a[n], source) == Lookup(b[n], source);
    }
  }

  /** Setting one column leaves every other column as it was. */
  lemma WithColumnAgrees(t: Table, name: string, values: seq<Cell>, column: string)
    requires |values| == |t.rows|
    requires column != name
    ensures Agrees(WithColumn(t, name, values).rows, t.rows, column)
  {
  }

  lemma AgreesTrans(a: seq<Row>, b: seq<Row>, c: seq<Row>, column: string)
    requires Agrees(a, b, column) && Agrees(b, c, column)
    ensures Agrees(a, c, column)
  {
  }

  /** `data[target] = data[source].apply(f)`: a missing source column raises
      `KeyError`, a failing cell raises its own error. */
  function WithDerived(t: Table, source: string, target: string, f: CellFunction): (r: Result<Table, Error>)
    ensures source !in t.columns ==> r == Err(MissingColumn(source))
    ensures r.Ok? ==> ApplyColumn(t.rows, source, f).Ok?
                      && r.value == WithColumn(t, target, ApplyColumn(t.rows, source, f).value)
  {
    if source !in t.columns then Err(MissingColumn(source))
    else
      var values :- ApplyColumn(t.rows, source, f);
      Ok(WithColumn(t, target, values))
  }

  /** With the source column present, the outcome is the column's outcome. */
  lemma WithDerivedOutcome(t: Table, source: string, target: string, f: CellFunction)
    requires source in t.columns
    ensures ApplyColumn(t.rows, source, f).Ok? ==>
              WithDerived(t, source, target, f) == Ok(WithColumn(t, target, ApplyColumn(t.rows, source, f).value))
    ensures ApplyColumn(t.rows, source, f).Err? ==>
              WithDerived(t, source, target, f) == Err(ApplyColumn(t.rows, source, f).error)
  {
  }

  /** A successful `apply` step adds `target` as the last column, unless it is already one. */
  lemma WithDerivedColumns(t: Table, source: string, target: string, f: CellFunction)
    requires WithDerived(t, source, target, f).Ok?
    ensures WithDerived(t, source, target, f).value.columns ==
              if target in t.columns then t.columns else t.columns + [target]
    ensures |WithDerived(t, source, target, f).value.rows| == |t.rows|
  {
  }

  /** Row `k` after a successful `apply` step: the target cell holds the
      conversion of the row's source cell, the rest of the row is unchanged. */
  lemma WithDerivedRow(t: Table, source: string, target: string, f: CellFunction, k: nat)
    requires WithDerived(t, source, target, f).Ok?
    requires k < |t.rows|
    ensures |WithDerived(t, source, target, f).value.rows| == |t.rows|
    ensures f(Lookup(t.rows[k], source)).Ok?
    ensures WithDerived(t, source, target, f).value.rows[k] ==
              Row(t.rows[k].index, t.rows[k].cells[target := Some(f(Lookup(t.rows[k], source)).value)])
  {
    ApplyColumnValues(t.rows, source, f);
  }

  /** The first of `names` that is not a column, if any. */
  function FirstAbsent(names: seq<string>, columns: seq<string>): (r: Option<string>)
    ensures r.None? <==> forall n :: n in names ==> n in columns
    ensures r.Some? ==> r.value in names && r.value !in columns
  {
    if names == [] then None
    else if names[0] !in columns then Some(names[0])
    else FirstAbsent(names[1..], columns)
  }

  /** The name `FirstAbsent` reports is the earliest absent one: every name
      before it is a column. */
  lemma {:induction false} FirstAbsentIndex(names: seq<string>, columns: seq<string>) returns (k: nat)
    requires FirstAbsent(names, columns).Some?
    ensures k < |names| && names[k] == FirstAbsent(names, columns).value
    ensures forall j :: 0 <= j < k ==> names[j] in columns
  {
    if names[0] !in columns {
      k := 0;
    } else {
      var k' := FirstAbsentIndex(names[1..], columns);
      k := k' + 1;
      assert forall j :: 1 <= j < k ==> names[j] == names[1..][j - 1];
    }
  }

  /** `columns` without the ones in `names`, in order. */
  function Without(columns: seq<string>, names: seq<string>): seq<string>
    decreases |columns|
  {
    if columns == [] then []
    else
      var prev := Without(columns[..|columns| - 1], names);
      var last := columns[|columns| - 1];
      if last in names then prev else prev + [last]
  }

  /** A column is kept exactly when it is not one of `names`. */
  lemma {:induction false} WithoutMembers(columns: seq<string>, names: seq<string>)
    ensures forall c :: c in Without(columns, names) <==> c in columns && c !in names
    decreases |columns|
  {
    if columns != [] {
      var init := columns[..|columns| - 1];
      var last := columns[|columns| - 1];
      assert columns == init + [last];
      WithoutMembers(init, names);
      WithoutSnoc(init, last, names);
    }
  }

  /** Dropping columns keeps the first one when it is not dropped. */
  lemma {:induction false} WithoutHead(first: string, rest: seq<string>, names: seq<string>)
    requires first !in names
    ensures Without([first] + rest, names) == [first] + Without(rest, names)
    decreases |rest|
  {
    if rest == [] {
      WithoutSnoc([], first, names);
      assert [first] + rest == [] + [first];
    } else {
      var init := rest[..|rest| - 1];
      var last := rest[|rest| - 1];
      assert rest == init + [last];
      assert [first] + rest == ([first] + init) + [last];
      WithoutHead(first, init, names);
      WithoutSnoc([first] + init, last, names);
      WithoutSnoc(init, last, names);
    }
  }

  lemma WithoutSnoc(columns: seq<string>, last: string, names: seq<string>)
    ensures Without(columns + [last], names) ==
              if last in names then Without(columns, names) else Without(columns, names) + [last]
  {
    assert (columns + [last])[..|columns|] == columns;
  }

  /** `drop(columns=names)`: raises `KeyError` when one of them is not a column. */
  function WithoutColumns(t: Table, names: seq<string>): (r: Result<Table, Error>)
    ensures r.Err? <==> exists n :: n in names && n !in t.columns
    ensures r.Err? ==> r.error.MissingColumn? && r.error.name in names && r.error.name !in t.columns
    ensures r.Ok? ==>
              && r.value.columns == Without(t.columns, names)
              && |r.value.rows| == |t.rows|
              && forall i :: 0 <= i < |t.rows| ==>
                   && r.value.rows[i].index == t.rows[i].index
                   && r.value.rows[i].cells == t.rows[i].cells - ColumnSet(names)
  {
    match FirstAbsent(names, t.columns)
    case Some(n) => Err(MissingColumn(n))
    case None =>
      Ok(Table(Without(t.columns, names),
               seq(|t.rows|, i requires 0 <= i < |t.rows| =>
                 Row(t.rows[i].index, t.rows[i].cells - ColumnSet(names)))))
  }

  // ---------------------------------------------------------------------------
  // Well-formedness is kept by every step
  // ---------------------------------------------------------------------------

  lemma CleanWellFormed(t: Table)
    requires WellFormed(t)
    ensures WellFormed(Table(t.columns, Clean(t.rows)))
  {
    DropMissingMembers(t.rows);
    DedupMembers(DropMissing(t.rows));
  }

  lemma ShiftWellFormed(t: Table, k: int)
    requires WellFormed(t)
    ensures WellFormed(Table(t.columns, Shift(t.rows, k)))
  {
    var s := Shift(t.rows, k);
    forall r | r in s
      ensures r.cells.Keys == ColumnSet(t.columns)
    {
      var i :| 0 <= i < |s| && s[i] == r;
      assert t.rows[i] in t.rows;
    }
  }

  lemma WithIndexColumnWellFormed(t: Table, name: string)
    requires WellFormed(t)
    requires WithIndexColumn(t, name).Ok?
    ensures WellFormed(WithIndexColumn(t, name).value)
  {
    var u := WithIndexColumn(t, name).value;
    assert ColumnSet(u.columns) == ColumnSet(t.columns) + {name};
    forall r | r in u.rows
      ensures r.cells.Keys == ColumnSet(u.columns)
    {
      var i :| 0 <= i < |u.rows| && u.rows[i] == r;
      assert t.rows[i] in t.rows;
    }
    forall i, j | 0 <= i < j < |u.columns|
      ensures u.columns[i] != u.columns[j]
    {
      if i == 0 {
        assert u.columns[j] == t.columns[j - 1];
      }
    }
  }

  lemma WithColumnWellFormed(t: Table, name: string, values: seq<Cell>)
    requires WellFormed(t)
    requires |values| == |t.rows|
    ensures WellFormed(WithColumn(t, name, values))
  {
    var u := WithColumn(t, name, values);
    assert ColumnSet(u.columns) == ColumnSet(t.columns) + {name};
    forall r | r in u.rows
      ensures r.cells.Keys == ColumnSet(u.columns)
    {
      var i :| 0 <= i < |u.rows| && u.rows[i] == r;
      assert t.rows[i] in t.rows;
    }
  }

  lemma WithDerivedWellFormed(t: Table, source: string, target: string, f: CellFunction)
    requires WellFormed(t)
    requires WithDerived(t, source, target, f).Ok?
    ensures WellFormed(WithDerived(t, source, target, f).value)
  {
    WithColumnWellFormed(t, target, ApplyColumn(t.rows, source, f).value);
  }

  lemma {:induction false} WithoutDistinct(columns: seq<string>, names: seq<string>)
    requires Distinct(columns)
    ensures Distinct(Without(columns, names))
    decreases |columns|
  {
    if columns != [] {
      var init := columns[..|columns| - 1];
      var last := columns[|columns| - 1];
      assert columns == init + [last];
      assert Distinct(init) by {
        assert forall i :: 0 <= i < |init| ==> init[i] == columns[i];
      }
      WithoutDistinct(init, names);
      WithoutMembers(init, names);
      WithoutSnoc(init, last, names);
      assert last !in init;
    }
  }

  lemma WithoutColumnsWellFormed(t: Table, names: seq<string>)
    requires WellFormed(t)
    requires WithoutColumns(t, names).Ok?
    ensures WellFormed(WithoutColumns(t, names).value)
  {
    var u := WithoutColumns(t, names).value;
    WithoutDistinct(t.columns, names);
    WithoutMembers(t.columns, names);
    assert ColumnSet(u.columns) == ColumnSet(t.columns) - ColumnSet(names);
    forall r | r in u.rows
      ensures r.cells.Keys == ColumnSet(u.columns)
    {
      var i :| 0 <= i < |u.rows| && u.rows[i] == r;
      assert t.rows[i] in t.rows;
    }
  }
}
