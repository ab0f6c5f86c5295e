/**
  The DataFrame as `transform_data` uses it: an object whose columns and rows
  the pandas calls change in place (`inplace=True`, `data.index += 1`,
  `data[name] = ...`), or from which they build a new frame
  (`reset_index()`). Each method leaves the frame equal to the matching
  `Tables` function applied to its former contents.
 */
module Frames {
  import opened Wrappers
  import opened Errors
  import opened Derive
  import opened Tables

  /** `get_length_minutes`, `get_published_time` or `get_views_count` called by
      `apply` on one cell; the duration goes through the loop of `LengthSeconds`. */
  method ConvertCell(kind: Derivation, c: Option<Cell>) returns (r: Result<Cell, Error>)
    ensures r == DeriveCell(kind, c)
  {
    match c {
      case Some(Text(s)) =>
        match kind {
          case Length =>
            var seconds := LengthSeconds(s);
            r := if seconds.Ok? then Ok(Integer(seconds.value)) else Err(seconds.error);
          case Published(now) =>
            var t := PublishedTime(s, now);
            r := if t.Ok? then Ok(Time(t.value)) else Err(t.error);
          case Views =>
            var n := ViewsCount(s);
            r := if n.Ok? then Ok(Integer(n.value)) else Err(n.error);
        }
      case _ =>
        r := Err(NotText);
    }
  }

  /** `series.apply(f)` as pandas runs it: the conversion on each row's cell
      in turn, stopping at the first that raises. */
  method ApplyAll(rows: seq<Row>, source: string, kind: Derivation) returns (r: Result<seq<Cell>, Error>)
    ensures r == ApplyColumn(rows, source, Converter(kind))
  {
    var values: seq<Cell> := [];
    var i := 0;
    while i < |rows|
      invariant 0 <= i <= |rows|
      invariant ApplyColumn(rows[..i], source, Converter(kind)) == Ok(values)
    {
      var c := ConvertCell(kind, Lookup(rows[i], source));
      ConverterStep(rows, i, values, source, kind, c);
      if c.Err? {
        return Err(c.error);
      }
      values := values + [c.value];
      i := i + 1;
    }
    assert rows[..i] == rows;
    return Ok(values);
  }

  class Frame {
    var columns: seq<string>
    var rows: seq<Row>

    /** The frame's contents as a value. */
    function Snapshot(): Table
      reads this
    {
      Table(columns, rows)
    }

    predicate Valid()
      reads this
    {
      WellFormed(Snapshot())
    }

    constructor (t: Table)
      requires WellFormed(t)
      ensures Valid() && Snapshot() == t
    {
      columns := t.columns;
      rows := t.rows;
    }

    /** `data.dropna(inplace=True)`. */
    method DropNa()
      requires Valid()
      modifies this
      ensures Valid()
      ensures columns == old(columns) && rows == DropMissing(old(rows))
      ensures forall r :: r in rows <==> r in old(rows) && Complete(r)
    {
      DropMissingMembers(rows);
      rows := DropMissing(rows);
    }

    /** `data.drop_duplicates(inplace=True)`. */
    method DropDuplicates()
      requires Valid()
      modifies this
      ensures Valid()
      ensures columns == old(columns) && rows == Dedup(old(rows))
      ensures Distinct(Contents(rows))
      ensures forall c :: c in Contents(rows) <==> c in Contents(old(rows))
    {
      DedupMembers(rows);
      DedupDistinct(rows);
      DedupContents(rows);
      rows := Dedup(rows);
    }

    /** `data.index += k`. */
    method ShiftIndex(k: int)
      requires Valid()
      modifies this
      ensures Valid()
      ensures columns == old(columns) && rows == Shift(old(rows), k)
    {
      ShiftWellFormed(Snapshot(), k);
      rows := Shift(rows, k);
    }

    /** `data.rename_axis(name).reset_index()`: a new frame; this one is not changed. */
    method ResetIndex(name: string) returns (r: Result<Frame, Error>)
      requires Valid()
      ensures r.Err? <==> name in columns
      ensures r.Err? ==> r.error == ColumnExists(name)
      ensures r.Ok? ==> fresh(r.value) && r.value.Valid()
                        && r.value.Snapshot() == WithIndexColumn(Snapshot(), name).value
    {
      var t := WithIndexColumn(Snapshot(), name);
      if t.Err? {
        return Err(t.error);
      }
      WithIndexColumnWellFormed(Snapshot(), name);
      var f := new Frame(t.value);
      return Ok(f);
    }

    /** `data[name] = value` with one value for every row. */
    method Assign(name: string, value: Cell)
      requires Valid()
      modifies this
      ensures Valid()
      ensures Snapshot() == WithConstant(old(Snapshot()), name, value)
    {
      var t := WithConstant(Snapshot(), name, value);
      WithColumnWellFormed(Snapshot(), name, seq(|rows|, _ => value));
      columns, rows := t.columns, t.rows;
    }

    /** `data[target] = data[source].apply(f)`: the conversion runs row by row
        and the first failing row raises; on failure the frame is unchanged. */
    method Apply(source: string, target: string, kind: Derivation) returns (r: Result<(), Error>)
      requires Valid()
      modifies this
      ensures Valid()
      ensures r.Ok? <==> WithDerived(old(Snapshot()), source, target, Converter(kind)).Ok?
      ensures r.Ok? ==> Snapshot() == WithDerived(old(Snapshot()), source, target, Converter(kind)).value
      ensures r.Err? ==> r.error == WithDerived(old(Snapshot()), source, target, Converter(kind)).error
                         && Snapshot() == old(Snapshot())
    {
      if source !in columns {
        return Err(MissingColumn(source));
      }
      var values := ApplyAll(rows, source, kind);
      WithDerivedOutcome(Snapshot(), source, target, Converter(kind));
      if values.Err? {
        return Err(values.error);
      }
      WithColumnWellFormed(Snapshot(), target, values.value);
      var t := WithColumn(Snapshot(), target, values.value);
      columns, rows := t.columns, t.rows;
      return Ok(());
    }

    /** `data.drop(columns=names, inplace=True)`; on failure the frame is unchanged. */
    method DropColumns(names: seq<string>) returns (r: Result<(), Error>)
      requires Valid()
      modifies this
      ensures Valid()
      ensures r.Ok? <==> WithoutColumns(old(Snapshot()), names).Ok?
      ensures r.Ok? ==> Snapshot() == WithoutColumns(old(Snapshot()), names).value
      ensures r.Err? ==> r.error == WithoutColumns(old(Snapshot()), names).error
                         && Snapshot() == old(Snapshot())
    {
      var t := WithoutColumns(Snapshot(), names);
      if t.Err? {
        return Err(t.error);
      }
      WithoutColumnsWellFormed(Snapshot(), names);
      columns, rows := t.value.columns, t.value.rows;
      return Ok(());
    }
  }
}
