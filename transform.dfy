/**
  `transform_data`: the listing's table is cleaned (`dropna`, then
  `drop_duplicates`), ranked from its index labels plus one, stamped with the
  extraction time, and its three text columns are replaced by the values
  derived from them.
 */
module Transform {
  import opened Wrappers
  import opened Errors
  import opened Derive
  import opened Tables
  import opened Frames
  import Text

  const Rank := "rank"
  const ExtractedAt := "extracted_at"
  const LengthText := "lengthText"
  const PublishedText := "publishedTimeText"
  const ViewsText := "viewCountText"
  const LengthMinutes := "length_minutes"
  const PublishedAt := "published_time"
  const ViewsMillions := "views_millions"

  /** The text columns the job drops once it has derived their values. */
  const RawColumns: seq<string> := [LengthText, PublishedText, ViewsText]

  /** The columns the job adds besides `rank`. */
  const Generated: seq<string> := [ExtractedAt, LengthMinutes, PublishedAt, ViewsMillions]

  /** The three conversions `transform_data` applies, in its order. */
  datatype Conversions = Conversions(length: CellFunction, published: CellFunction, views: CellFunction)

  /** `get_length_minutes`, `get_published_time` and `get_views_count`. */
  function JobConversions(now: int): Conversions {
    Conversions(Converter(Length), Converter(Published(now)), Converter(Views))
  }

  /** The cleaned rows, ranked from their index labels plus one and stamped
      with the extraction time. */
  function Stamped(t: Table, now: int): Result<Table, Error> {
    var ranked :- WithIndexColumn(Table(t.columns, Shift(Clean(t.rows), 1)), Rank);
    Ok(WithConstant(ranked, ExtractedAt, Time(now)))
  }

  /** The stamped table with the three derived columns set. */
  function DerivedBy(t: Table, now: int, fs: Conversions): Result<Table, Error> {
    var stamped :- Stamped(t, now);
    var withLength :- WithDerived(stamped, LengthText, LengthMinutes, fs.length);
    var withPublished :- WithDerived(withLength, PublishedText, PublishedAt, fs.published);
    WithDerived(withPublished, ViewsText, ViewsMillions, fs.views)
  }

  /** The steps of `transform_data`, with the three conversions as parameters. */
  function TransformedBy(t: Table, now: int, fs: Conversions): Result<Table, Error> {
    var derived :- DerivedBy(t, now, fs);
    WithoutColumns(derived, RawColumns)
  }

  /** `transform_data(data)` on a table, with `now` the clock reading every
      `datetime.now()` call gets. */
  function Transformed(t: Table, now: int): Result<Table, Error> {
    TransformedBy(t, now, JobConversions(now))
  }

  /** `transform_data(data)`: cleans the caller's frame in place and shifts its
      index labels, then builds the result in a new frame. */
  method TransformData(data: Frame, now: int) returns (r: Result<Frame, Error>)
    requires data.Valid()
    modifies data
    ensures data.Valid()
    ensures data.columns == old(data.columns) && data.rows == Shift(Clean(old(data.rows)), 1)
    ensures r.Ok? <==> Transformed(old(data.Snapshot()), now).Ok?
    ensures r.Err? ==> r.error == Transformed(old(data.Snapshot()), now).error
    ensures r.Ok? ==> fresh(r.value) && r.value.Valid()
                      && r.value.Snapshot() == Transformed(old(data.Snapshot()), now).value
  {
    data.DropNa();
    data.DropDuplicates();
    data.ShiftIndex(1);
    var ranked := data.ResetIndex(Rank);
    if ranked.Err? {
      return Err(ranked.error);
    }
    var frame := ranked.value;
    frame.Assign(ExtractedAt, Time(now));
    var applied := frame.Apply(LengthText, LengthMinutes, Length);
    if applied.Err? {
      return Err(applied.error);
    }
    applied := frame.Apply(PublishedText, PublishedAt, Published(now));
    if applied.Err? {
      return Err(applied.error);
    }
    applied := frame.Apply(ViewsText, ViewsMillions, Views);
    if applied.Err? {
      return Err(applied.error);
    }
    var dropped := frame.DropColumns(RawColumns);
    if dropped.Err? {
      return Err(dropped.error);
    }
    return Ok(frame);
  }

  /** Ranking and stamping fail only on an existing `rank` column, and leave
      every text column of the cleaned rows as it was. */
  lemma StampedShape(t: Table, now: int)
    ensures Stamped(t, now).Ok? <==> Rank !in t.columns
    ensures Stamped(t, now).Ok? ==>
              && (forall col :: col in Stamped(t, now).value.columns <==> col in t.columns || col == Rank || col == ExtractedAt)
              && Agrees(Stamped(t, now).value.rows, Clean(t.rows), LengthText)
              && Agrees(Stamped(t, now).value.rows, Clean(t.rows), PublishedText)
              && Agrees(Stamped(t, now).value.rows, Clean(t.rows), ViewsText)
  {
    var c := Clean(t.rows);
    var ranked := WithIndexColumn(Table(t.columns, Shift(c, 1)), Rank);
    if ranked.Ok? {
      var r := ranked.value;
      var values := seq(|r.rows|, _ => Time(now));
      WithColumnAgrees(r, ExtractedAt, values, LengthText);
      WithColumnAgrees(r, ExtractedAt, values, PublishedText);
      WithColumnAgrees(r, ExtractedAt, values, ViewsText);
    }
  }

  /** One `apply` step: it succeeds exactly when its source column exists and
      the conversion succeeds on every cell, as read from `base`; it keeps the
      columns it had and the cells of every other column. */
  lemma DerivedStep(tbl: Table, base: seq<Row>, source: string, target: string, f: CellFunction)
    requires Agrees(tbl.rows, base, source)
    ensures WithDerived(tbl, source, target, f).Ok? <==>
              source in tbl.columns && ApplyColumn(base, source, f).Ok?
    ensures WithDerived(tbl, source, target, f).Ok? ==>
              && (forall col :: col in WithDerived(tbl, source, target, f).value.columns <==> col in tbl.columns || col == target)
              && forall col :: col != target ==> Agrees(WithDerived(tbl, source, target, f).value.rows, tbl.rows, col)
  {
    ApplyColumnSame(tbl.rows, base, source, f);
    if source in tbl.columns {
      WithDerivedOutcome(tbl, source, target, f);
      var out := WithDerived(tbl, source, target, f);
      if out.Ok? {
        var values := ApplyColumn(tbl.rows, source, f).value;
        forall col | col != target
          ensures Agrees(out.value.rows, tbl.rows, col)
        {
          WithColumnAgrees(tbl, target, values, col);
        }
      }
    }
  }

  /** Deriving the three columns succeeds exactly when the table has no
      `rank` column yet, has the three text columns, and each conversion
      succeeds on its whole column of kept rows; the result has every column
      of the input, `rank` and the generated ones. */
  lemma DerivedOk(t: Table, now: int, fs: Conversions)
    ensures DerivedBy(t, now, fs).Ok? <==>
              && Rank !in t.columns
              && (forall col :: col in RawColumns ==> col in t.columns)
              && ApplyColumn(Clean(t.rows), LengthText, fs.length).Ok?
              && ApplyColumn(Clean(t.rows), PublishedText, fs.published).Ok?
              && ApplyColumn(Clean(t.rows), ViewsText, fs.views).Ok?
    ensures DerivedBy(t, now, fs).Ok? ==>
              forall col :: col in DerivedBy(t, now, fs).value.columns <==>
                col in t.columns || col == Rank || col in Generated
  {
    StampedShape(t, now);
    if Stamped(t, now).Ok? {
      LaterSteps(Stamped(t, now).value, Clean(t.rows), fs);
      RawColumnsIn(t.columns);
    }
  }

  lemma RawColumnsIn(columns: seq<string>)
    ensures (forall col :: col in RawColumns ==> col in columns) <==>
              LengthText in columns && PublishedText in columns && ViewsText in columns
  {
    assert LengthText in RawColumns && PublishedText in RawColumns && ViewsText in RawColumns;
  }

  /** The three `apply` steps on a stamped table whose text columns read as `c`. */
  lemma LaterSteps(stamped: Table, c: seq<Row>, fs: Conversions)
    requires Agrees(stamped.rows, c, LengthText)
    requires Agrees(stamped.rows, c, PublishedText)
    requires Agrees(stamped.rows, c, ViewsText)
    ensures var withLength := WithDerived(stamped, LengthText, LengthMinutes, fs.length);
            var withPublished := if withLength.Ok? then WithDerived(withLength.value, PublishedText, PublishedAt, fs.published) else withLength;
            var derived := if withPublished.Ok? then WithDerived(withPublished.value, ViewsText, ViewsMillions, fs.views) else withPublished;
            && (derived.Ok? <==>
                  && LengthText in stamped.columns && PublishedText in stamped.columns && ViewsText in stamped.columns
                  && ApplyColumn(c, LengthText, fs.length).Ok?
                  && ApplyColumn(c, PublishedText, fs.published).Ok?
                  && ApplyColumn(c, ViewsText, fs.views).Ok?)
            && (derived.Ok? ==>
                  forall col :: col in derived.value.columns <==>
                    col in stamped.columns || col == LengthMinutes || col == PublishedAt || col == ViewsMillions)
  {
    DerivedStep(stamped, c, LengthText, LengthMinutes, fs.length);
    var withLength := WithDerived(stamped, LengthText, LengthMinutes, fs.length);
    if withLength.Ok? {
      var l := withLength.value;
      AgreesTrans(l.rows, stamped.rows, c, PublishedText);
      AgreesTrans(l.rows, stamped.rows, c, ViewsText);
      DerivedStep(l, c, PublishedText, PublishedAt, fs.published);
      var withPublished := WithDerived(l, PublishedText, PublishedAt, fs.published);
      if withPublished.Ok? {
        var p := withPublished.value;
        AgreesTrans(p.rows, l.rows, c, ViewsText);
        DerivedStep(p, c, ViewsText, ViewsMillions, fs.views);
      }
    }
  }

  /** `transform_data` succeeds exactly when the table has no `rank` column
      yet, has the three text columns, and every kept row's three texts
      convert. */
  lemma TransformedOk(t: Table, now: int, fs: Conversions)
    ensures TransformedBy(t, now, fs).Ok? <==>
              && Rank !in t.columns
              && (forall col :: col in RawColumns ==> col in t.columns)
              && (forall k :: 0 <= k < |Clean(t.rows)| ==>
                    && fs.length(Lookup(Clean(t.rows)[k], LengthText)).Ok?
                    && fs.published(Lookup(Clean(t.rows)[k], PublishedText)).Ok?
                    && fs.views(Lookup(Clean(t.rows)[k], ViewsText)).Ok?)
  {
    DerivedOk(t, now, fs);
    ApplyColumnOk(Clean(t.rows), LengthText, fs.length);
    ApplyColumnOk(Clean(t.rows), PublishedText, fs.published);
    ApplyColumnOk(Clean(t.rows), ViewsText, fs.views);
  }

  /** What `transform_data` makes of the kept row `src` at position `k`: the
      row is relabelled `k`, ranked by its old label plus one, stamped, given
      the values the three conversions derive from its three texts, stripped
      of those texts, and otherwise unchanged. */
  ghost predicate Transcribed(o: Row, src: Row, k: int, now: int, fs: Conversions) {
    && o.index == k
    && o.cells.Keys == (src.cells.Keys + {Rank} + ColumnSet(Generated)) - ColumnSet(RawColumns)
    && Lookup(o, Rank) == Some(Integer(src.index + 1))
    && Lookup(o, ExtractedAt) == Some(Time(now))
    && fs.length(Lookup(src, LengthText)).Ok?
    && Lookup(o, LengthMinutes) == Some(fs.length(Lookup(src, LengthText)).value)
    && fs.published(Lookup(src, PublishedText)).Ok?
    && Lookup(o, PublishedAt) == Some(fs.published(Lookup(src, PublishedText)).value)
    && fs.views(Lookup(src, ViewsText)).Ok?
    && Lookup(o, ViewsMillions) == Some(fs.views(Lookup(src, ViewsText)).value)
    && forall col :: col !in RawColumns && col != Rank && col !in Generated ==> Lookup(o, col) == Lookup(src, col)
  }

  lemma GeneratedNamesDiffer()
    ensures LengthMinutes != PublishedAt && LengthMinutes != ViewsMillions && PublishedAt != ViewsMillions
  {
    Text.Differ(LengthMinutes, PublishedAt, 0);
    Text.Differ(LengthMinutes, ViewsMillions, 0);
    Text.Differ(PublishedAt, ViewsMillions, 0);
  }

  /** Row by row, the result of `transform_data` is the cleaned input
      transcribed as `Transcribed` says. */
  lemma TransformedRows(t: Table, now: int, fs: Conversions)
    requires TransformedBy(t, now, fs).Ok?
    ensures |TransformedBy(t, now, fs).value.rows| == |Clean(t.rows)|
    ensures forall k :: 0 <= k < |Clean(t.rows)| ==>
              Transcribed(TransformedBy(t, now, fs).value.rows[k], Clean(t.rows)[k], k, now, fs)
  {
    forall k | 0 <= k < |Clean(t.rows)|
      ensures Transcribed(TransformedBy(t, now, fs).value.rows[k], Clean(t.rows)[k], k, now, fs)
    {
      TransformedRow(t, now, fs, k);
    }
    TransformedLength(t, now, fs);
  }

  lemma TransformedLength(t: Table, now: int, fs: Conversions)
    requires TransformedBy(t, now, fs).Ok?
    ensures |TransformedBy(t, now, fs).value.rows| == |Clean(t.rows)|
  {
    var ranked, stamped, l, p, v := Stages(t, now, fs);
    WithDerivedColumns(stamped, LengthText, LengthMinutes, fs.length);
    WithDerivedColumns(l, PublishedText, PublishedAt, fs.published);
    WithDerivedColumns(p, ViewsText, ViewsMillions, fs.views);
  }

  lemma StampedRow(t: Table, now: int, k: nat)
    requires Stamped(t, now).Ok?
    requires k < |Clean(t.rows)|
    ensures |Stamped(t, now).value.rows| == |Clean(t.rows)|
    ensures Stamped(t, now).value.rows[k] ==
              Row(k, Clean(t.rows)[k].cells[Rank := Some(Integer(Clean(t.rows)[k].index + 1))][ExtractedAt := Some(Time(now))])
  {
  }

  lemma TransformedRow(t: Table, now: int, fs: Conversions, k: nat)
    requires TransformedBy(t, now, fs).Ok?
    requires k < |Clean(t.rows)|
    ensures Transcribed(TransformedBy(t, now, fs).value.rows[k], Clean(t.rows)[k], k, now, fs)
  {
    var s, l, p, v := StageRows(t, now, fs, k);
    GeneratedNamesDiffer();
    TranscribedRow(TransformedBy(t, now, fs).value.rows[k], v, p, l, s, Clean(t.rows)[k], k, now, fs);
  }

  /** Row `k` after each step of `transform_data`. */
  lemma StageRows(t: Table, now: int, fs: Conversions, k: nat) returns (s: Row, l: Row, p: Row, v: Row)
    requires TransformedBy(t, now, fs).Ok?
    requires k < |Clean(t.rows)|
    ensures k < |TransformedBy(t, now, fs).value.rows|
    ensures Steps(TransformedBy(t, now, fs).value.rows[k], v, p, l, s, Clean(t.rows)[k], k, now, fs)
  {
    var ranked, stamped, lt, pt, vt := Stages(t, now, fs);
    StampedRow(t, now, k);
    WithDerivedRow(stamped, LengthText, LengthMinutes, fs.length, k);
    WithDerivedRow(lt, PublishedText, PublishedAt, fs.published, k);
    WithDerivedRow(pt, ViewsText, ViewsMillions, fs.views, k);
    s, l, p, v := stamped.rows[k], lt.rows[k], pt.rows[k], vt.rows[k];
  }

  /** Row `src` at position `k` goes through the five steps as `s`, `l`, `p`,
      `v` and finally `o`. */
  ghost predicate Steps(o: Row, v: Row, p: Row, l: Row, s: Row, src: Row, k: int, now: int, fs: Conversions) {
    && s == Row(k, src.cells[Rank := Some(Integer(src.index + 1))][ExtractedAt := Some(Time(now))])
    && fs.length(Lookup(s, LengthText)).Ok?
    && l == Row(s.index, s.cells[LengthMinutes := Some(fs.length(Lookup(s, LengthText)).value)])
    && fs.published(Lookup(l, PublishedText)).Ok?
    && p == Row(l.index, l.cells[PublishedAt := Some(fs.published(Lookup(l, PublishedText)).value)])
    && fs.views(Lookup(p, ViewsText)).Ok?
    && v == Row(p.index, p.cells[ViewsMillions := Some(fs.views(Lookup(p, ViewsText)).value)])
    && o == Row(v.index, v.cells - ColumnSet(RawColumns))
  }

  /** The five steps on one row, composed. */
  lemma TranscribedRow(o: Row, v: Row, p: Row, l: Row, s: Row, src: Row, k: int, now: int, fs: Conversions)
    requires LengthMinutes != PublishedAt && LengthMinutes != ViewsMillions && PublishedAt != ViewsMillions
    requires Steps(o, v, p, l, s, src, k, now, fs)
    ensures Transcribed(o, src, k, now, fs)
  {
    StepsKeys(o, v, p, l, s, src, k, now, fs);
    StepsSources(o, v, p, l, s, src, k, now, fs);
    StepsTargets(o, v, p, l, s, src, k, now, fs);
    StepsOthers(o, v, p, l, s, src, k, now, fs);
  }

  lemma StepsKeys(o: Row, v: Row, p: Row, l: Row, s: Row, src: Row, k: int, now: int, fs: Conversions)
    requires Steps(o, v, p, l, s, src, k, now, fs)
    ensures o.cells.Keys == (src.cells.Keys + {Rank} + ColumnSet(Generated)) - ColumnSet(RawColumns)
  {
    assert ColumnSet(Generated) == {ExtractedAt, LengthMinutes, PublishedAt, ViewsMillions};
    assert v.cells.Keys == src.cells.Keys + {Rank} + ColumnSet(Generated);
  }

  /** Each conversion reads the text the source row holds. */
  lemma StepsSources(o: Row, v: Row, p: Row, l: Row, s: Row, src: Row, k: int, now: int, fs: Conversions)
    requires Steps(o, v, p, l, s, src, k, now, fs)
    ensures Lookup(s, LengthText) == Lookup(src, LengthText)
    ensures Lookup(l, PublishedText) == Lookup(src, PublishedText)
    ensures Lookup(p, ViewsText) == Lookup(src, ViewsText)
  {
  }

  lemma StepsTargets(o: Row, v: Row, p: Row, l: Row, s: Row, src: Row, k: int, now: int, fs: Conversions)
    requires LengthMinutes != PublishedAt && LengthMinutes != ViewsMillions && PublishedAt != ViewsMillions
    requires Steps(o, v, p, l, s, src, k, now, fs)
    ensures o.index == k
    ensures Lookup(o, Rank) == Some(Integer(src.index + 1))
    ensures Lookup(o, ExtractedAt) == Some(Time(now))
    ensures Lookup(o, LengthMinutes) == Some(fs.length(Lookup(s, LengthText)).value)
    ensures Lookup(o, PublishedAt) == Some(fs.published(Lookup(l, PublishedText)).value)
    ensures Lookup(o, ViewsMillions) == Some(fs.views(Lookup(p, ViewsText)).value)
  {
    RawColumnsNotRank();
    assert o.cells[Rank] == s.cells[Rank];
  }

  lemma StepsOthers(o: Row, v: Row, p: Row, l: Row, s: Row, src: Row, k: int, now: int, fs: Conversions)
    requires Steps(o, v, p, l, s, src, k, now, fs)
    ensures forall col :: col !in RawColumns && col != Rank && col !in Generated ==> Lookup(o, col) == Lookup(src, col)
  {
  }

  // ---------------------------------------------------------------------------
  // Columns, shape and errors
  // ---------------------------------------------------------------------------

  /** The tables a successful `transform_data` goes through, step by step. */
  lemma Stages(t: Table, now: int, fs: Conversions) returns (ranked: Table, stamped: Table, l: Table, p: Table, v: Table)
    requires TransformedBy(t, now, fs).Ok?
    ensures WithIndexColumn(Table(t.columns, Shift(Clean(t.rows), 1)), Rank) == Ok(ranked)
    ensures stamped == WithConstant(ranked, ExtractedAt, Time(now))
    ensures Stamped(t, now) == Ok(stamped)
    ensures WithDerived(stamped, LengthText, LengthMinutes, fs.length) == Ok(l)
    ensures WithDerived(l, PublishedText, PublishedAt, fs.published) == Ok(p)
    ensures WithDerived(p, ViewsText, ViewsMillions, fs.views) == Ok(v)
    ensures DerivedBy(t, now, fs) == Ok(v)
    ensures TransformedBy(t, now, fs) == WithoutColumns(v, RawColumns)
  {
    ranked := WithIndexColumn(Table(t.columns, Shift(Clean(t.rows), 1)), Rank).value;
    stamped := WithConstant(ranked, ExtractedAt, Time(now));
    l := WithDerived(stamped, LengthText, LengthMinutes, fs.length).value;
    p := WithDerived(l, PublishedText, PublishedAt, fs.published).value;
    v := WithDerived(p, ViewsText, ViewsMillions, fs.views).value;
  }

  /** The result has `rank` as its first column. */
  lemma TransformedRankFirst(t: Table, now: int, fs: Conversions)
    requires TransformedBy(t, now, fs).Ok?
    ensures |TransformedBy(t, now, fs).value.columns| > 0
    ensures TransformedBy(t, now, fs).value.columns[0] == Rank
  {
    var ranked, stamped, l, p, v := Stages(t, now, fs);
    var c := DerivedColumns(t, now, fs);
    assert [Rank] + c == v.columns;
    RawColumnsNotRank();
    WithoutHead(Rank, c, RawColumns);
  }

  /** The result has the input's columns, `rank` and the generated ones,
      without the three texts. */
  lemma TransformedColumns(t: Table, now: int, fs: Conversions)
    requires TransformedBy(t, now, fs).Ok?
    ensures forall col :: col in TransformedBy(t, now, fs).value.columns <==>
              (col in t.columns || col == Rank || col in Generated) && col !in RawColumns
  {
    var ranked, stamped, l, p, v := Stages(t, now, fs);
    DerivedOk(t, now, fs);
    WithoutMembers(v.columns, RawColumns);
  }

  lemma RawColumnsNotRank()
    ensures Rank !in RawColumns
  {
    Text.Differ(Rank, LengthText, 0);
    Text.Differ(Rank, PublishedText, 0);
    Text.Differ(Rank, ViewsText, 0);
  }

  /** The columns after the three `apply` steps: `rank` followed by the rest. */
  lemma DerivedColumns(t: Table, now: int, fs: Conversions) returns (rest: seq<string>)
    requires TransformedBy(t, now, fs).Ok?
    ensures DerivedBy(t, now, fs).Ok? && DerivedBy(t, now, fs).value.columns == [Rank] + rest
  {
    var ranked, stamped, l, p, v := Stages(t, now, fs);
    assert ranked.columns == [Rank] + t.columns;
    rest := Appended(ranked.columns, t.columns, ExtractedAt);
    WithDerivedColumns(stamped, LengthText, LengthMinutes, fs.length);
    rest := Appended(stamped.columns, rest, LengthMinutes);
    WithDerivedColumns(l, PublishedText, PublishedAt, fs.published);
    rest := Appended(l.columns, rest, PublishedAt);
    WithDerivedColumns(p, ViewsText, ViewsMillions, fs.views);
    rest := Appended(p.columns, rest, ViewsMillions);
  }

  /** Setting a column keeps the first column first. */
  lemma Appended(columns: seq<string>, rest: seq<string>, name: string) returns (rest': seq<string>)
    requires columns == [Rank] + rest
    ensures (if name in columns then columns else columns + [name]) == [Rank] + rest'
  {
    if name in columns {
      rest' := rest;
    } else {
      rest' := rest + [name];
    }
  }

  /** A well-formed input gives a well-formed result. */
  lemma TransformedWellFormed(t: Table, now: int, fs: Conversions)
    requires TransformedBy(t, now, fs).Ok?
    requires WellFormed(t)
    ensures WellFormed(TransformedBy(t, now, fs).value)
  {
    var ranked, stamped, l, p, v := Stages(t, now, fs);
    var c := Clean(t.rows);
    CleanWellFormed(t);
    ShiftWellFormed(Table(t.columns, c), 1);
    WithIndexColumnWellFormed(Table(t.columns, Shift(c, 1)), Rank);
    WithColumnWellFormed(ranked, ExtractedAt, seq(|ranked.rows|, _ => Time(now)));
    WithDerivedWellFormed(stamped, LengthText, LengthMinutes, fs.length);
    WithDerivedWellFormed(l, PublishedText, PublishedAt, fs.published);
    WithDerivedWellFormed(p, ViewsText, ViewsMillions, fs.views);
    WithoutColumnsWellFormed(v, RawColumns);
  }

  /** Which error `transform_data` raises when its table lacks a column or
      already has `rank`. */
  lemma TransformedErrors(t: Table, now: int, fs: Conversions)
    ensures Rank in t.columns ==> TransformedBy(t, now, fs) == Err(ColumnExists(Rank))
    ensures Rank !in t.columns && LengthText !in t.columns ==>
              TransformedBy(t, now, fs) == Err(MissingColumn(LengthText))
  {
    StampedShape(t, now);
  }

  // ---------------------------------------------------------------------------
  // Ranks
  // ---------------------------------------------------------------------------

  /** The index labels a freshly built `pd.DataFrame` has: 0, 1, 2, ... */
  predicate Numbered(rows: seq<Row>) {
    forall i :: 0 <= i < |rows| ==> rows[i].index == i
  }

  /** The number in a row's `rank` cell. */
  function RankOf(o: Row): int {
    match Lookup(o, Rank)
    case Some(Integer(n)) => n
    case _ => 0
  }

  /** On a freshly built table, output row `k` has as rank the position, from
      1, of the listing entry it came from, so ranks increase down the result
      and stay within the listing's length. */
  lemma TransformedRanks(t: Table, now: int, fs: Conversions)
    requires Numbered(t.rows)
    requires TransformedBy(t, now, fs).Ok?
    ensures forall k :: 0 <= k < |TransformedBy(t, now, fs).value.rows| ==>
              var rank := RankOf(TransformedBy(t, now, fs).value.rows[k]);
              1 <= rank <= |t.rows| && t.rows[rank - 1] == Clean(t.rows)[k]
    ensures forall j, k :: 0 <= j < k < |TransformedBy(t, now, fs).value.rows| ==>
              RankOf(TransformedBy(t, now, fs).value.rows[j]) < RankOf(TransformedBy(t, now, fs).value.rows[k])
  {
    var c := Clean(t.rows);
    var out := TransformedBy(t, now, fs).value;
    TransformedLength(t, now, fs);
    CleanRows(t.rows);
    forall k | 0 <= k < |out.rows|
      ensures RankOf(out.rows[k]) == c[k].index + 1
      ensures 0 <= c[k].index < |t.rows| && t.rows[c[k].index] == c[k]
    {
      RankAt(t, now, fs, k);
    }
  }

  /** Output row `k` carries the rank of the listing entry it came from. */
  lemma RankAt(t: Table, now: int, fs: Conversions, k: nat)
    requires Numbered(t.rows)
    requires TransformedBy(t, now, fs).Ok?
    requires k < |Clean(t.rows)|
    ensures k < |TransformedBy(t, now, fs).value.rows|
    ensures RankOf(TransformedBy(t, now, fs).value.rows[k]) == Clean(t.rows)[k].index + 1
    ensures 0 <= Clean(t.rows)[k].index < |t.rows| && t.rows[Clean(t.rows)[k].index] == Clean(t.rows)[k]
  {
    var c := Clean(t.rows);
    TransformedLength(t, now, fs);
    TransformedRow(t, now, fs, k);
    CleanRows(t.rows);
    assert c[k] in c;
    var i :| 0 <= i < |t.rows| && t.rows[i] == c[k];
  }

  /** On a freshly built table, rank `i + 1` appears in the result exactly when
      listing entry `i` has no missing value and repeats no earlier entry. So
      ranks have gaps: an entry dropped by cleaning takes its rank with it. */
  lemma TransformedRankSet(t: Table, now: int, fs: Conversions, i: nat)
    requires Numbered(t.rows)
    requires TransformedBy(t, now, fs).Ok?
    requires i < |t.rows|
    ensures (exists k :: 0 <= k < |TransformedBy(t, now, fs).value.rows| && RankOf(TransformedBy(t, now, fs).value.rows[k]) == i + 1)
            <==> Complete(t.rows[i]) && t.rows[i].cells !in Contents(t.rows[..i])
  {
    var c := Clean(t.rows);
    var out := TransformedBy(t, now, fs).value;
    TransformedRanks(t, now, fs);
    CleanKeeps(t.rows, i);
    if t.rows[i] in c {
      var k :| 0 <= k < |c| && c[k] == t.rows[i];
      assert RankOf(out.rows[k]) == i + 1;
    }
  }

  /** When the listing's first entry has a missing value, no row is ranked 1. */
  lemma FirstEntryDropped(t: Table, now: int, fs: Conversions)
    requires Numbered(t.rows)
    requires TransformedBy(t, now, fs).Ok?
    requires |t.rows| > 0 && !Complete(t.rows[0])
    ensures forall k :: 0 <= k < |TransformedBy(t, now, fs).value.rows| ==>
              RankOf(TransformedBy(t, now, fs).value.rows[k]) != 1
  {
    TransformedRankSet(t, now, fs, 0);
  }

  // ---------------------------------------------------------------------------
  // The job's own conversions
  // ---------------------------------------------------------------------------

  /** The text a row holds in `column`, or the empty string. */
  function TextIn(r: Row, column: string): string {
    match Lookup(r, column)
    case Some(Text(s)) => s
    case _ => ""
  }

  /** A row whose three texts the job's helpers all accept. */
  predicate Convertible(r: Row, now: int) {
    && Lookup(r, LengthText).Some? && Lookup(r, LengthText).value.Text?
    && Lookup(r, PublishedText).Some? && Lookup(r, PublishedText).value.Text?
    && Lookup(r, ViewsText).Some? && Lookup(r, ViewsText).value.Text?
    && DurationSeconds(TextIn(r, LengthText)).Ok?
    && PublishedTime(TextIn(r, PublishedText), now).Ok?
    && ViewsCount(TextIn(r, ViewsText)).Ok?
  }

  lemma JobConversionsMeaning(r: Row, now: int)
    ensures && (JobConversions(now).length(Lookup(r, LengthText)).Ok?
                && JobConversions(now).published(Lookup(r, PublishedText)).Ok?
                && JobConversions(now).views(Lookup(r, ViewsText)).Ok?
                <==> Convertible(r, now))
    ensures Convertible(r, now) ==>
              && JobConversions(now).length(Lookup(r, LengthText)).value == Integer(DurationSeconds(TextIn(r, LengthText)).value)
              && JobConversions(now).published(Lookup(r, PublishedText)).value == Time(PublishedTime(TextIn(r, PublishedText), now).value)
              && JobConversions(now).views(Lookup(r, ViewsText)).value == Integer(ViewsCount(TextIn(r, ViewsText)).value)
  {
    ConverterMeaning(Length, Lookup(r, LengthText));
    ConverterMeaning(Published(now), Lookup(r, PublishedText));
    ConverterMeaning(Views, Lookup(r, ViewsText));
  }

  /** `transform_data` succeeds exactly when the table has no `rank` column,
      has the three text columns, and every kept row holds three texts its
      helpers accept. */
  lemma TransformedSucceeds(t: Table, now: int)
    ensures Transformed(t, now).Ok? <==>
              && Rank !in t.columns
              && (forall col :: col in RawColumns ==> col in t.columns)
              && forall r :: r in Clean(t.rows) ==> Convertible(r, now)
  {
    var fs := JobConversions(now);
    var c := Clean(t.rows);
    TransformedOk(t, now, fs);
    forall k | 0 <= k < |c|
      ensures (fs.length(Lookup(c[k], LengthText)).Ok? && fs.published(Lookup(c[k], PublishedText)).Ok?
               && fs.views(Lookup(c[k], ViewsText)).Ok?) <==> Convertible(c[k], now)
    {
      JobConversionsMeaning(c[k], now);
    }
  }

  /** Output row `k`: its `length_minutes`, `published_time` and
      `views_millions` hold the exact results of the three helpers on the kept
      row's texts. `extracted_at` is `now`; that the publication time is not
      later holds because this model reads the clock once. */
  lemma TransformedValues(t: Table, now: int, k: nat)
    requires Transformed(t, now).Ok?
    requires k < |Clean(t.rows)|
    ensures k < |Transformed(t, now).value.rows|
    ensures Convertible(Clean(t.rows)[k], now)
    ensures Lookup(Transformed(t, now).value.rows[k], LengthMinutes) ==
              Some(Integer(DurationSeconds(TextIn(Clean(t.rows)[k], LengthText)).value))
    ensures Lookup(Transformed(t, now).value.rows[k], PublishedAt) ==
              Some(Time(PublishedTime(TextIn(Clean(t.rows)[k], PublishedText), now).value))
    ensures Lookup(Transformed(t, now).value.rows[k], ViewsMillions) ==
              Some(Integer(ViewsCount(TextIn(Clean(t.rows)[k], ViewsText)).value))
    ensures Lookup(Transformed(t, now).value.rows[k], ExtractedAt) == Some(Time(now))
    ensures Lookup(Transformed(t, now).value.rows[k], PublishedAt).value.micros <= now
  {
    var fs := JobConversions(now);
    TransformedRows(t, now, fs);
    assert Transcribed(Transformed(t, now).value.rows[k], Clean(t.rows)[k], k, now, fs);
    JobConversionsMeaning(Clean(t.rows)[k], now);
  }
}
