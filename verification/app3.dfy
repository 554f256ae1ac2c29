/**
 * `app/app3.py`: the dashboard that loads both parquet tables at start-up, keeps only the
 * latest initialisation of each forecast model, and coerces unreadable dates to missing.
 */
module App3 {
  import opened Wrappers
  import opened Frames
  import opened Dashboard
  import Seqs

  const GenerationNotFound := "currentGen.parquet not found in candidates."

  /** The generation table of app3: dates that do not parse become missing. */
  function Generation(env: Option<string>, exists_: string -> bool, read: string -> Frame): (r: Result<Frame, LoadError>)
    requires forall p :: read(p).Valid()
    ensures r.Err? ==> r.error == FileNotFound(GenerationNotFound) || r.error.MissingColumns?
    ensures r.Ok? ==> GenerationColumns <= ColumnSet(r.value.columns)
  {
    LoadGenerationSpec(env, exists_, read, GenerationNotFound, true);
    LoadGeneration(env, exists_, read, GenerationNotFound, true)
  }

  // ---- Latest initialisation per model ----

  /** The `model` cell of a row. */
  function ModelOf(cols: seq<string>, row: Row): Cell
    requires |row| == |cols|
  {
    CellAt(cols, row, "model")
  }

  /** The `initDate` of a row when it is a timestamp (NaT and anything else give None). */
  function InitOf(cols: seq<string>, row: Row): Option<int>
    requires |row| == |cols|
  {
    var c := CellAt(cols, row, "initDate");
    if c.Time? then Some(c.t) else None
  }

  /**
   * `groupby("model")["initDate"].transform("max")` for the group of model `m`: the latest
   * initialisation among the group's rows, or None (NaT) when none of them has one.
   */
  function LatestInit(cols: seq<string>, rows: seq<Row>, m: Cell): (r: Option<int>)
    requires forall i :: 0 <= i < |rows| ==> |rows[i]| == |cols|
    ensures r.None? <==> forall i :: 0 <= i < |rows| && ModelOf(cols, rows[i]) == m ==> InitOf(cols, rows[i]).None?
    ensures r.Some? ==> exists i :: 0 <= i < |rows| && ModelOf(cols, rows[i]) == m && InitOf(cols, rows[i]) == r
    ensures r.Some? ==> forall i :: 0 <= i < |rows| && ModelOf(cols, rows[i]) == m && InitOf(cols, rows[i]).Some? ==>
                          InitOf(cols, rows[i]).value <= r.value
  {
    if rows == [] then None
    else
      var rest := LatestInit(cols, rows[1..], m);
      assert forall i :: 1 <= i < |rows| ==> rows[i] == rows[1..][i - 1];
      var here := if ModelOf(cols, rows[0]) == m then InitOf(cols, rows[0]) else None;
      if rest.Some? then
        var j :| 0 <= j < |rows[1..]| && ModelOf(cols, rows[1..][j]) == m && InitOf(cols, rows[1..][j]) == rest;
        assert ModelOf(cols, rows[j + 1]) == m && InitOf(cols, rows[j + 1]) == rest;
        if here.Some? && here.value > rest.value then here else rest
      else here
  }

  /**
   * `initDate.eq(latest_per_model)`: the row's model is present (a missing key is dropped by
   * the group-by) and its initialisation is a timestamp equal to its group's latest one.
   */
  function IsLatest(g: Frame): Row -> bool
  {
    (row: Row) => g.Valid() && |row| == |g.columns| && ModelOf(g.columns, row) != Missing &&
                  InitOf(g.columns, row).Some? && InitOf(g.columns, row) == LatestInit(g.columns, g.rows, ModelOf(g.columns, row))
  }

  /**
   * The latest-initialisation filter, applied when the wind table has an `initDate` column:
   * the column is coerced to timestamps, then only each model's latest rows are kept. A table
   * without a `model` column fails the group-by.
   */
  function LatestPerModel(f: Frame): (r: Result<Frame, LoadError>)
    requires f.Valid() && "initDate" in f.columns
  {
    if "model" !in f.columns then Err(MissingKey("model"))
    else
      var g := Coerced(f, IndexOf(f.columns, "initDate").value);
      Ok(SelectRows(g, IsLatest(g)))
  }

  /** Coercing `initDate` changes neither a row's model nor its timestamp, and keeps a timestamped row whole. */
  lemma CoercedRow(f: Frame, i: nat)
    requires f.Valid() && "initDate" in f.columns && "model" in f.columns && i < |f.rows|
    ensures var g := Coerced(f, IndexOf(f.columns, "initDate").value);
            && ModelOf(g.columns, g.rows[i]) == ModelOf(f.columns, f.rows[i])
            && InitOf(g.columns, g.rows[i]) == InitOf(f.columns, f.rows[i])
            && (InitOf(f.columns, f.rows[i]).Some? ==> g.rows[i] == f.rows[i])
  {
    var k := IndexOf(f.columns, "initDate").value;
    var m := IndexOf(f.columns, "model").value;
    var g := Coerced(f, k);
    assert m != k;
    if f.rows[i][k].Time? {
      assert forall j :: 0 <= j < |f.columns| ==> g.rows[i][j] == f.rows[i][j];
    }
  }

  /** A row of the table that no row of the same model beats: the reference reading of "latest". */
  ghost predicate Unbeaten(f: Frame, row: Row)
    requires f.Valid()
  {
    && row in f.rows
    && ModelOf(f.columns, row) != Missing
    && InitOf(f.columns, row).Some?
    && forall other :: other in f.rows && ModelOf(f.columns, other) == ModelOf(f.columns, row) &&
                       InitOf(f.columns, other).Some? ==>
                         InitOf(f.columns, other).value <= InitOf(f.columns, row).value
  }

  /**
   * The filter fails exactly when the table has no `model` column; otherwise it keeps the
   * columns, and a row survives exactly when it is a row of the table whose model is present,
   * whose `initDate` is a timestamp, and which no row of the same model beats.
   */
  lemma LatestPerModelSpec(f: Frame)
    requires f.Valid() && "initDate" in f.columns
    ensures var r := LatestPerModel(f);
            && (r.Err? <==> "model" !in f.columns)
            && (r.Err? ==> r.error == MissingKey("model"))
            && (r.Ok? ==> r.value.Valid() && r.value.columns == f.columns)
            && (r.Ok? ==> forall row :: row in r.value.rows <==> Unbeaten(f, row))
  {
    if "model" in f.columns {
      var g := Coerced(f, IndexOf(f.columns, "initDate").value);
      forall row
        ensures row in SelectRows(g, IsLatest(g)).rows <==> Unbeaten(f, row)
      {
        if row in SelectRows(g, IsLatest(g)).rows {
          LatestKept(f, row);
        }
        if Unbeaten(f, row) {
          UnbeatenKept(f, row);
        }
      }
    }
  }

  /** A row the filter keeps is unbeaten. */
  lemma LatestKept(f: Frame, row: Row)
    requires f.Valid() && "initDate" in f.columns && "model" in f.columns
    requires row in LatestPerModel(f).value.rows
    ensures Unbeaten(f, row)
  {
    var cols := f.columns;
    var g := Coerced(f, IndexOf(cols, "initDate").value);
    assert row in g.rows && IsLatest(g)(row);
    var i :| 0 <= i < |g.rows| && g.rows[i] == row;
    CoercedRow(f, i);
    var m := ModelOf(cols, row);
    assert f.rows[i] == row;
    forall other | other in f.rows && ModelOf(cols, other) == m && InitOf(cols, other).Some?
      ensures InitOf(cols, other).value <= InitOf(cols, row).value
    {
      var j :| 0 <= j < |f.rows| && f.rows[j] == other;
      CoercedRow(f, j);
      assert ModelOf(cols, g.rows[j]) == m && InitOf(cols, g.rows[j]).Some?;
    }
  }

  /** An unbeaten row is kept by the filter. */
  lemma UnbeatenKept(f: Frame, row: Row)
    requires f.Valid() && "initDate" in f.columns && "model" in f.columns
    requires Unbeaten(f, row)
    ensures row in LatestPerModel(f).value.rows
  {
    var cols := f.columns;
    var g := Coerced(f, IndexOf(cols, "initDate").value);
    var i :| 0 <= i < |f.rows| && f.rows[i] == row;
    CoercedRow(f, i);
    assert g.rows[i] == row;
    var m := ModelOf(cols, row);
    var latest := LatestInit(cols, g.rows, m);
    assert ModelOf(cols, g.rows[i]) == m && InitOf(cols, g.rows[i]).Some?;
    assert latest.Some?;
    assert latest.value >= InitOf(cols, row).value;
    var j :| 0 <= j < |g.rows| && ModelOf(cols, g.rows[j]) == m && InitOf(cols, g.rows[j]) == latest;
    CoercedRow(f, j);
    var other := f.rows[j];
    assert ModelOf(cols, other) == m && InitOf(cols, other) == latest;
    assert InitOf(cols, other).value <= InitOf(cols, row).value;
    assert latest.value == InitOf(cols, row).value;
    assert InitOf(cols, row) == latest;
    assert IsLatest(g)(g.rows[i]);
    assert g.rows[i] in Seqs.Filter(g.rows, IsLatest(g));
  }

  // ---- Loading the wind table ----

  /**
   * The wind table of app3 at start-up. `file` is the table read from the first existing
   * wind candidate, None when there is none. With a file: the latest-initialisation filter
   * when it has `initDate`, then the four wind columns padded in; without one: the empty wind
   * table. Either way the `date` column is then coerced. Row `i` of the result is the `i`-th
   * row the filter keeps (every row when there is no `initDate`), laid out as a loaded row.
   */
  method LoadWind(file: Option<Frame>) returns (r: Result<Frame, LoadError>)
    requires file.Some? ==> file.value.Valid()
    ensures file.None? ==> r == Ok(EmptyWind())
    ensures r.Err? <==> file.Some? && "initDate" in file.value.columns && "model" !in file.value.columns
    ensures r.Err? ==> r.error == MissingKey("model")
    ensures r.Ok? ==> r.value.Valid() && forall c :: c in WindColumns ==> c in r.value.columns
    ensures r.Ok? && file.Some? ==> forall c :: c in r.value.columns <==> c in file.value.columns || c in WindColumns
    ensures r.Ok? && file.Some? ==>
              var f := file.value;
              LoadedRows(f.columns, if "initDate" in f.columns then LatestPerModel(f).value.rows else f.rows, r.value)
    ensures r.Ok? ==> forall i :: 0 <= i < |r.value.rows| ==>
                        var d := CellAt(r.value.columns, r.value.rows[i], "date"); d.Time? || d.Missing?
  {
    var w: Frame;
    if file.None? {
      w := EmptyWind();
      assert "date" in w.columns;
      r := Ok(Coerced(w, IndexOf(w.columns, "date").value));
      return;
    }
    var f := file.value;
    w := f;
    if "initDate" in f.columns {
      var latest := LatestPerModel(f);
      assert (latest.Err? <==> "model" !in f.columns) && (latest.Err? ==> latest.error == MissingKey("model"))
             && (latest.Ok? ==> latest.value.Valid() && latest.value.columns == f.columns) by {
        LatestPerModelSpec(f);
      }
      if latest.Err? {
        return Err(latest.error);
      }
      w := latest.value;
    }
    var g := PadAndCoerce(w);
    assert w.columns == f.columns && w.rows == if "initDate" in f.columns then LatestPerModel(f).value.rows else f.rows;
    r := Ok(g);
  }

  /**
   * The tail of the wind load for a file: the wind columns it lacks are added as missing
   * cells, then its `date` column is coerced. Every row is the loaded form of its source row.
   */
  method PadAndCoerce(w: Frame) returns (g: Frame)
    requires w.Valid()
    ensures g.Valid() && forall c :: c in g.columns <==> c in w.columns || c in WindColumns
    ensures LoadedRows(w.columns, w.rows, g)
    ensures forall i :: 0 <= i < |g.rows| ==> var d := CellAt(g.columns, g.rows[i], "date"); d.Time? || d.Missing?
  {
    var p := PadColumns(w, WindColumns);
    assert "date" in p.columns;
    g := Coerced(p, IndexOf(p.columns, "date").value);
    PaddedCoercedRows(w, p);
  }
}
