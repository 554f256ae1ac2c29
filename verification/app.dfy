/**
 * `app/app.py`: the first dashboard, which reads the generation table from one fixed path,
 * falls back to a day of made-up hourly data for Punta Lomitas when the file is missing,
 * and draws a fallback series when the table cannot be filtered by farm.
 */
module App {
  import opened Wrappers
  import opened Frames
  import opened Dashboard
  import Seqs
  import PreProcessing

  /** 2024-01-01 00:00, in minutes since 1970-01-01. */
  const FallbackStart: int := 28401120
  const FallbackFarm := "W.F. Punta Lomitas"

  /** `pd.date_range(start='2024-01-01', periods=24, freq='H')`, entry `i`. */
  function Hour(i: nat): Cell
  {
    Time(FallbackStart + 60 * i)
  }

  /** The table used when the generation file is not found: 24 hours of Punta Lomitas, power 0..23. */
  function FallbackDataset(): (f: Frame)
    ensures f.Valid() && f.columns == ["date", "name", "power"] && |f.rows| == 24
  {
    Frame(["date", "name", "power"],
          seq(24, i requires 0 <= i < 24 => [Hour(i), Str(FallbackFarm), Num(i as real)]))
  }

  /** The series `updateGenPlot` draws when the table is empty or has no `name` column. */
  function FallbackSeries(): (f: Frame)
    ensures f.Valid() && f.columns == ["date", "power"] && |f.rows| == 24
  {
    Frame(["date", "power"], seq(24, i requires 0 <= i < 24 => [Hour(i), Num(i as real)]))
  }

  /**
   * The fallback day is hourly and lies within 2024-01-01; the fallback series is the
   * fallback table without its `name` column.
   */
  lemma FallbackSpec()
    ensures forall i :: 0 <= i < 24 ==>
              && FallbackDataset().rows[i][0].Time?
              && PreProcessing.DayOf(FallbackDataset().rows[i][0].t) == FallbackStart
              && FallbackDataset().rows[i][1] == Str(FallbackFarm)
              && FallbackDataset().rows[i][2] == Num(i as real)
              && FallbackSeries().rows[i] == [FallbackDataset().rows[i][0], FallbackDataset().rows[i][2]]
    ensures forall i :: 0 <= i < 23 ==> FallbackDataset().rows[i + 1][0].t == FallbackDataset().rows[i][0].t + 60
  {
    forall i | 0 <= i < 24
      ensures PreProcessing.DayOf(FallbackStart + 60 * i) == FallbackStart
    {
      assert (FallbackStart + 60 * i) % PreProcessing.MinutesPerDay == 60 * i;
    }
  }

  /**
   * Loading at start-up: `read` is the table at `dataset/currentGen.parquet`, None when the
   * file is not found.
   */
  function Generation(read: Option<Frame>): (f: Frame)
    requires read.Some? ==> read.value.Valid()
    ensures f.Valid()
    ensures read.None? ==> f == FallbackDataset()
    ensures read.Some? ==> f == read.value
  {
    if read.Some? then read.value else FallbackDataset()
  }

  /**
   * `updateGenPlot`'s subset: the chosen farm's rows (possibly none) when the table is
   * non-empty and has a `name` column, otherwise the fallback series.
   */
  function UpdateGenPlot(dataset: Frame, key: string): (s: Frame)
    requires dataset.Valid()
  {
    if !dataset.IsEmpty() && "name" in dataset.columns then SelectRows(dataset, NameIs(dataset.columns, FarmName(key)))
    else FallbackSeries()
  }

  lemma UpdateGenPlotSpec(dataset: Frame, key: string)
    requires dataset.Valid()
    ensures var s := UpdateGenPlot(dataset, key);
            && (dataset.IsEmpty() || "name" !in dataset.columns ==> s == FallbackSeries())
            && (!dataset.IsEmpty() && "name" in dataset.columns ==>
                  && s.columns == dataset.columns
                  && forall row :: row in s.rows <==> row in dataset.rows && CellAt(dataset.columns, row, "name") == Str(FarmName(key)))
  {
  }

  /** Every row of the fallback table names Punta Lomitas. */
  lemma FallbackNames()
    ensures "name" in FallbackDataset().columns && !FallbackDataset().IsEmpty()
    ensures forall i :: 0 <= i < |FallbackDataset().rows| ==>
              CellAt(FallbackDataset().columns, FallbackDataset().rows[i], "name") == Str(FallbackFarm)
  {
    var f := FallbackDataset();
    assert IndexOf(f.columns, "name") == Some(1) by {
      assert f.columns[0] != "name" && f.columns[1] == "name";
      assert f.columns[1..] == ["name", "power"];
    }
  }

  /**
   * On a table whose rows all belong to one farm, the plot shows the whole table for that
   * farm and no row for any other.
   */
  lemma OneFarmPlot(f: Frame, farm: string, key: string)
    requires f.Valid() && !f.IsEmpty() && "name" in f.columns
    requires forall i :: 0 <= i < |f.rows| ==> CellAt(f.columns, f.rows[i], "name") == Str(farm)
    ensures FarmName(key) == farm ==> UpdateGenPlot(f, key) == f
    ensures FarmName(key) != farm ==> UpdateGenPlot(f, key) == Frame(f.columns, [])
  {
    var p := NameIs(f.columns, FarmName(key));
    if FarmName(key) == farm {
      Seqs.FilterAll(f.rows, p);
    } else {
      Seqs.FilterNone(f.rows, p);
    }
  }

  /**
   * Without the file, Punta Lomitas ("1") shows the whole fallback day and every other farm
   * an empty plot: the fallback series is not drawn, since the fallback table has names.
   */
  lemma FallbackPlot(key: string)
    ensures FarmName(key) == FallbackFarm ==> UpdateGenPlot(Generation(None), key) == FallbackDataset()
    ensures FarmName(key) != FallbackFarm ==> UpdateGenPlot(Generation(None), key) == Frame(["date", "name", "power"], [])
  {
    var f := FallbackDataset();
    assert Generation(None) == f;
    FallbackNames();
    OneFarmPlot(f, FallbackFarm, key);
  }
}
