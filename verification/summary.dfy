/**
 * `addMinMaxMean` of `Scripts/myDashBoard.py`: the spread of the scraped models. The last four
 * columns of a table are the model speeds; rows where all four are missing are dropped and
 * every other row gets the minimum, the maximum and the mean of its present speeds.
 */
module ModelSpread {
  import opened Wrappers
  import opened Frames
  import Seqs

  /** The positions of the last four of `n` columns, or of all of them when there are fewer. */
  function StatPositions(n: nat): (idx: seq<nat>)
    ensures |idx| == if n < 4 then n else 4
    ensures forall k :: 0 <= k < |idx| ==> idx[k] == n - |idx| + k
  {
    var m := if n < 4 then n else 4;
    seq(m, k requires 0 <= k < m => n - m + k)
  }

  /** The present (numeric) cells of `row` at positions `idx`, in column order. */
  function Values(row: Row, idx: seq<nat>): (xs: seq<real>)
    requires forall k :: 0 <= k < |idx| ==> idx[k] < |row|
    ensures |xs| <= |idx|
    ensures forall x :: x in xs <==> exists k :: 0 <= k < |idx| && row[idx[k]] == Num(x)
  {
    if idx == [] then []
    else
      var rest := Values(row, idx[1..]);
      assert forall k :: 1 <= k < |idx| ==> idx[k] == idx[1..][k - 1];
      (if row[idx[0]].Num? then [row[idx[0]].r] else []) + rest
  }

  function MinOf(xs: seq<real>): (m: real)
    requires xs != []
    ensures m in xs && forall x :: x in xs ==> m <= x
  {
    if |xs| == 1 then xs[0]
    else
      var rest := MinOf(xs[1..]);
      assert forall x :: x in xs ==> x == xs[0] || x in xs[1..];
      if xs[0] <= rest then xs[0] else rest
  }

  function MaxOf(xs: seq<real>): (m: real)
    requires xs != []
    ensures m in xs && forall x :: x in xs ==> x <= m
  {
    if |xs| == 1 then xs[0]
    else
      var rest := MaxOf(xs[1..]);
      assert forall x :: x in xs ==> x == xs[0] || x in xs[1..];
      if rest <= xs[0] then xs[0] else rest
  }

  function Mean(xs: seq<real>): real
    requires xs != []
  {
    Seqs.Sum(xs) / |xs| as real
  }

  /** A sum of values between `lo` and `hi` lies between `|xs| * lo` and `|xs| * hi`. */
  lemma {:induction false} SumBetween(xs: seq<real>, lo: real, hi: real)
    requires forall x :: x in xs ==> lo <= x <= hi
    ensures (|xs| as real) * lo <= Seqs.Sum(xs) <= (|xs| as real) * hi
  {
    if xs != [] {
      var n := |xs[1..]| as real;
      assert xs[0] in xs;
      assert forall x :: x in xs[1..] ==> x in xs;
      SumBetween(xs[1..], lo, hi);
      Distribute(|xs| as real, n, lo);
      Distribute(|xs| as real, n, hi);
    }
  }

  lemma Distribute(m: real, n: real, x: real)
    requires m == n + 1.0
    ensures m * x == n * x + x
  {
  }

  lemma DivideBounds(lo: real, s: real, hi: real, n: real)
    requires n > 0.0 && n * lo <= s <= n * hi
    ensures lo <= s / n <= hi
  {
  }

  /** The mean lies between the minimum and the maximum. */
  lemma MeanBetween(xs: seq<real>)
    requires xs != []
    ensures MinOf(xs) <= Mean(xs) <= MaxOf(xs)
  {
    SumBetween(xs, MinOf(xs), MaxOf(xs));
    DivideBounds(MinOf(xs), Seqs.Sum(xs), MaxOf(xs), |xs| as real);
  }

  /**
   * `agg(['min', 'max', 'mean'], axis=1)` on one row: each skips missing cells, and all three
   * are missing when no cell is present.
   */
  function RowStats(row: Row, idx: seq<nat>): (Cell, Cell, Cell)
    requires forall k :: 0 <= k < |idx| ==> idx[k] < |row|
  {
    var xs := Values(row, idx);
    if xs == [] then (Missing, Missing, Missing)
    else (Num(MinOf(xs)), Num(MaxOf(xs)), Num(Mean(xs)))
  }

  /** `dropna(subset=..., how='all')` keeps a row with at least one non-missing cell. */
  function HasValue(idx: seq<nat>): Row -> bool
  {
    (row: Row) => exists k :: 0 <= k < |idx| && idx[k] < |row| && row[idx[k]] != Missing
  }

  /** The aggregation needs numbers: text or timestamps among the speeds make it raise. */
  predicate Aggregatable(row: Row, idx: seq<nat>)
  {
    forall k :: 0 <= k < |idx| && idx[k] < |row| ==> row[idx[k]].Missing? || row[idx[k]].Num?
  }

  /**
   * `df[[c]] = values`: overwrite column `c` if the frame has it, otherwise add it at the end.
   * Every other column keeps its cells.
   */
  function SetColumn(f: Frame, c: string, vals: seq<Cell>): (g: Frame)
    requires f.Valid() && |vals| == |f.rows|
    ensures g.Valid() && |g.rows| == |f.rows|
    ensures g.columns == if c in f.columns then f.columns else f.columns + [c]
    ensures forall i :: 0 <= i < |g.rows| ==> CellAt(g.columns, g.rows[i], c) == vals[i]
    ensures forall i, d :: 0 <= i < |g.rows| && d != c ==> CellAt(g.columns, g.rows[i], d) == CellAt(f.columns, f.rows[i], d)
  {
    if c in f.columns then OverwriteColumn(f, c, vals) else AppendColumn(f, c, vals)
  }

  /** `SetColumn` on a column the frame has: its cells are replaced in place. */
  function OverwriteColumn(f: Frame, c: string, vals: seq<Cell>): (g: Frame)
    requires f.Valid() && |vals| == |f.rows| && c in f.columns
    ensures g.Valid() && |g.rows| == |f.rows| && g.columns == f.columns
    ensures forall i :: 0 <= i < |g.rows| ==> CellAt(g.columns, g.rows[i], c) == vals[i]
    ensures forall i, d :: 0 <= i < |g.rows| && d != c ==> CellAt(g.columns, g.rows[i], d) == CellAt(f.columns, f.rows[i], d)
  {
    var k := IndexOf(f.columns, c).value;
    var g := Frame(f.columns, seq(|f.rows|, i requires 0 <= i < |f.rows| => f.rows[i][k := vals[i]]));
    assert forall i, d :: 0 <= i < |g.rows| && d != c ==> CellAt(g.columns, g.rows[i], d) == CellAt(f.columns, f.rows[i], d) by {
      forall i, d | 0 <= i < |g.rows| && d != c
        ensures CellAt(g.columns, g.rows[i], d) == CellAt(f.columns, f.rows[i], d)
      {
        if IndexOf(f.columns, d).Some? {
          assert IndexOf(f.columns, d).value != k;
        }
      }
    }
    g
  }

  /** `SetColumn` on a new column: it is added at the right. */
  function AppendColumn(f: Frame, c: string, vals: seq<Cell>): (g: Frame)
    requires f.Valid() && |vals| == |f.rows| && c !in f.columns
    ensures g.Valid() && |g.rows| == |f.rows| && g.columns == f.columns + [c]
    ensures forall i :: 0 <= i < |g.rows| ==> CellAt(g.columns, g.rows[i], c) == vals[i]
    ensures forall i, d :: 0 <= i < |g.rows| && d != c ==> CellAt(g.columns, g.rows[i], d) == CellAt(f.columns, f.rows[i], d)
  {
    var cols := f.columns + [c];
    var g := Frame(cols, seq(|f.rows|, i requires 0 <= i < |f.rows| => f.rows[i] + [vals[i]]));
    assert Seqs.NoDuplicates(cols) by {
      forall i, j | 0 <= i < j < |cols| ensures cols[i] != cols[j] {
        if j < |f.columns| {
          assert cols[i] == f.columns[i] && cols[j] == f.columns[j];
        } else {
          assert cols[i] in f.columns;
        }
      }
    }
    IndexOfDistinct(cols, |f.columns|);
    assert forall i, d :: 0 <= i < |g.rows| && d != c ==> CellAt(g.columns, g.rows[i], d) == CellAt(f.columns, f.rows[i], d) by {
      forall i, d | 0 <= i < |g.rows| && d != c
        ensures CellAt(g.columns, g.rows[i], d) == CellAt(f.columns, f.rows[i], d)
      {
        if IndexOf(f.columns, d).None? {
          assert d !in cols;
        } else {
          var j := IndexOf(f.columns, d).value;
          assert cols[j] == d;
          IndexOfDistinct(cols, j);
        }
      }
    }
    g
  }

  /** The statistics of every row, in row order. */
  function StatsOf(rows: seq<Row>, idx: seq<nat>): (stats: seq<(Cell, Cell, Cell)>)
    requires forall i, k :: 0 <= i < |rows| && 0 <= k < |idx| ==> idx[k] < |rows[i]|
    ensures |stats| == |rows|
  {
    seq(|rows|, i requires 0 <= i < |rows| => RowStats(rows[i], idx))
  }

  /**
   * `df[['min', 'max', name]] = stats`: the three columns are set in that order, so a `name`
   * of "min" or "max" ends up holding the mean.
   */
  function WithStats(f: Frame, stats: seq<(Cell, Cell, Cell)>, name: string): (g: Frame)
    requires f.Valid() && |stats| == |f.rows|
    ensures g.Valid() && |g.rows| == |f.rows|
    ensures forall c :: c in f.columns ==> c in g.columns
    ensures forall i, c :: 0 <= i < |g.rows| && c != "min" && c != "max" && c != name ==>
              CellAt(g.columns, g.rows[i], c) == CellAt(f.columns, f.rows[i], c)
    ensures name != "min" && name != "max" ==>
              forall i :: 0 <= i < |g.rows| ==>
                && CellAt(g.columns, g.rows[i], "min") == stats[i].0
                && CellAt(g.columns, g.rows[i], "max") == stats[i].1
                && CellAt(g.columns, g.rows[i], name) == stats[i].2
  {
    var mins := seq(|stats|, i requires 0 <= i < |stats| => stats[i].0);
    var maxs := seq(|stats|, i requires 0 <= i < |stats| => stats[i].1);
    var means := seq(|stats|, i requires 0 <= i < |stats| => stats[i].2);
    var withMin := SetColumn(f, "min", mins);
    var withMax := SetColumn(withMin, "max", maxs);
    var g := SetColumn(withMax, name, means);
    assert forall c :: c in f.columns ==> c in withMin.columns && c in withMax.columns;
    g
  }

  /** The rows `dropna(subset=<last four columns>, how='all')` keeps. */
  function Kept(f: Frame): (g: Frame)
    requires f.Valid()
    ensures g.Valid() && g.columns == f.columns
  {
    SelectRows(f, HasValue(StatPositions(|f.columns|)))
  }

  /**
   * Lines 40-45: drop the rows whose last four cells are all missing, then add the three
   * statistics. `name` is the mean column's name; the script passes one on both calls
   * (lines 47-48). Working on a copy leaves the caller's table as it was.
   */
  function AddMinMaxMean(f: Frame, name: string): (r: Result<Frame, string>)
    requires f.Valid()
    ensures r.Ok? ==> r.value.Valid() && |r.value.rows| == |Kept(f).rows|
  {
    var idx := StatPositions(|f.columns|);
    var kept := Kept(f);
    if exists i :: 0 <= i < |kept.rows| && !Aggregatable(kept.rows[i], idx) then
      Err("unsupported operand type for min, max or mean")
    else
      Ok(WithStats(kept, StatsOf(kept.rows, idx), name))
  }

  /** A row of the input with a value that cannot be aggregated is kept. */
  lemma UnaggregatableKept(f: Frame, row: Row)
    requires f.Valid() && row in f.rows
    requires HasValue(StatPositions(|f.columns|))(row)
    ensures row in Kept(f).rows
  {
  }

  /** A kept row that cannot be aggregated is a row of the input with a value that cannot be. */
  lemma KeptUnaggregatable(f: Frame)
    requires f.Valid()
    ensures var idx, kept := StatPositions(|f.columns|), Kept(f);
            (exists i :: 0 <= i < |kept.rows| && !Aggregatable(kept.rows[i], idx)) <==>
            (exists row :: row in f.rows && HasValue(idx)(row) && !Aggregatable(row, idx))
  {
    var idx := StatPositions(|f.columns|);
    if exists row :: row in f.rows && HasValue(idx)(row) && !Aggregatable(row, idx) {
      var row :| row in f.rows && HasValue(idx)(row) && !Aggregatable(row, idx);
      UnaggregatableKeptAt(f, row);
    }
    if exists i :: 0 <= i < |Kept(f).rows| && !Aggregatable(Kept(f).rows[i], idx) {
      var i :| 0 <= i < |Kept(f).rows| && !Aggregatable(Kept(f).rows[i], idx);
      KeptRowFrom(f, i);
    }
  }

  /** An input row with a value that cannot be aggregated sits at some position of the kept rows. */
  lemma UnaggregatableKeptAt(f: Frame, row: Row)
    requires f.Valid() && row in f.rows
    requires HasValue(StatPositions(|f.columns|))(row) && !Aggregatable(row, StatPositions(|f.columns|))
    ensures exists i :: 0 <= i < |Kept(f).rows| && !Aggregatable(Kept(f).rows[i], StatPositions(|f.columns|))
  {
    UnaggregatableKept(f, row);
    var i :| 0 <= i < |Kept(f).rows| && Kept(f).rows[i] == row;
  }

  /** A kept row is a row of the input with a value among its last four cells. */
  lemma KeptRowFrom(f: Frame, i: nat)
    requires f.Valid() && i < |Kept(f).rows|
    ensures Kept(f).rows[i] in f.rows && HasValue(StatPositions(|f.columns|))(Kept(f).rows[i])
  {
    assert Kept(f).rows[i] in Kept(f).rows;
  }

  /** The spread fails exactly when a kept row holds text or a timestamp among its last four cells. */
  lemma AddMinMaxMeanFails(f: Frame, name: string)
    requires f.Valid()
    ensures var idx := StatPositions(|f.columns|);
            AddMinMaxMean(f, name).Err? <==>
              exists row :: row in f.rows && HasValue(idx)(row) && !Aggregatable(row, idx)
  {
    KeptUnaggregatable(f);
  }

  /**
   * On success the result has exactly the rows with a present speed, in order, and every
   * column other than `min`, `max` and the mean keeps those rows' cells.
   */
  lemma AddMinMaxMeanRows(f: Frame, name: string)
    requires f.Valid()
    ensures var idx, r := StatPositions(|f.columns|), AddMinMaxMean(f, name);
            r.Ok? ==>
              var kept := Seqs.Filter(f.rows, HasValue(idx));
              && r.value.Valid()
              && |r.value.rows| == |kept|
              && (forall c :: c in f.columns ==> c in r.value.columns)
              && (forall i, c :: 0 <= i < |kept| && c != "min" && c != "max" && c != name ==>
                    CellAt(r.value.columns, r.value.rows[i], c) == CellAt(f.columns, kept[i], c))
  {
  }

  /** A row with a present speed and only numbers among its last four cells gets all three statistics. */
  lemma RowStatsPresent(row: Row, idx: seq<nat>)
    requires forall k :: 0 <= k < |idx| ==> idx[k] < |row|
    requires HasValue(idx)(row) && Aggregatable(row, idx)
    ensures var xs := Values(row, idx);
            && xs != []
            && RowStats(row, idx) == (Num(MinOf(xs)), Num(MaxOf(xs)), Num(Mean(xs)))
            && MinOf(xs) <= Mean(xs) <= MaxOf(xs)
  {
    var k :| 0 <= k < |idx| && idx[k] < |row| && row[idx[k]] != Missing;
    assert row[idx[k]].r in Values(row, idx);
    MeanBetween(Values(row, idx));
  }

  /**
   * On success every row's `min` and `max` are the least and greatest of its present speeds
   * and its mean lies between them.
   */
  lemma AddMinMaxMeanStats(f: Frame, name: string, i: nat)
    requires f.Valid() && name != "min" && name != "max"
    ensures var idx, r := StatPositions(|f.columns|), AddMinMaxMean(f, name);
            r.Ok? && i < |r.value.rows| ==>
              var xs := Values(Kept(f).rows[i], idx);
              && xs != []
              && CellAt(r.value.columns, r.value.rows[i], "min") == Num(MinOf(xs))
              && CellAt(r.value.columns, r.value.rows[i], "max") == Num(MaxOf(xs))
              && CellAt(r.value.columns, r.value.rows[i], name) == Num(Mean(xs))
              && MinOf(xs) <= Mean(xs) <= MaxOf(xs)
  {
    var idx, r := StatPositions(|f.columns|), AddMinMaxMean(f, name);
    if r.Ok? && i < |r.value.rows| {
      var kept := Kept(f);
      var stats := StatsOf(kept.rows, idx);
      assert r.value == WithStats(kept, stats, name);
      assert kept.rows[i] in kept.rows;
      assert Aggregatable(kept.rows[i], idx);
      RowStatsPresent(kept.rows[i], idx);
      assert stats[i] == RowStats(kept.rows[i], idx);
    }
  }
}
