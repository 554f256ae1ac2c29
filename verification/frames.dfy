/**
 * A pandas DataFrame as a value: named columns and rows of cells. Missing values
 * (NaN, None, NaT) are one `Missing` cell; timestamps are whole minutes since
 * 1970-01-01 00:00.
 */
module Frames {
  import opened Wrappers
  import Seqs

  datatype Cell = Missing | Num(r: real) | Str(s: string) | Time(t: int)

  type Row = seq<Cell>

  datatype Frame = Frame(columns: seq<string>, rows: seq<Row>)
  {
    /** Column names are distinct and every row has one cell per column. */
    predicate Valid()
    {
      && Seqs.NoDuplicates(columns)
      && forall i :: 0 <= i < |rows| ==> |rows[i]| == |columns|
    }

    /** `DataFrame.empty`: no rows or no columns. */
    predicate IsEmpty()
    {
      |rows| == 0 || |columns| == 0
    }
  }

  /** Position of a column name, as `columns.get_loc`. */
  function IndexOf(cols: seq<string>, c: string): (r: Option<nat>)
    ensures r.Some? ==> r.value < |cols| && cols[r.value] == c && c !in cols[..r.value]
    ensures r.None? <==> c !in cols
  {
    if cols == [] then None
    else if cols[0] == c then Some(0)
    else
      match IndexOf(cols[1..], c)
      case None => None
      case Some(k) =>
        assert cols[..k + 1] == [cols[0]] + cols[1..][..k];
        Some(k + 1)
  }

  lemma IndexOfDistinct(cols: seq<string>, k: nat)
    requires Seqs.NoDuplicates(cols) && k < |cols|
    ensures IndexOf(cols, cols[k]) == Some(k)
  {
  }

  /** The cell of `row` under column `c`, where `row` is laid out as `cols`. */
  function CellAt(cols: seq<string>, row: Row, c: string): Cell
    requires |row| == |cols|
  {
    match IndexOf(cols, c)
    case Some(k) => row[k]
    case None => Missing
  }

  /** The frame with only the columns at positions `idx`, in that order (`df.iloc[:, idx]`). */
  function Project(f: Frame, idx: seq<nat>): (g: Frame)
    requires f.Valid()
    requires forall k :: 0 <= k < |idx| ==> idx[k] < |f.columns|
    ensures |g.columns| == |idx| && |g.rows| == |f.rows|
    ensures forall k :: 0 <= k < |idx| ==> g.columns[k] == f.columns[idx[k]]
    ensures forall i, k :: 0 <= i < |f.rows| && 0 <= k < |idx| ==> |g.rows[i]| == |idx| && g.rows[i][k] == f.rows[i][idx[k]]
  {
    Frame(seq(|idx|, k requires 0 <= k < |idx| => f.columns[idx[k]]),
          seq(|f.rows|, i requires 0 <= i < |f.rows| =>
            seq(|idx|, k requires 0 <= k < |idx| => f.rows[i][idx[k]])))
  }

  /** Positions `from`.. of `cols` whose names satisfy `keep`, ascending. */
  function PositionsWhere(cols: seq<string>, keep: string -> bool, from: nat): (idx: seq<nat>)
    requires from <= |cols|
    ensures forall k :: 0 <= k < |idx| ==> from <= idx[k] < |cols| && keep(cols[idx[k]])
    ensures forall k, l :: 0 <= k < l < |idx| ==> idx[k] < idx[l]
    ensures forall p :: from <= p < |cols| && keep(cols[p]) ==> p in idx
    decreases |cols| - from
  {
    if from == |cols| then []
    else (if keep(cols[from]) then [from] else []) + PositionsWhere(cols, keep, from + 1)
  }

  /** The frame restricted to the columns whose names satisfy `keep`, in their order. */
  function SelectColumns(f: Frame, keep: string -> bool): (g: Frame)
    requires f.Valid()
    ensures g.Valid()
    ensures |g.rows| == |f.rows|
    ensures forall c :: c in g.columns <==> c in f.columns && keep(c)
  {
    var idx := PositionsWhere(f.columns, keep, 0);
    ProjectKeeps(f, keep, idx);
    Project(f, idx)
  }

  lemma ProjectKeeps(f: Frame, keep: string -> bool, idx: seq<nat>)
    requires f.Valid() && idx == PositionsWhere(f.columns, keep, 0)
    ensures forall c :: c in f.columns && keep(c) ==> c in Project(f, idx).columns
  {
    var g := Project(f, idx);
    forall c | c in f.columns && keep(c) ensures c in g.columns {
      var p :| 0 <= p < |f.columns| && f.columns[p] == c;
      var k :| 0 <= k < |idx| && idx[k] == p;
      assert g.columns[k] == c;
    }
  }

  /** Every row of the selection keeps its cell of each column kept. */
  lemma SelectColumnsCells(f: Frame, keep: string -> bool)
    requires f.Valid()
    ensures var g := SelectColumns(f, keep);
            forall i, c :: 0 <= i < |f.rows| && c in g.columns ==> CellAt(g.columns, g.rows[i], c) == CellAt(f.columns, f.rows[i], c)
  {
    var idx := PositionsWhere(f.columns, keep, 0);
    var g := SelectColumns(f, keep);
    assert g == Project(f, idx);
    forall i, c | 0 <= i < |f.rows| && c in g.columns ensures CellAt(g.columns, g.rows[i], c) == CellAt(f.columns, f.rows[i], c) {
      ProjectCell(f, idx, i, c);
    }
  }

  /** A projection onto distinct positions keeps the cell of every column it keeps. */
  lemma ProjectCell(f: Frame, idx: seq<nat>, i: nat, c: string)
    requires f.Valid()
    requires forall k :: 0 <= k < |idx| ==> idx[k] < |f.columns|
    requires i < |f.rows| && c in Project(f, idx).columns
    ensures var g := Project(f, idx); |g.rows[i]| == |g.columns| && CellAt(g.columns, g.rows[i], c) == CellAt(f.columns, f.rows[i], c)
  {
    var g := Project(f, idx);
    var k := IndexOf(g.columns, c).value;
    IndexOfDistinct(f.columns, idx[k]);
  }

  /** `df.drop(names, axis=1, errors='ignore')`: every row keeps its cells of the other columns. */
  function DropColumns(f: Frame, names: set<string>): (g: Frame)
    requires f.Valid()
    ensures g.Valid()
    ensures |g.rows| == |f.rows|
    ensures forall c :: c in g.columns <==> c in f.columns && c !in names
    ensures forall i, c :: 0 <= i < |f.rows| && c in g.columns ==> CellAt(g.columns, g.rows[i], c) == CellAt(f.columns, f.rows[i], c)
  {
    SelectColumnsCells(f, c => c !in names);
    SelectColumns(f, c => c !in names)
  }

  /** `df.iloc[:, :-n]`: every column but the last `n`, and none when there are fewer. */
  function DropLastColumns(f: Frame, n: nat): (g: Frame)
    requires f.Valid()
    ensures g.Valid()
    ensures g.columns == (if |f.columns| >= n then f.columns[..|f.columns| - n] else [])
    ensures |g.rows| == |f.rows|
    ensures forall i :: 0 <= i < |f.rows| ==> g.rows[i] == f.rows[i][..|g.columns|]
  {
    var keep := if |f.columns| >= n then |f.columns| - n else 0;
    Frame(f.columns[..keep], seq(|f.rows|, i requires 0 <= i < |f.rows| => f.rows[i][..keep]))
  }

  /** `df[c] = pd.Series(dtype=...)`: a new, all-missing column at the right. */
  function AddMissingColumn(f: Frame, c: string): (g: Frame)
    requires f.Valid() && c !in f.columns
    ensures g.Valid()
  {
    Frame(f.columns + [c], seq(|f.rows|, i requires 0 <= i < |f.rows| => f.rows[i] + [Missing]))
  }

  /** The rows satisfying `p`, in order (`df[mask]`). */
  function SelectRows(f: Frame, p: Row -> bool): (g: Frame)
    requires f.Valid()
    ensures g.Valid() && g.columns == f.columns
    ensures g.rows == Seqs.Filter(f.rows, p)
  {
    Frame(f.columns, Seqs.Filter(f.rows, p))
  }

  /** Column union in order of first appearance, as `pd.concat` aligns columns. */
  function UnionColumns(a: seq<string>, b: seq<string>): (u: seq<string>)
    requires Seqs.NoDuplicates(a)
    ensures Seqs.NoDuplicates(u)
    ensures a <= u
    ensures forall c :: c in u <==> c in a || c in b
    decreases |b|
  {
    if b == [] then a
    else if b[0] in a then UnionColumns(a, b[1..])
    else
      var u := UnionColumns(a + [b[0]], b[1..]);
      assert a <= a + [b[0]];
      u
  }

  /** A row of a frame laid out as `cols`: its own cells where it has the column, missing elsewhere. */
  function Relayout(from: seq<string>, row: Row, cols: seq<string>): (r: Row)
    requires |row| == |from|
    ensures |r| == |cols|
  {
    seq(|cols|, k requires 0 <= k < |cols| => CellAt(from, row, cols[k]))
  }

  /** `pd.concat(frames)`: rows of every frame in turn, under the union of their columns. */
  function Concat(frames: seq<Frame>): (g: Frame)
    requires forall k :: 0 <= k < |frames| ==> frames[k].Valid()
    ensures g.Valid()
    ensures forall k, c :: 0 <= k < |frames| && c in frames[k].columns ==> c in g.columns
    ensures forall c :: c in g.columns ==> exists k :: 0 <= k < |frames| && c in frames[k].columns
    decreases |frames|
  {
    if frames == [] then Frame([], [])
    else
      var head := frames[|frames| - 1];
      assert head.Valid();
      var rest := Concat(frames[..|frames| - 1]);
      var cols := UnionColumns(rest.columns, head.columns);
      var g := Frame(cols,
        seq(|rest.rows|, i requires 0 <= i < |rest.rows| => Relayout(rest.columns, rest.rows[i], cols)) +
        seq(|head.rows|, i requires 0 <= i < |head.rows| => Relayout(head.columns, head.rows[i], cols)));
      assert forall c :: c in g.columns ==> exists k :: 0 <= k < |frames| && c in frames[k].columns by {
        forall c | c in g.columns ensures exists k :: 0 <= k < |frames| && c in frames[k].columns {
          if c in head.columns {
            assert c in frames[|frames| - 1].columns;
          } else {
            var k :| 0 <= k < |frames| - 1 && c in frames[..|frames| - 1][k].columns;
            assert c in frames[k].columns;
          }
        }
      }
      assert forall k, c :: 0 <= k < |frames| && c in frames[k].columns ==> c in g.columns by {
        forall k, c | 0 <= k < |frames| && c in frames[k].columns ensures c in g.columns {
          if k < |frames| - 1 {
            assert c in frames[..|frames| - 1][k].columns;
          }
        }
      }
      g
  }

  /** Laying out a row under `mid` and then under `cols` is laying it out under `cols`, when `mid` has all its columns. */
  lemma RelayoutTwice(from: seq<string>, row: Row, mid: seq<string>, cols: seq<string>)
    requires |row| == |from|
    requires forall c :: c in from ==> c in mid
    ensures Relayout(mid, Relayout(from, row, mid), cols) == Relayout(from, row, cols)
  {
    var once := Relayout(from, row, mid);
    forall k | 0 <= k < |cols| ensures CellAt(mid, once, cols[k]) == CellAt(from, row, cols[k]) {
      match IndexOf(mid, cols[k])
      case Some(p) =>
      case None =>
    }
  }

  /** A relaid-out row has the row's own cell under each of its columns and a missing one elsewhere. */
  lemma RelayoutCells(from: seq<string>, row: Row, cols: seq<string>)
    requires |row| == |from| && Seqs.NoDuplicates(cols)
    ensures forall c :: c in cols ==>
              CellAt(cols, Relayout(from, row, cols), c) == (if c in from then CellAt(from, row, c) else Missing)
  {
    forall c | c in cols
      ensures CellAt(cols, Relayout(from, row, cols), c) == (if c in from then CellAt(from, row, c) else Missing)
    {
      var k := IndexOf(cols, c).value;
    }
  }

  /**
   * Row `i` of part `j` of a concatenation stands after the rows of the parts before it, laid
   * out under the union columns: its own cells where its part has the column, missing elsewhere.
   */
  lemma {:induction false} ConcatLayout(frames: seq<Frame>, j: nat, i: nat)
    requires forall k :: 0 <= k < |frames| ==> frames[k].Valid()
    requires j < |frames| && i < |frames[j].rows|
    ensures TotalRows(frames[..j]) + i < |Concat(frames).rows|
    ensures Concat(frames).rows[TotalRows(frames[..j]) + i] == Relayout(frames[j].columns, frames[j].rows[i], Concat(frames).columns)
  {
    if j == |frames| - 1 {
      ConcatLayoutLast(frames, i);
    } else {
      var init := frames[..|frames| - 1];
      ValidPrefix(frames, init, j, i);
      ConcatLayout(init, j, i);
      ConcatLayoutEarlier(frames, j, i);
    }
  }

  /** Dropping the last part keeps the parts before it as they were. */
  lemma ValidPrefix(frames: seq<Frame>, init: seq<Frame>, j: nat, i: nat)
    requires forall k :: 0 <= k < |frames| ==> frames[k].Valid()
    requires 0 < |frames| && init == frames[..|frames| - 1] && j < |init| && i < |frames[j].rows|
    ensures forall k :: 0 <= k < |init| ==> init[k].Valid()
    ensures init[..j] == frames[..j] && init[j] == frames[j] && i < |init[j].rows|
  {
  }

  /** The rows of the last part come right after the rows of the parts before it. */
  lemma ConcatLayoutLast(frames: seq<Frame>, i: nat)
    requires forall k :: 0 <= k < |frames| ==> frames[k].Valid()
    requires frames != [] && i < |frames[|frames| - 1].rows|
    ensures var n := |frames| - 1;
            && TotalRows(frames[..n]) + i < |Concat(frames).rows|
            && Concat(frames).rows[TotalRows(frames[..n]) + i] == Relayout(frames[n].columns, frames[n].rows[i], Concat(frames).columns)
  {
    ConcatRows(frames[..|frames| - 1]);
    ConcatStep(frames);
  }

  /** The induction step for a part before the last. */
  lemma ConcatLayoutEarlier(frames: seq<Frame>, j: nat, i: nat)
    requires forall k :: 0 <= k < |frames| ==> frames[k].Valid()
    requires j < |frames| - 1 && i < |frames[j].rows|
    requires var rest := Concat(frames[..|frames| - 1]);
             && TotalRows(frames[..j]) + i < |rest.rows|
             && rest.rows[TotalRows(frames[..j]) + i] == Relayout(frames[j].columns, frames[j].rows[i], rest.columns)
    ensures TotalRows(frames[..j]) + i < |Concat(frames).rows|
    ensures Concat(frames).rows[TotalRows(frames[..j]) + i] == Relayout(frames[j].columns, frames[j].rows[i], Concat(frames).columns)
  {
    var init := frames[..|frames| - 1];
    var rest := Concat(init);
    ConcatStep(frames);
    assert init[j] == frames[j];
    assert forall c :: c in frames[j].columns ==> c in rest.columns;
    RelayoutTwice(frames[j].columns, frames[j].rows[i], rest.columns, Concat(frames).columns);
  }

  /** One step of the concatenation: the rows so far, then the last part's rows, all relaid out. */
  lemma ConcatStep(frames: seq<Frame>)
    requires forall k :: 0 <= k < |frames| ==> frames[k].Valid()
    requires frames != []
    ensures var g, rest, head := Concat(frames), Concat(frames[..|frames| - 1]), frames[|frames| - 1];
            && |g.rows| == |rest.rows| + |head.rows|
            && (forall i :: 0 <= i < |rest.rows| ==> g.rows[i] == Relayout(rest.columns, rest.rows[i], g.columns))
            && (forall i :: 0 <= i < |head.rows| ==> g.rows[|rest.rows| + i] == Relayout(head.columns, head.rows[i], g.columns))
  {
  }

  /** The row count of a concatenation is the sum of the row counts. */
  function TotalRows(frames: seq<Frame>): nat
  {
    if frames == [] then 0 else TotalRows(frames[..|frames| - 1]) + |frames[|frames| - 1].rows|
  }

  lemma {:induction false} ConcatRows(frames: seq<Frame>)
    requires forall k :: 0 <= k < |frames| ==> frames[k].Valid()
    ensures |Concat(frames).rows| == TotalRows(frames)
  {
    if frames != [] {
      ConcatRows(frames[..|frames| - 1]);
    }
  }
}
