/**
 * The scraped-forecast half of `Scripts/preProcessing.py`: the WINDGURU and WINDY sheets are
 * de-duplicated per (issue date, model, forecast date), pivoted to one column per model and
 * outer-joined with the reconciled Darwin table on (date, issue day).
 */
module ScrapedForecasts {
  import opened Wrappers
  import opened Frames
  import Seqs
  import Sorting
  import PreProcessing

  /**
   * One row of a WINDGURU or WINDY sheet after its columns are named, reduced to the columns
   * the script uses. Dates arrive parsed; a missing model name is `None`.
   */
  datatype ScrapedRow = ScrapedRow(initDate: Option<int>, fcDate: Option<int>, model: Option<string>, wSpeed: Cell)

  /** `wSpeed` after `pd.to_numeric(errors='coerce')`. */
  function Speed(r: ScrapedRow): Option<real> { PreProcessing.ToNumeric(r.wSpeed) }

  /** `groupby` leaves out rows whose issue date or model is missing. */
  function Grouped(): ScrapedRow -> bool
  {
    (r: ScrapedRow) => r.initDate.Some? && r.model.Some?
  }

  /** The key `drop_duplicates(subset='fcDate')` sees within a group, with the group's key. */
  function Triple(r: ScrapedRow): (Option<int>, Option<string>, Option<int>)
  {
    (r.initDate, r.model, r.fcDate)
  }

  function OptStrLe(a: Option<string>, b: Option<string>): bool
  {
    Sorting.OptLe(Sorting.StrLe, a, b)
  }

  /** Group order: issue date, then model. */
  function GroupLe(a: ScrapedRow, b: ScrapedRow): bool
  {
    Sorting.LexLe(Sorting.OptIntLe, OptStrLe, (a.initDate, a.model), (b.initDate, b.model))
  }

  lemma OptStrLeTotal()
    ensures Sorting.TotalPreorder(OptStrLe)
  {
    forall a, b ensures OptStrLe(a, b) || OptStrLe(b, a) {
      if a.Some? && b.Some? {
        Sorting.StrLeTotalAt(a.value, b.value);
      }
    }
    forall a, b, c | OptStrLe(a, b) && OptStrLe(b, c) ensures OptStrLe(a, c) {
      if a.Some? && b.Some? && c.Some? {
        Sorting.StrLeTransitiveAt(a.value, b.value, c.value);
      }
    }
  }

  lemma GroupLeTotal()
    ensures Sorting.TotalPreorder(GroupLe)
  {
    Sorting.OptIntLeTotal();
    OptStrLeTotal();
    Sorting.LexLeTotal(Sorting.OptIntLe, OptStrLe);
    var lex := (x: (Option<int>, Option<string>), y: (Option<int>, Option<string>)) => Sorting.LexLe(Sorting.OptIntLe, OptStrLe, x, y);
    Sorting.ByKeyTotal((r: ScrapedRow) => (r.initDate, r.model), lex);
  }

  /**
   * `groupby(['initDate', 'model'], group_keys=False).apply(drop_duplicates('fcDate'))`. Each
   * group keeps the first row of every forecast date, in row order. When no group lost a row,
   * pandas puts the rows back in their original order (without the rows a missing key left
   * out of every group); otherwise it lists the groups one after another in key order, which
   * is a stable sort by group of the rows kept.
   */
  function DedupScraped(rows: seq<ScrapedRow>): seq<ScrapedRow>
  {
    var g := Seqs.Filter(rows, Grouped());
    var kept := Seqs.DedupFirst(g, Triple);
    if kept == g then g else Sorting.SortBy(kept, GroupLe)
  }

  /**
   * After de-duplication every row has an issue date and a model, no two rows share issue
   * date, model and forecast date, and every such combination of a grouped row survives
   * through the first row that has it. When a row was dropped the rows come group by group,
   * in (issue date, model) order, each group keeping its input order; otherwise they are the
   * grouped rows in input order.
   */
  lemma DedupScrapedSpec(rows: seq<ScrapedRow>)
    ensures var g, out := Seqs.Filter(rows, Grouped()), DedupScraped(rows);
            && (forall i :: 0 <= i < |out| ==> out[i].initDate.Some? && out[i].model.Some?)
            && Seqs.KeysDistinct(out, Triple)
            && (forall i :: 0 <= i < |g| ==> Seqs.HasKey(out, Triple, Triple(g[i])))
            && (forall x :: x in out ==> Seqs.FirstOfKey(g, Triple, x))
            && (|out| < |g| ==> Sorting.Sorted(out, GroupLe))
            && (|out| == |g| ==> out == g)
    ensures var g, out := Seqs.Filter(rows, Grouped()), DedupScraped(rows);
            |out| < |g| ==> forall z :: Seqs.Filter(out, Sorting.EquivTo(GroupLe, z)) ==
                                        Seqs.Filter(Seqs.DedupFirst(g, Triple), Sorting.EquivTo(GroupLe, z))
  {
    var g := Seqs.Filter(rows, Grouped());
    var d := Seqs.DedupFirst(g, Triple);
    var out := DedupScraped(rows);
    Seqs.DedupFirstSameLength(g, Triple);
    if d != g {
      GroupLeTotal();
      Sorting.SortBySorted(d, GroupLe);
      forall z {
        Sorting.SortByStable(d, GroupLe, z);
      }
    }
    assert multiset(out) == multiset(d);
    KeptRows(g, out);
  }

  /** Any reordering of the first row per key of grouped rows keeps the properties above. */
  lemma KeptRows(g: seq<ScrapedRow>, out: seq<ScrapedRow>)
    requires forall i :: 0 <= i < |g| ==> g[i].initDate.Some? && g[i].model.Some?
    requires multiset(out) == multiset(Seqs.DedupFirst(g, Triple))
    ensures forall i :: 0 <= i < |out| ==> out[i].initDate.Some? && out[i].model.Some?
    ensures Seqs.KeysDistinct(out, Triple)
    ensures forall i :: 0 <= i < |g| ==> Seqs.HasKey(out, Triple, Triple(g[i]))
    ensures forall x :: x in out ==> Seqs.FirstOfKey(g, Triple, x)
  {
    var d := Seqs.DedupFirst(g, Triple);
    Seqs.DedupFirstDistinct(g, Triple);
    Seqs.DedupFirstCovers(g, Triple);
    Seqs.DedupFirstKeepsFirst(g, Triple);
    Seqs.KeysDistinctPermutation(d, out, Triple);
    forall i | 0 <= i < |out| ensures out[i].initDate.Some? && out[i].model.Some? {
      assert out[i] in multiset(d);
      var k :| 0 <= k < |g| && g[k] == out[i];
    }
    forall i | 0 <= i < |g| ensures Seqs.HasKey(out, Triple, Triple(g[i])) {
      var k :| 0 <= k < |d| && Triple(d[k]) == Triple(g[i]);
      assert d[k] in multiset(out);
      var j :| 0 <= j < |out| && out[j] == d[k];
    }
    forall x | x in out ensures Seqs.FirstOfKey(g, Triple, x) {
      assert x in multiset(d);
    }
  }

  // ---- initDateFixed and the pivot ----

  /** A row the pivot counts: grouped, with a forecast date and a speed that parsed. */
  function Contributes(): ScrapedRow -> bool
  {
    (r: ScrapedRow) => r.initDate.Some? && r.model.Some? && r.fcDate.Some? && Speed(r).Some?
  }

  /** The pivot index of a row: `initDateFixed` (the issue day) and the forecast date. */
  function PivotKey(r: ScrapedRow): (int, int)
    requires r.initDate.Some? && r.fcDate.Some?
  {
    (PreProcessing.DayOf(r.initDate.value), r.fcDate.value)
  }

  function PairLe(x: (int, int), y: (int, int)): bool
  {
    Sorting.LexLe(Sorting.IntLe, Sorting.IntLe, x, y)
  }

  /** The pivot keys: each key of a counted row once, ascending. */
  function PivotKeys(rows: seq<ScrapedRow>): seq<(int, int)>
  {
    var c := Seqs.Filter(rows, Contributes());
    Sorting.SortedDistinct(seq(|c|, i requires 0 <= i < |c| => PivotKey(c[i])), PairLe)
  }

  /** The pivot columns: each model of a counted row once, ascending. */
  function Models(rows: seq<ScrapedRow>): seq<string>
  {
    var c := Seqs.Filter(rows, Contributes());
    Sorting.SortedDistinct(seq(|c|, i requires 0 <= i < |c| => c[i].model.value), Sorting.StrLe)
  }

  /** The counted rows of one pivot cell. */
  function CellRows(rows: seq<ScrapedRow>, k: (int, int), m: string): seq<ScrapedRow>
  {
    Seqs.Filter(Seqs.Filter(rows, Contributes()), (r: ScrapedRow) => Contributes()(r) && PivotKey(r) == k && r.model == Some(m))
  }

  /** `np.nanmean` over the cell's rows: missing when no row counts. */
  function CellMean(rows: seq<ScrapedRow>, k: (int, int), m: string): Option<real>
  {
    var c := CellRows(rows, k, m);
    if c == [] then None
    else Some(Seqs.Sum(seq(|c|, i requires 0 <= i < |c| => Speed(c[i]).value)) / |c| as real)
  }

  datatype PivotRow = PivotRow(initDate: int, date: int, speeds: seq<Option<real>>)

  /** A pivot table: its model columns and its rows, one speed per model. */
  datatype Pivot = Pivot(models: seq<string>, rows: seq<PivotRow>)

  /**
   * `pivot_table(index=['initDateFixed', 'fcDate'], columns='model', values='wSpeed',
   * aggfunc=np.nanmean).reset_index()`: keys and models with no counted value are left out.
   */
  function PivotTable(rows: seq<ScrapedRow>): (p: Pivot)
    ensures |p.rows| == |PivotKeys(rows)|
    ensures forall i :: 0 <= i < |p.rows| ==> (p.rows[i].initDate, p.rows[i].date) == PivotKeys(rows)[i]
    ensures forall i :: 0 <= i < |p.rows| ==> |p.rows[i].speeds| == |p.models|
  {
    var keys, models := PivotKeys(rows), Models(rows);
    Pivot(models, seq(|keys|, i requires 0 <= i < |keys| => PivotRow(keys[i].0, keys[i].1, RowSpeeds(rows, keys[i], models))))
  }

  /** One pivot row's speeds, model column by model column. */
  function RowSpeeds(rows: seq<ScrapedRow>, k: (int, int), models: seq<string>): (r: seq<Option<real>>)
    ensures |r| == |models|
  {
    seq(|models|, j requires 0 <= j < |models| => CellMean(rows, k, models[j]))
  }

  lemma PairLeTotal()
    ensures Sorting.TotalPreorder(PairLe)
  {
    Sorting.IntLeTotal();
    Sorting.LexLeTotal(Sorting.IntLe, Sorting.IntLe);
  }

  /** The pivot keys are the keys of the counted rows, ascending, each once. */
  lemma PivotKeysSpec(rows: seq<ScrapedRow>)
    ensures var ks := PivotKeys(rows);
            && Seqs.NoDuplicates(ks)
            && Sorting.Sorted(ks, PairLe)
            && (forall r :: r in rows && Contributes()(r) ==> PivotKey(r) in ks)
            && (forall k :: k in ks ==> exists r :: r in rows && Contributes()(r) && PivotKey(r) == k)
  {
    PivotKeysOrder(rows);
    PivotKeysCover(rows);
    PivotKeysFrom(rows);
  }

  lemma PivotKeysCover(rows: seq<ScrapedRow>)
    ensures forall r :: r in rows && Contributes()(r) ==> PivotKey(r) in PivotKeys(rows)
  {
    var c := Seqs.Filter(rows, Contributes());
    var ks := seq(|c|, i requires 0 <= i < |c| => PivotKey(c[i]));
    forall r | r in rows && Contributes()(r) ensures PivotKey(r) in PivotKeys(rows) {
      var i :| 0 <= i < |c| && c[i] == r;
      assert ks[i] == PivotKey(r);
    }
  }

  lemma PivotKeysFrom(rows: seq<ScrapedRow>)
    ensures forall k :: k in PivotKeys(rows) ==> exists r :: r in rows && Contributes()(r) && PivotKey(r) == k
  {
    var c := Seqs.Filter(rows, Contributes());
    var ks := seq(|c|, i requires 0 <= i < |c| => PivotKey(c[i]));
    forall k | k in PivotKeys(rows) ensures exists r :: r in rows && Contributes()(r) && PivotKey(r) == k {
      var i :| 0 <= i < |ks| && ks[i] == k;
      assert c[i] in rows && Contributes()(c[i]);
    }
  }

  /** The pivot rows come in ascending key order, each key once, each with one speed per model. */
  lemma PivotRowsOrder(rows: seq<ScrapedRow>)
    ensures var p := PivotTable(rows);
            && (forall i, j :: 0 <= i < j < |p.rows| ==>
                  (p.rows[i].initDate, p.rows[i].date) != (p.rows[j].initDate, p.rows[j].date) &&
                  PairLe((p.rows[i].initDate, p.rows[i].date), (p.rows[j].initDate, p.rows[j].date)))
            && (forall i :: 0 <= i < |p.rows| ==> |p.rows[i].speeds| == |p.models|)
  {
    PivotKeysOrder(rows);
  }

  lemma PivotKeysOrder(rows: seq<ScrapedRow>)
    ensures Seqs.NoDuplicates(PivotKeys(rows)) && Sorting.Sorted(PivotKeys(rows), PairLe)
  {
    var c := Seqs.Filter(rows, Contributes());
    PairLeTotal();
    Sorting.SortedDistinctSorted(seq(|c|, i requires 0 <= i < |c| => PivotKey(c[i])), PairLe);
  }

  /** The pivot has a row for the (issue day, forecast date) of every counted row. */
  lemma PivotRowsComplete(rows: seq<ScrapedRow>)
    ensures var p := PivotTable(rows);
            forall r :: r in rows && Contributes()(r) ==>
              exists i :: 0 <= i < |p.rows| && (p.rows[i].initDate, p.rows[i].date) == PivotKey(r)
  {
    var ks := PivotKeys(rows);
    var p := PivotTable(rows);
    PivotKeysSpec(rows);
    forall r | r in rows && Contributes()(r)
      ensures exists i :: 0 <= i < |p.rows| && (p.rows[i].initDate, p.rows[i].date) == PivotKey(r)
    {
      var i :| 0 <= i < |ks| && ks[i] == PivotKey(r);
      assert (p.rows[i].initDate, p.rows[i].date) == ks[i];
    }
  }

  /** Every pivot row has the (issue day, forecast date) of some counted row. */
  lemma PivotRowsSound(rows: seq<ScrapedRow>)
    ensures var p := PivotTable(rows);
            forall i :: 0 <= i < |p.rows| ==>
              exists r :: r in rows && Contributes()(r) && PivotKey(r) == (p.rows[i].initDate, p.rows[i].date)
  {
    var ks := PivotKeys(rows);
    var p := PivotTable(rows);
    PivotKeysSpec(rows);
    forall i | 0 <= i < |p.rows|
      ensures exists r :: r in rows && Contributes()(r) && PivotKey(r) == (p.rows[i].initDate, p.rows[i].date)
    {
      assert (p.rows[i].initDate, p.rows[i].date) == ks[i];
      assert ks[i] in ks;
    }
  }

  /** The model columns are ascending, each model once. */
  lemma ModelsOrder(rows: seq<ScrapedRow>)
    ensures Seqs.NoDuplicates(Models(rows)) && Sorting.Sorted(Models(rows), Sorting.StrLe)
  {
    var c := Seqs.Filter(rows, Contributes());
    var names := seq(|c|, i requires 0 <= i < |c| => c[i].model.value);
    Sorting.StrLeTotal();
    Sorting.SortedDistinctSorted(names, Sorting.StrLe);
  }

  /** The model columns are exactly the models of the counted rows. */
  lemma ModelsCover(rows: seq<ScrapedRow>, m: string)
    ensures m in Models(rows) <==> exists r :: r in rows && Contributes()(r) && r.model == Some(m)
  {
    var c := Seqs.Filter(rows, Contributes());
    var names := seq(|c|, i requires 0 <= i < |c| => c[i].model.value);
    if m in Models(rows) {
      var i :| 0 <= i < |names| && names[i] == m;
      assert c[i] in rows && Contributes()(c[i]);
    }
    if exists r :: r in rows && Contributes()(r) && r.model == Some(m) {
      var r :| r in rows && Contributes()(r) && r.model == Some(m);
      var i :| 0 <= i < |c| && c[i] == r;
      assert names[i] == m;
    }
  }

  /** A pivot cell has a speed exactly when some counted row has that key and model. */
  lemma CellMeanPresent(rows: seq<ScrapedRow>, k: (int, int), m: string)
    ensures CellMean(rows, k, m).Some? <==>
            exists r :: r in rows && Contributes()(r) && PivotKey(r) == k && r.model == Some(m)
  {
    var c := Seqs.Filter(rows, Contributes());
    var q := (r: ScrapedRow) => Contributes()(r) && PivotKey(r) == k && r.model == Some(m);
    var cell := CellRows(rows, k, m);
    if exists r :: r in rows && Contributes()(r) && PivotKey(r) == k && r.model == Some(m) {
      var r :| r in rows && Contributes()(r) && PivotKey(r) == k && r.model == Some(m);
      var i :| 0 <= i < |rows| && rows[i] == r;
      assert r in c;
      var j :| 0 <= j < |c| && c[j] == r;
      assert q(c[j]);
      assert r in cell;
    }
    if cell != [] {
      assert cell[0] in c;
      assert q(cell[0]);
      assert cell[0] in rows;
    }
  }

  // ---- The final outer merge ----

  /** The pivot row of a date and issue day, if any. */
  function FindPivot(prs: seq<PivotRow>, date: int, init: Option<int>): (r: Option<PivotRow>)
    ensures r.Some? ==> r.value in prs && init == Some(r.value.initDate) && r.value.date == date
    ensures r.None? <==> forall j :: 0 <= j < |prs| ==> init != Some(prs[j].initDate) || prs[j].date != date
  {
    if prs == [] then None
    else if init == Some(prs[0].initDate) && prs[0].date == date then Some(prs[0])
    else
      assert forall j :: 1 <= j < |prs| ==> prs[j] == prs[1..][j - 1];
      FindPivot(prs[1..], date, init)
  }

  /** A row of the final table: date, issue day, the Darwin part if any, one speed per model. */
  datatype FinalRow = FinalRow(date: int, initDate: Option<int>, darwin: Option<PreProcessing.Reconciled>, speeds: seq<Option<real>>)

  function NoSpeeds(n: nat): seq<Option<real>>
  {
    seq(n, _ => None)
  }

  function JoinLeft(l: PreProcessing.Reconciled, p: Pivot): FinalRow
  {
    var speeds := match FindPivot(p.rows, l.row.date, l.row.initDate)
      case Some(pr) => pr.speeds
      case None => NoSpeeds(|p.models|);
    FinalRow(l.row.date, l.row.initDate, Some(l), speeds)
  }

  /** A pivot row no Darwin row shares its date and issue day with. */
  function UnmatchedPivot(left: seq<PreProcessing.Reconciled>): PivotRow -> bool
  {
    (pr: PivotRow) => forall i :: 0 <= i < |left| ==> left[i].row.date != pr.date || left[i].row.initDate != Some(pr.initDate)
  }

  /** The final row of a pivot row no Darwin row matched. */
  function PivotOnly(pr: PivotRow): FinalRow
  {
    FinalRow(pr.date, Some(pr.initDate), None, pr.speeds)
  }

  /**
   * The rows of `pd.merge(darwin, pivot, on=['date', 'initDate'], how='outer')` before pandas
   * orders them: every Darwin row with the speeds of its pivot row (a Darwin row without an
   * issue date matches none), then the pivot rows no Darwin row matched.
   */
  function JoinRows(left: seq<PreProcessing.Reconciled>, p: Pivot): (out: seq<FinalRow>)
    ensures |out| == |left| + |Seqs.Filter(p.rows, UnmatchedPivot(left))|
    ensures forall i :: 0 <= i < |left| ==> out[i] == JoinLeft(left[i], p)
    ensures forall j :: 0 <= j < |Seqs.Filter(p.rows, UnmatchedPivot(left))| ==>
              out[|left| + j] == PivotOnly(Seqs.Filter(p.rows, UnmatchedPivot(left))[j])
  {
    var right := Seqs.Filter(p.rows, UnmatchedPivot(left));
    seq(|left|, i requires 0 <= i < |left| => JoinLeft(left[i], p)) +
    seq(|right|, j requires 0 <= j < |right| => PivotOnly(right[j]))
  }

  /** Merge key order: date, then issue day, a missing issue day last. */
  function FinalLe(a: FinalRow, b: FinalRow): bool
  {
    Sorting.LexLe(Sorting.IntLe, Sorting.OptIntLe, (a.date, a.initDate), (b.date, b.initDate))
  }

  lemma FinalLeTotal()
    ensures Sorting.TotalPreorder(FinalLe)
  {
    Sorting.IntLeTotal();
    Sorting.OptIntLeTotal();
    Sorting.LexLeTotal(Sorting.IntLe, Sorting.OptIntLe);
    var lex := (x: (int, Option<int>), y: (int, Option<int>)) => Sorting.LexLe(Sorting.IntLe, Sorting.OptIntLe, x, y);
    Sorting.ByKeyTotal((r: FinalRow) => (r.date, r.initDate), lex);
  }

  /**
   * `pd.merge(darwin, pivot, on=['date', 'initDate'], how='outer')`: an outer merge sorts its
   * rows by the key, rows of one key keeping their join order, so this is a stable sort of
   * the joined rows by (date, issue day).
   */
  function FinalMerge(left: seq<PreProcessing.Reconciled>, p: Pivot): seq<FinalRow>
  {
    Sorting.SortBy(JoinRows(left, p), FinalLe)
  }

  /** The merge key of a final row. */
  predicate KeyIn(out: seq<FinalRow>, d: int, init: int)
  {
    exists i :: 0 <= i < |out| && out[i].date == d && out[i].initDate == Some(init)
  }

  /**
   * The final table holds the joined rows, each as often, in (date, issue day) order: every
   * Darwin row with its pivot speeds, and every unmatched pivot row with no Darwin part, and
   * nothing else.
   */
  lemma FinalMergeShape(left: seq<PreProcessing.Reconciled>, p: Pivot)
    ensures var out, right := FinalMerge(left, p), Seqs.Filter(p.rows, UnmatchedPivot(left));
            && multiset(out) == multiset(JoinRows(left, p))
            && Sorting.Sorted(out, FinalLe)
            && |out| == |left| + |right|
            && (forall i :: 0 <= i < |left| ==> JoinLeft(left[i], p) in out)
            && (forall j :: 0 <= j < |right| ==> PivotOnly(right[j]) in out)
            && (forall x :: x in out ==>
                  (exists i :: 0 <= i < |left| && x == JoinLeft(left[i], p)) ||
                  (exists j :: 0 <= j < |right| && x == PivotOnly(right[j])))
  {
    var out, join, right := FinalMerge(left, p), JoinRows(left, p), Seqs.Filter(p.rows, UnmatchedPivot(left));
    FinalLeTotal();
    Sorting.SortBySorted(join, FinalLe);
    forall i | 0 <= i < |left| ensures JoinLeft(left[i], p) in out {
      assert join[i] in multiset(out);
    }
    forall j | 0 <= j < |right| ensures PivotOnly(right[j]) in out {
      assert join[|left| + j] in multiset(out);
    }
    forall x | x in out
      ensures (exists i :: 0 <= i < |left| && x == JoinLeft(left[i], p)) ||
              (exists j :: 0 <= j < |right| && x == PivotOnly(right[j]))
    {
      assert x in multiset(join);
      var k :| 0 <= k < |join| && join[k] == x;
      if k >= |left| {
        assert x == PivotOnly(right[k - |left|]);
      }
    }
  }

  /** Rows of one (date, issue day) key keep their join order in the final table. */
  lemma FinalMergeStable(left: seq<PreProcessing.Reconciled>, p: Pivot)
    ensures forall z :: Seqs.Filter(FinalMerge(left, p), Sorting.EquivTo(FinalLe, z)) ==
                        Seqs.Filter(JoinRows(left, p), Sorting.EquivTo(FinalLe, z))
  {
    FinalLeTotal();
    forall z {
      Sorting.SortByStable(JoinRows(left, p), FinalLe, z);
    }
  }

  /** A key (date, issue day) appears in the final table exactly when a Darwin row or a pivot row has it. */
  lemma FinalMergeCover(left: seq<PreProcessing.Reconciled>, p: Pivot, d: int, init: int)
    ensures KeyIn(FinalMerge(left, p), d, init) <==>
              (exists i :: 0 <= i < |left| && left[i].row.date == d && left[i].row.initDate == Some(init)) ||
              (exists j :: 0 <= j < |p.rows| && p.rows[j].date == d && p.rows[j].initDate == init)
  {
    Seqs.PermutationExists(FinalMerge(left, p), JoinRows(left, p), (r: FinalRow) => r.date == d && r.initDate == Some(init));
    JoinCover(left, p, d, init);
  }

  /** The same for the joined rows. */
  lemma JoinCover(left: seq<PreProcessing.Reconciled>, p: Pivot, d: int, init: int)
    ensures KeyIn(JoinRows(left, p), d, init) <==>
              (exists i :: 0 <= i < |left| && left[i].row.date == d && left[i].row.initDate == Some(init)) ||
              (exists j :: 0 <= j < |p.rows| && p.rows[j].date == d && p.rows[j].initDate == init)
  {
    var out := JoinRows(left, p);
    if KeyIn(out, d, init) {
      var i :| 0 <= i < |out| && out[i].date == d && out[i].initDate == Some(init);
      JoinRowFrom(left, p, i);
    }
    if exists i :: 0 <= i < |left| && left[i].row.date == d && left[i].row.initDate == Some(init) {
      var i :| 0 <= i < |left| && left[i].row.date == d && left[i].row.initDate == Some(init);
      assert out[i].date == d && out[i].initDate == Some(init);
    } else if exists j :: 0 <= j < |p.rows| && p.rows[j].date == d && p.rows[j].initDate == init {
      var j :| 0 <= j < |p.rows| && p.rows[j].date == d && p.rows[j].initDate == init;
      UnmatchedPivotKept(left, p, j);
    }
  }

  /** A joined row's key is the key of a Darwin row or of a pivot row. */
  lemma JoinRowFrom(left: seq<PreProcessing.Reconciled>, p: Pivot, i: nat)
    requires i < |JoinRows(left, p)|
    ensures var r := JoinRows(left, p)[i];
            (i < |left| && r.date == left[i].row.date && r.initDate == left[i].row.initDate) ||
            (exists j :: 0 <= j < |p.rows| && r.date == p.rows[j].date && r.initDate == Some(p.rows[j].initDate))
  {
    if i >= |left| {
      var right := Seqs.Filter(p.rows, UnmatchedPivot(left));
      var pr := right[i - |left|];
      assert pr in p.rows;
      var j :| 0 <= j < |p.rows| && p.rows[j] == pr;
    }
  }

  /** A pivot row no Darwin row matches is among the joined rows. */
  lemma UnmatchedPivotKept(left: seq<PreProcessing.Reconciled>, p: Pivot, j: nat)
    requires j < |p.rows|
    requires forall i :: 0 <= i < |left| ==> left[i].row.date != p.rows[j].date || left[i].row.initDate != Some(p.rows[j].initDate)
    ensures KeyIn(JoinRows(left, p), p.rows[j].date, p.rows[j].initDate)
  {
    var right := Seqs.Filter(p.rows, UnmatchedPivot(left));
    assert UnmatchedPivot(left)(p.rows[j]);
    assert p.rows[j] in right;
    var k :| 0 <= k < |right| && right[k] == p.rows[j];
    assert JoinRows(left, p)[|left| + k].date == p.rows[j].date;
  }

  /**
   * Lines 82-107 for one scraped source: concatenate its sheets (an empty list raises), drop
   * duplicate forecasts, pivot, and join with the reconciled Darwin table.
   */
  function ScrapedPipeline(sheets: seq<seq<ScrapedRow>>, darwin: seq<PreProcessing.Reconciled>): Result<seq<FinalRow>, string>
  {
    if sheets == [] then Err("No objects to concatenate")
    else Ok(FinalMerge(darwin, PivotTable(DedupScraped(Seqs.Flatten(sheets)))))
  }

  /**
   * The pipeline fails only on an empty list of sheets. Otherwise its rows are in (date,
   * issue day) order and every Darwin row is among them with its own date and issue day.
   */
  lemma ScrapedPipelineSpec(sheets: seq<seq<ScrapedRow>>, darwin: seq<PreProcessing.Reconciled>)
    ensures ScrapedPipeline(sheets, darwin).Err? <==> sheets == []
    ensures ScrapedPipeline(sheets, darwin).Ok? ==>
              var out := ScrapedPipeline(sheets, darwin).value;
              && |out| >= |darwin|
              && Sorting.Sorted(out, FinalLe)
              && forall i :: 0 <= i < |darwin| ==>
                   exists k :: 0 <= k < |out| && out[k].darwin == Some(darwin[i]) &&
                     out[k].date == darwin[i].row.date && out[k].initDate == darwin[i].row.initDate
  {
    if sheets != [] {
      var p := PivotTable(DedupScraped(Seqs.Flatten(sheets)));
      var out := FinalMerge(darwin, p);
      FinalMergeShape(darwin, p);
      forall i | 0 <= i < |darwin|
        ensures exists k :: 0 <= k < |out| && out[k].darwin == Some(darwin[i]) &&
                  out[k].date == darwin[i].row.date && out[k].initDate == darwin[i].row.initDate
      {
        var k :| 0 <= k < |out| && out[k] == JoinLeft(darwin[i], p);
      }
    }
  }
}
