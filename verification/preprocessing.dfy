/**
 * The forecast/observation reconciliation of `Scripts/preProcessing.py`: each Darwin workbook
 * gives a forecast frame (lead hours 1..n, one issue date) and an observation frame; the
 * observations are de-duplicated by date, outer-joined with the forecasts on date, bucketed
 * into forecast days and sorted.
 *
 * Timestamps are minutes since 1970-01-01. A `YYYY-MM-DD` text (the issue date) is modelled as
 * the minute of that day's midnight, which orders the same way for four-digit years.
 */
module PreProcessing {
  import opened Wrappers
  import opened Frames
  import Seqs
  import Sorting
  import Text

  const MinutesPerDay := 1440

  /** Which pair of columns `preProcessing` reads: the forecast or the observation. */
  datatype Kind = Fc | Obs

  /**
   * One row of the `Plantilla Datos` sheet, reduced to the four cells the script reads: the
   * forecast date and value, and the observed date and value. Dates arrive parsed.
   */
  datatype SheetRow = SheetRow(fcDate: Option<int>, fcValue: Cell, obsDate: Option<int>, obsValue: Cell)

  function DateOf(r: SheetRow, kind: Kind): Option<int>
  {
    if kind == Fc then r.fcDate else r.obsDate
  }

  function ValueOf(r: SheetRow, kind: Kind): Cell
  {
    if kind == Fc then r.fcValue else r.obsValue
  }

  /** The rows `dropna()` keeps: date and value both present. */
  function IsComplete(kind: Kind): SheetRow -> bool
  {
    (r: SheetRow) => DateOf(r, kind).Some? && !ValueOf(r, kind).Missing?
  }

  /** `pd.to_numeric(errors='coerce')`: numbers stay, text is read as a float, anything else is missing. */
  function ToNumeric(c: Cell): Option<real>
  {
    match c
    case Num(x) => Some(x)
    case Str(s) =>
      var p := Text.ParseFloat(s);
      if p.Some? && p.value.Finite? then Some(p.value.r) else None
    case _ => None
  }

  /** One cleaned row: its date and its wind speed, missing when the value did not parse. */
  datatype Sample = Sample(date: int, ws: Option<real>)

  function SampleOf(r: SheetRow, kind: Kind): Sample
    requires DateOf(r, kind).Some?
  {
    Sample(DateOf(r, kind).value, ToNumeric(ValueOf(r, kind)))
  }

  /** The complete rows, in order, with their values coerced. */
  function Clean(sheet: seq<SheetRow>, kind: Kind): seq<Sample>
  {
    var c := Seqs.Filter(sheet, IsComplete(kind));
    seq(|c|, i requires 0 <= i < |c| => SampleOf(c[i], kind))
  }

  /**
   * Cleaning keeps exactly the rows with a date and a value, and no others; a value that does
   * not parse stays, as a missing speed.
   */
  lemma CleanSpec(sheet: seq<SheetRow>, kind: Kind)
    ensures |Clean(sheet, kind)| == Seqs.Count(sheet, IsComplete(kind))
    ensures forall i :: 0 <= i < |Clean(sheet, kind)| ==>
              exists j :: 0 <= j < |sheet| && IsComplete(kind)(sheet[j]) && Clean(sheet, kind)[i] == SampleOf(sheet[j], kind)
    ensures forall j :: 0 <= j < |sheet| && IsComplete(kind)(sheet[j]) ==> SampleOf(sheet[j], kind) in Clean(sheet, kind)
  {
    var c := Seqs.Filter(sheet, IsComplete(kind));
    var r := Clean(sheet, kind);
    Seqs.FilterCount(sheet, IsComplete(kind));
    forall i | 0 <= i < |r|
      ensures exists j :: 0 <= j < |sheet| && IsComplete(kind)(sheet[j]) && r[i] == SampleOf(sheet[j], kind)
    {
      var j :| 0 <= j < |sheet| && sheet[j] == c[i];
      assert r[i] == SampleOf(sheet[j], kind);
    }
    forall j | 0 <= j < |sheet| && IsComplete(kind)(sheet[j]) ensures SampleOf(sheet[j], kind) in r {
      assert sheet[j] in c;
      var i :| 0 <= i < |c| && c[i] == sheet[j];
      assert r[i] == SampleOf(sheet[j], kind);
    }
  }

  /** The earliest date. */
  function MinDate(ss: seq<Sample>): (m: int)
    requires ss != []
    ensures exists i :: 0 <= i < |ss| && ss[i].date == m
    ensures forall i :: 0 <= i < |ss| ==> m <= ss[i].date
  {
    if |ss| == 1 then ss[0].date
    else
      var rest := MinDate(ss[1..]);
      assert forall i :: 1 <= i < |ss| ==> ss[i] == ss[1..][i - 1];
      if ss[0].date <= rest then ss[0].date else rest
  }

  /** `strftime('%Y-%m-%d')`: the midnight that starts the day of `t`. */
  function DayOf(t: int): (d: int)
    ensures d % MinutesPerDay == 0 && d <= t < d + MinutesPerDay
  {
    t - t % MinutesPerDay
  }

  /** A row of a forecast frame: date, `ws_fc`, `lead_hour`, `initDate`. */
  datatype FcRow = FcRow(date: int, ws: Option<real>, leadHour: int, initDate: int)

  /**
   * `preProcessing(f, 'fc')`: the cleaned forecast rows numbered 1..n in file order, all
   * stamped with the day of the earliest date. An unreadable workbook raises, and so does a
   * sheet with no complete row, since the earliest date of nothing cannot be formatted.
   */
  function ForecastFrame(sheet: Option<seq<SheetRow>>): Result<seq<FcRow>, string>
  {
    match sheet
    case None => Err("workbook cannot be read")
    case Some(rows) =>
      var ss := Clean(rows, Fc);
      if ss == [] then Err("NaTType does not support strftime")
      else
        var init := DayOf(MinDate(ss));
        Ok(seq(|ss|, i requires 0 <= i < |ss| => FcRow(ss[i].date, ss[i].ws, i + 1, init)))
  }

  /** `preProcessing(f, 'obs')`: the cleaned observation rows, with no lead hour or issue date. */
  function ObservationFrame(sheet: Option<seq<SheetRow>>): Result<seq<Sample>, string>
  {
    match sheet
    case None => Err("workbook cannot be read")
    case Some(rows) => Ok(Clean(rows, Obs))
  }

  /**
   * A forecast frame exists exactly when the workbook reads and has a complete forecast row.
   * Its rows are the cleaned rows in order, with lead hours 1..n; every row carries the same
   * issue date, the midnight of the earliest forecast date.
   */
  lemma ForecastSpec(sheet: Option<seq<SheetRow>>)
    ensures ForecastFrame(sheet).Ok? <==> sheet.Some? && Clean(sheet.value, Fc) != []
    ensures ForecastFrame(sheet).Ok? ==>
              var ss, v := Clean(sheet.value, Fc), ForecastFrame(sheet).value;
              && |v| == |ss|
              && (forall i :: 0 <= i < |v| ==> v[i].date == ss[i].date && v[i].ws == ss[i].ws && v[i].leadHour == i + 1)
              && (forall i :: 0 <= i < |v| ==> v[i].initDate == v[0].initDate)
              && v[0].initDate % MinutesPerDay == 0
              && (forall i :: 0 <= i < |v| ==> v[0].initDate <= v[i].date)
              && (exists i :: 0 <= i < |v| && v[i].date < v[0].initDate + MinutesPerDay)
  {
  }

  /**
   * One workbook of the loop. `preProcessing` reads it once per kind, so each read is its own
   * input: the rows of the sheet, or `None` when that read raises.
   */
  datatype Workbook = Workbook(fcRead: Option<seq<SheetRow>>, obsRead: Option<seq<SheetRow>>)

  // ---- The loop over the workbooks ----

  /** The forecast call of this workbook returns. */
  predicate ForecastReads(w: Workbook)
  {
    ForecastFrame(w.fcRead).Ok?
  }

  /** The observation call of this workbook returns. */
  predicate ObservationReads(w: Workbook)
  {
    ObservationFrame(w.obsRead).Ok?
  }

  /** Both calls of this workbook return, the forecast call first. */
  predicate BothRead(w: Workbook)
  {
    ForecastReads(w) && ObservationReads(w)
  }

  /** What the loop has appended to `containerFc` after the given workbooks. */
  function Forecasts(files: seq<Workbook>): seq<seq<FcRow>>
  {
    if files == [] then []
    else
      var last := files[|files| - 1];
      Forecasts(files[..|files| - 1]) + (match ForecastFrame(last.fcRead) case Ok(v) => [v] case Err(_) => [])
  }

  /**
   * What the loop has appended to `containerObs`: a workbook whose forecast raised is skipped
   * before its observations are read.
   */
  function Observations(files: seq<Workbook>): seq<seq<Sample>>
  {
    if files == [] then []
    else
      var last := files[|files| - 1];
      Observations(files[..|files| - 1]) +
        (if ForecastReads(last) && ObservationReads(last) then [ObservationFrame(last.obsRead).value] else [])
  }

  /**
   * The main loop: for each workbook, append its forecast frame and then its observation
   * frame; a workbook whose call raises is skipped from that call on.
   */
  method CollectFrames(files: seq<Workbook>) returns (containerFc: seq<seq<FcRow>>, containerObs: seq<seq<Sample>>)
    ensures containerFc == Forecasts(files) && containerObs == Observations(files)
  {
    containerFc, containerObs := [], [];
    for n := 0 to |files|
      invariant containerFc == Forecasts(files[..n]) && containerObs == Observations(files[..n])
    {
      assert files[..n + 1][..n] == files[..n];
      match ForecastFrame(files[n].fcRead)
      case Err(_) =>
      case Ok(fc) =>
        containerFc := containerFc + [fc];
        match ObservationFrame(files[n].obsRead)
        case Err(_) =>
        case Ok(obs) =>
          containerObs := containerObs + [obs];
    }
    assert files[..|files|] == files;
  }

  /**
   * `containerFc` holds the forecast frame of each workbook whose forecast call returned, in
   * workbook order, and none of them is empty. `containerObs` holds the observation frames of
   * those of them whose observation call returned too, so it is never longer, and the two
   * have the same length exactly when no workbook failed between its two calls.
   */
  lemma {:induction false} ContainersAligned(files: seq<Workbook>)
    ensures var read := Seqs.Filter(files, ForecastReads);
            && |Forecasts(files)| == |read|
            && forall k :: 0 <= k < |read| ==> Forecasts(files)[k] == ForecastFrame(read[k].fcRead).value != []
    ensures var read := Seqs.Filter(Seqs.Filter(files, ForecastReads), ObservationReads);
            && |Observations(files)| == |read|
            && forall k :: 0 <= k < |read| ==> Observations(files)[k] == ObservationFrame(read[k].obsRead).value
    ensures |Observations(files)| <= |Forecasts(files)| <= |files|
    ensures |Observations(files)| == |Forecasts(files)| <==>
              forall i :: 0 <= i < |files| && ForecastReads(files[i]) ==> files[i].obsRead.Some?
  {
    Seqs.FilterTwice(files, ForecastReads, ObservationReads, BothRead);
    ForecastsRead(files);
    ObservationsRead(files);
    EveryObservationRead(files);
  }

  /** No workbook fails between its two calls exactly when the second selection keeps every row. */
  lemma EveryObservationRead(files: seq<Workbook>)
    ensures var fr := Seqs.Filter(files, ForecastReads);
            |Seqs.Filter(fr, ObservationReads)| == |fr| <==>
              forall i :: 0 <= i < |files| && ForecastReads(files[i]) ==> files[i].obsRead.Some?
  {
    var fr := Seqs.Filter(files, ForecastReads);
    Seqs.FilterKeepsAll(fr, ObservationReads);
    if forall k :: 0 <= k < |fr| ==> ObservationReads(fr[k]) {
      forall i | 0 <= i < |files| && ForecastReads(files[i]) ensures files[i].obsRead.Some? {
        assert files[i] in fr;
      }
    }
    if forall i :: 0 <= i < |files| && ForecastReads(files[i]) ==> files[i].obsRead.Some? {
      forall k | 0 <= k < |fr| ensures ObservationReads(fr[k]) {
        assert fr[k] in files;
      }
    }
  }

  /** `containerFc` is the forecast frames of the workbooks whose forecast call returned. */
  lemma {:induction false} ForecastsRead(files: seq<Workbook>)
    ensures var read := Seqs.Filter(files, ForecastReads);
            && |Forecasts(files)| == |read|
            && forall k :: 0 <= k < |read| ==> Forecasts(files)[k] == ForecastFrame(read[k].fcRead).value != []
  {
    if files != [] {
      var init, last := files[..|files| - 1], files[|files| - 1];
      assert files == init + [last];
      ForecastsRead(init);
      Seqs.FilterConcat(init, [last], ForecastReads);
      ForecastSpec(last.fcRead);
    }
  }

  /** `containerObs` is the observation frames of the workbooks whose two calls both returned. */
  lemma {:induction false} ObservationsRead(files: seq<Workbook>)
    ensures var read := Seqs.Filter(files, BothRead);
            && |Observations(files)| == |read|
            && forall k :: 0 <= k < |read| ==> Observations(files)[k] == ObservationFrame(read[k].obsRead).value
  {
    if files != [] {
      var init, last := files[..|files| - 1], files[|files| - 1];
      assert files == init + [last];
      ObservationsRead(init);
      Seqs.FilterConcat(init, [last], BothRead);
    }
  }

  // ---- De-duplication, merge, buckets and sort ----

  function SampleDate(s: Sample): int { s.date }

  /** A row of the merged table: date, `Darwin`, `lead_hour`, `initDate`, `ws_execute`. */
  datatype Merged = Merged(date: int, darwin: Option<real>, leadHour: Option<int>, initDate: Option<int>, execute: Option<real>)

  /** The observation of date `d`, if there is one. */
  function Lookup(obs: seq<Sample>, d: int): (r: Option<Sample>)
    ensures r.Some? ==> r.value in obs && r.value.date == d
    ensures r.None? <==> forall j :: 0 <= j < |obs| ==> obs[j].date != d
  {
    if obs == [] then None
    else if obs[0].date == d then Some(obs[0])
    else
      assert forall j :: 1 <= j < |obs| ==> obs[j] == obs[1..][j - 1];
      Lookup(obs[1..], d)
  }

  /** A forecast row with the observation of its date, when there is one. */
  function MergeLeft(f: FcRow, obs: seq<Sample>): Merged
  {
    var execute := match Lookup(obs, f.date) case Some(o) => o.ws case None => None;
    Merged(f.date, f.ws, Some(f.leadHour), Some(f.initDate), execute)
  }

  /** An observation no forecast row shares a date with. */
  function Unmatched(fc: seq<FcRow>): Sample -> bool
  {
    (o: Sample) => forall i :: 0 <= i < |fc| ==> fc[i].date != o.date
  }

  function MergeRight(o: Sample): Merged
  {
    Merged(o.date, None, None, None, o.ws)
  }

  /**
   * The rows of `pd.merge(fc, obs, on='date', how='outer')` with at most one observation per
   * date, before pandas orders them: every forecast row with its observation, then the
   * observations no forecast shares a date with.
   */
  function MergeJoin(fc: seq<FcRow>, obs: seq<Sample>): (m: seq<Merged>)
    ensures |m| == |fc| + |Seqs.Filter(obs, Unmatched(fc))|
    ensures forall i :: 0 <= i < |fc| ==> m[i] == MergeLeft(fc[i], obs)
    ensures forall j :: 0 <= j < |Seqs.Filter(obs, Unmatched(fc))| ==>
              m[|fc| + j] == MergeRight(Seqs.Filter(obs, Unmatched(fc))[j])
  {
    var right := Seqs.Filter(obs, Unmatched(fc));
    seq(|fc|, i requires 0 <= i < |fc| => MergeLeft(fc[i], obs)) +
    seq(|right|, j requires 0 <= j < |right| => MergeRight(right[j]))
  }

  function MergedDateLe(a: Merged, b: Merged): bool
  {
    a.date <= b.date
  }

  /**
   * `pd.merge(fc, obs, on='date', how='outer')`: an outer merge sorts its rows by the key, and
   * rows of the same date keep their join order, so this is a stable sort of the join by date.
   */
  function MergeOuter(fc: seq<FcRow>, obs: seq<Sample>): seq<Merged>
  {
    Sorting.SortBy(MergeJoin(fc, obs), MergedDateLe)
  }

  /**
   * The outer merge holds the joined rows, each as often, in ascending date order; the rows
   * of one date keep their join order.
   */
  lemma MergeOuterSpec(fc: seq<FcRow>, obs: seq<Sample>)
    ensures multiset(MergeOuter(fc, obs)) == multiset(MergeJoin(fc, obs))
    ensures Sorting.Sorted(MergeOuter(fc, obs), MergedDateLe)
    ensures forall z :: Seqs.Filter(MergeOuter(fc, obs), Sorting.EquivTo(MergedDateLe, z)) ==
                        Seqs.Filter(MergeJoin(fc, obs), Sorting.EquivTo(MergedDateLe, z))
  {
    Sorting.IntLeTotal();
    Sorting.ByKeyTotal((m: Merged) => m.date, Sorting.IntLe);
    assert Sorting.TotalPreorder(MergedDateLe);
    Sorting.SortBySorted(MergeJoin(fc, obs), MergedDateLe);
    forall z {
      Sorting.SortByStable(MergeJoin(fc, obs), MergedDateLe, z);
    }
  }

  /**
   * The join keeps every forecast row, in order, with its lead hour and issue date, paired
   * with the speed of the observation of the same date when there is one; after them come
   * exactly the observations whose date no forecast has, with no forecast part.
   */
  lemma MergeRows(fc: seq<FcRow>, obs: seq<Sample>)
    ensures var m, right := MergeJoin(fc, obs), Seqs.Filter(obs, Unmatched(fc));
            && |m| == |fc| + |right|
            && (forall i :: 0 <= i < |fc| ==>
                  && m[i].date == fc[i].date && m[i].darwin == fc[i].ws
                  && m[i].leadHour == Some(fc[i].leadHour) && m[i].initDate == Some(fc[i].initDate)
                  && (forall j :: 0 <= j < |obs| && obs[j].date == fc[i].date && Seqs.KeysDistinct(obs, SampleDate) ==>
                        m[i].execute == obs[j].ws))
            && (forall j :: 0 <= j < |right| ==>
                  && m[|fc| + j].date == right[j].date && m[|fc| + j].execute == right[j].ws
                  && m[|fc| + j].leadHour.None? && m[|fc| + j].initDate.None?
                  && forall i :: 0 <= i < |fc| ==> fc[i].date != right[j].date)
  {
    var m := MergeJoin(fc, obs);
    forall i, j | 0 <= i < |fc| && 0 <= j < |obs| && obs[j].date == fc[i].date && Seqs.KeysDistinct(obs, SampleDate)
      ensures m[i].execute == obs[j].ws
    {
      var o := Lookup(obs, fc[i].date);
      var k :| 0 <= k < |obs| && obs[k] == o.value;
      assert SampleDate(obs[k]) == SampleDate(obs[j]);
    }
  }

  /** The merged dates are exactly the dates of either side. */
  lemma MergeCovers(fc: seq<FcRow>, obs: seq<Sample>, d: int)
    ensures (exists i :: 0 <= i < |MergeOuter(fc, obs)| && MergeOuter(fc, obs)[i].date == d) <==>
            (exists i :: 0 <= i < |fc| && fc[i].date == d) || (exists j :: 0 <= j < |obs| && obs[j].date == d)
  {
    MergeOuterSpec(fc, obs);
    Seqs.PermutationExists(MergeOuter(fc, obs), MergeJoin(fc, obs), (m: Merged) => m.date == d);
    JoinCovers(fc, obs, d);
  }

  /** The joined dates are exactly the dates of either side. */
  lemma JoinCovers(fc: seq<FcRow>, obs: seq<Sample>, d: int)
    ensures (exists i :: 0 <= i < |MergeJoin(fc, obs)| && MergeJoin(fc, obs)[i].date == d) <==>
            (exists i :: 0 <= i < |fc| && fc[i].date == d) || (exists j :: 0 <= j < |obs| && obs[j].date == d)
  {
    if exists i :: 0 <= i < |MergeJoin(fc, obs)| && MergeJoin(fc, obs)[i].date == d {
      var i :| 0 <= i < |MergeJoin(fc, obs)| && MergeJoin(fc, obs)[i].date == d;
      MergedDateFrom(fc, obs, i);
    }
    if exists i :: 0 <= i < |fc| && fc[i].date == d {
      var i :| 0 <= i < |fc| && fc[i].date == d;
      assert MergeJoin(fc, obs)[i].date == d;
    } else if exists j :: 0 <= j < |obs| && obs[j].date == d {
      var j :| 0 <= j < |obs| && obs[j].date == d;
      ObservationMerged(fc, obs, j);
    }
  }

  /** A merged row's date is the date of a forecast row or of an observation. */
  lemma MergedDateFrom(fc: seq<FcRow>, obs: seq<Sample>, i: nat)
    requires i < |MergeJoin(fc, obs)|
    ensures (exists k :: 0 <= k < |fc| && fc[k].date == MergeJoin(fc, obs)[i].date) ||
            (exists k :: 0 <= k < |obs| && obs[k].date == MergeJoin(fc, obs)[i].date)
  {
    var right := Seqs.Filter(obs, Unmatched(fc));
    if i >= |fc| {
      assert right[i - |fc|] in obs;
      var k :| 0 <= k < |obs| && obs[k] == right[i - |fc|];
      assert obs[k].date == MergeJoin(fc, obs)[i].date;
    }
  }

  /** An observation whose date no forecast has appears among the merged rows. */
  lemma ObservationMerged(fc: seq<FcRow>, obs: seq<Sample>, j: nat)
    requires j < |obs| && forall i :: 0 <= i < |fc| ==> fc[i].date != obs[j].date
    ensures exists i :: 0 <= i < |MergeJoin(fc, obs)| && MergeJoin(fc, obs)[i].date == obs[j].date
  {
    var right := Seqs.Filter(obs, Unmatched(fc));
    assert Unmatched(fc)(obs[j]);
    assert obs[j] in right;
    var k :| 0 <= k < |right| && right[k] == obs[j];
    assert MergeJoin(fc, obs)[|fc| + k].date == obs[j].date;
  }

  /** `f'Day {k:02d}'`. */
  function DayLabel(k: nat): string
    requires k < 100
  {
    "Day " + Text.TwoDigits(k)
  }

  /**
   * `pd.cut(lead_hour, bins=[0, 24, ..., 240])`: the right-closed bin `(24b, 24(b+1)]` is
   * labelled `Day {b+1:02d}`; a missing lead hour, or one outside `(0, 240]`, gets no label.
   */
  function LeadDays(h: Option<int>): Option<string>
  {
    match h
    case None => None
    case Some(x) => if 0 < x <= 240 then Some(DayLabel((x - 1) / 24 + 1)) else None
  }

  lemma DayLabelInjective(j: nat, k: nat)
    requires j < 100 && k < 100 && DayLabel(j) == DayLabel(k)
    ensures j == k
  {
    assert DayLabel(j)[4..] == Text.TwoDigits(j);
    assert DayLabel(k)[4..] == Text.TwoDigits(k);
  }

  /** Lead hour `h` falls in bin `b` exactly when it is labelled `Day {b+1:02d}`. */
  lemma LeadDaysBins(h: int, b: nat)
    requires b < 10
    ensures LeadDays(Some(h)) == Some(DayLabel(b + 1)) <==> 24 * b < h <= 24 * (b + 1)
  {
    if 24 * b < h <= 24 * (b + 1) {
      assert (h - 1) / 24 == b;
    }
    if LeadDays(Some(h)) == Some(DayLabel(b + 1)) {
      assert 0 < h <= 240;
      DayLabelInjective((h - 1) / 24 + 1, b + 1);
    }
  }

  /** A row is left without a label exactly when its lead hour is missing or outside `(0, 240]`. */
  lemma LeadDaysUnlabelled(h: Option<int>)
    ensures LeadDays(h).None? <==> h.None? || h.value <= 0 || h.value > 240
  {
  }

  /** A merged row with its `lead_days` label. */
  datatype Reconciled = Reconciled(row: Merged, leadDays: Option<string>)

  /** `sort_values(['initDate', 'date', 'lead_hour'])`, missing values last in each key. */
  function ReconciledLe(a: Reconciled, b: Reconciled): bool
  {
    Sorting.LexLe(Sorting.OptIntLe, DateLeadLe, (a.row.initDate, (a.row.date, a.row.leadHour)), (b.row.initDate, (b.row.date, b.row.leadHour)))
  }

  function DateLeadLe(x: (int, Option<int>), y: (int, Option<int>)): bool
  {
    Sorting.LexLe(Sorting.IntLe, Sorting.OptIntLe, x, y)
  }

  lemma ReconciledLeTotal()
    ensures Sorting.TotalPreorder(ReconciledLe)
  {
    Sorting.IntLeTotal();
    Sorting.OptIntLeTotal();
    Sorting.LexLeTotal(Sorting.IntLe, Sorting.OptIntLe);
    assert Sorting.TotalPreorder(DateLeadLe);
    Sorting.LexLeTotal(Sorting.OptIntLe, DateLeadLe);
  }

  function Label(m: seq<Merged>): (r: seq<Reconciled>)
    ensures |r| == |m| && forall i :: 0 <= i < |m| ==> r[i].row == m[i]
    ensures forall x :: x in r ==> x.leadDays == LeadDays(x.row.leadHour)
  {
    seq(|m|, i requires 0 <= i < |m| => Reconciled(m[i], LeadDays(m[i].leadHour)))
  }

  /**
   * Lines 67-73: concatenate the containers, keep the first observation of each date, merge,
   * label and sort. Concatenating an empty list raises.
   */
  function Reconcile(containerFc: seq<seq<FcRow>>, containerObs: seq<seq<Sample>>): Result<seq<Reconciled>, string>
  {
    if containerFc == [] || containerObs == [] then Err("No objects to concatenate")
    else
      var fc := Seqs.Flatten(containerFc);
      var obs := Seqs.DedupFirst(Seqs.Flatten(containerObs), SampleDate);
      Ok(Sorting.SortBy(Label(MergeOuter(fc, obs)), ReconciledLe))
  }

  /** The observations keep one row per date, the first one, and lose no date. */
  lemma ObservationsUnique(containerObs: seq<seq<Sample>>)
    ensures var all := Seqs.Flatten(containerObs);
            var obs := Seqs.DedupFirst(all, SampleDate);
            && Seqs.KeysDistinct(obs, SampleDate)
            && (forall i :: 0 <= i < |all| ==> Seqs.HasKey(obs, SampleDate, all[i].date))
            && (forall x :: x in obs ==> Seqs.FirstOfKey(all, SampleDate, x))
  {
    var all := Seqs.Flatten(containerObs);
    Seqs.DedupFirstDistinct(all, SampleDate);
    Seqs.DedupFirstCovers(all, SampleDate);
    Seqs.DedupFirstKeepsFirst(all, SampleDate);
  }

  /**
   * The reconciled table is the labelled merge, reordered by issue date, date and lead hour
   * with missing keys last; every row's label is the bucket of its own lead hour.
   */
  lemma ReconcileSpec(containerFc: seq<seq<FcRow>>, containerObs: seq<seq<Sample>>)
    ensures Reconcile(containerFc, containerObs).Err? <==> containerFc == [] || containerObs == []
    ensures Reconcile(containerFc, containerObs).Ok? ==>
              var out := Reconcile(containerFc, containerObs).value;
              var m := MergeOuter(Seqs.Flatten(containerFc), Seqs.DedupFirst(Seqs.Flatten(containerObs), SampleDate));
              && multiset(out) == multiset(Label(m))
              && Sorting.Sorted(out, ReconciledLe)
              && forall i :: 0 <= i < |out| ==> out[i].leadDays == LeadDays(out[i].row.leadHour)
  {
    if containerFc != [] && containerObs != [] {
      var m := MergeOuter(Seqs.Flatten(containerFc), Seqs.DedupFirst(Seqs.Flatten(containerObs), SampleDate));
      SortedLabels(m);
    }
  }

  /** Sorting the labelled rows keeps them, orders them, and keeps every label its row's bucket. */
  lemma SortedLabels(m: seq<Merged>)
    ensures var out := Sorting.SortBy(Label(m), ReconciledLe);
            && multiset(out) == multiset(Label(m))
            && Sorting.Sorted(out, ReconciledLe)
            && forall i :: 0 <= i < |out| ==> out[i].leadDays == LeadDays(out[i].row.leadHour)
  {
    var out := Sorting.SortBy(Label(m), ReconciledLe);
    ReconciledLeTotal();
    Sorting.SortBySorted(Label(m), ReconciledLe);
    forall i | 0 <= i < |out| ensures out[i].leadDays == LeadDays(out[i].row.leadHour) {
      assert out[i] in multiset(Label(m));
    }
  }
}
