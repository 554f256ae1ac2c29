/**
 * The data-selection logic the three Dash apps (`app/app3.py`, `app/tester.py`, `app/app.py`)
 * share: choosing the first dataset path that exists, checking and padding columns, the wind
 * farm selector, the plot subsets, the metric-card trend and the theme switch. The
 * differences between the apps are parameters here; each app's own composition is in its
 * module.
 */
module Dashboard {
  import opened Wrappers
  import opened Frames
  import Seqs
  import Text

  // ---- Choosing a dataset path ----

  /** `p and os.path.exists(p)`: an unset variable (`None`) and the empty string are falsy. */
  predicate Qualifies(p: Option<string>, exists_: string -> bool)
  {
    p.Some? && p.value != "" && exists_(p.value)
  }

  /**
   * `next((p for p in candidates if p and os.path.exists(p)), None)`: the first candidate that
   * qualifies; the filesystem is the predicate `exists_`.
   */
  function FirstExisting(candidates: seq<Option<string>>, exists_: string -> bool): (r: Option<string>)
    ensures r.None? <==> forall k :: 0 <= k < |candidates| ==> !Qualifies(candidates[k], exists_)
    ensures r.Some? ==> exists k :: 0 <= k < |candidates| && candidates[k] == r && Qualifies(r, exists_) &&
                                    forall j :: 0 <= j < k ==> !Qualifies(candidates[j], exists_)
  {
    if candidates == [] then None
    else if Qualifies(candidates[0], exists_) then
      assert candidates[0] == candidates[0];
      candidates[0]
    else
      var r := FirstExisting(candidates[1..], exists_);
      assert forall k :: 1 <= k < |candidates| ==> candidates[k] == candidates[1..][k - 1];
      if r.Some? then
        var k :| 0 <= k < |candidates[1..]| && candidates[1..][k] == r && Qualifies(r, exists_) &&
                 forall j :: 0 <= j < k ==> !Qualifies(candidates[1..][j], exists_);
        assert candidates[k + 1] == r;
        r
      else r
  }

  /** The generation candidates: the `DATASET_PATH` override, then the three fixed paths. */
  function GenerationCandidates(env: Option<string>): seq<Option<string>>
  {
    [env, Some("../dataset/currentGen.parquet"), Some("./dataset/currentGen.parquet"),
     Some("/opt/render/project/dataset/currentGen.parquet")]
  }

  /** The wind-forecast candidates: the `WIND_FCS_PATH` override, then the three fixed paths. */
  function WindCandidates(env: Option<string>): seq<Option<string>>
  {
    [env, Some("../dataset/windSpeedFcs.parquet"), Some("./dataset/windSpeedFcs.parquet"),
     Some("/opt/render/project/dataset/windSpeedFcs.parquet")]
  }

  /** The override wins whenever it is set, non-empty and exists. */
  lemma OverrideFirst(env: Option<string>, exists_: string -> bool)
    requires Qualifies(env, exists_)
    ensures FirstExisting(GenerationCandidates(env), exists_) == env
    ensures FirstExisting(WindCandidates(env), exists_) == env
  {
    assert GenerationCandidates(env)[0] == env;
    assert WindCandidates(env)[0] == env;
  }

  // ---- Loading the generation table ----

  /** Why loading stops: the exceptions the apps raise at import time. */
  datatype LoadError =
    | FileNotFound(message: string)
    | MissingColumns(missing: set<string>)
    | UnparseableDate
    | MissingKey(column: string)

  function ColumnSet(cols: seq<string>): set<string>
  {
    set c | c in cols
  }

  const GenerationColumns: set<string> := {"name", "date", "power"}
  const WindColumns: seq<string> := ["name", "date", "wwind100", "model"]

  /**
   * `pd.to_datetime` on one cell, for tables whose dates arrive as timestamps: a timestamp or
   * a missing cell stays as it is; anything else is unparseable, which `errors="coerce"`
   * turns into a missing cell and the strict call reports.
   */
  function ToDatetime(c: Cell, coerce: bool): Result<Cell, LoadError>
  {
    if c.Time? || c.Missing? then Ok(c)
    else if coerce then Ok(Missing)
    else Err(UnparseableDate)
  }

  /** `df[col] = pd.to_datetime(df[col], ...)` on a frame that has column `col` at position `k`. */
  function ConvertDates(f: Frame, k: nat, coerce: bool): (r: Result<Frame, LoadError>)
    requires f.Valid() && k < |f.columns|
  {
    var conv := MapAll(f.rows, (row: Row) => if |row| == |f.columns| then
                         match ToDatetime(row[k], coerce)
                         case Ok(c) => Ok(row[k := c])
                         case Err(e) => Err(e)
                       else Ok(row));
    match conv
    case Err(_) => Err(UnparseableDate)
    case Ok(rows) => Ok(Frame(f.columns, rows))
  }

  /**
   * Converting a date column keeps the columns and the other cells; every converted cell is
   * a timestamp or missing, and the strict conversion fails exactly on a cell that is neither.
   */
  lemma ConvertDatesSpec(f: Frame, k: nat, coerce: bool)
    requires f.Valid() && k < |f.columns|
    ensures var r := ConvertDates(f, k, coerce);
            && (r.Err? <==> !coerce && exists i :: 0 <= i < |f.rows| && !f.rows[i][k].Time? && !f.rows[i][k].Missing?)
            && (r.Err? ==> r.error == UnparseableDate)
            && (r.Ok? ==> && r.value.Valid() && r.value.columns == f.columns && |r.value.rows| == |f.rows|
                          && forall i :: 0 <= i < |f.rows| ==>
                               && (r.value.rows[i][k].Time? || r.value.rows[i][k].Missing?)
                               && (f.rows[i][k].Time? || f.rows[i][k].Missing? ==> r.value.rows[i][k] == f.rows[i][k])
                               && (!f.rows[i][k].Time? && !f.rows[i][k].Missing? ==> r.value.rows[i][k] == Missing)
                               && forall j :: 0 <= j < |f.columns| && j != k ==> r.value.rows[i][j] == f.rows[i][j])
  {
  }

  /** Where the strict conversion succeeds, coercing gives the same table. */
  lemma StrictAgreesWithCoerced(f: Frame, k: nat)
    requires f.Valid() && k < |f.columns|
    requires ConvertDates(f, k, false).Ok?
    ensures ConvertDates(f, k, true) == ConvertDates(f, k, false)
  {
    ConvertDatesSpec(f, k, false);
    ConvertDatesSpec(f, k, true);
    var a := ConvertDates(f, k, true).value;
    var b := ConvertDates(f, k, false).value;
    forall i | 0 <= i < |f.rows|
      ensures a.rows[i] == b.rows[i]
    {
      assert forall j :: 0 <= j < |f.columns| ==> a.rows[i][j] == b.rows[i][j];
    }
    assert a.rows == b.rows;
  }

  /** `pd.to_datetime(..., errors="coerce")`, which never fails: the frame with column `k` coerced. */
  function Coerced(f: Frame, k: nat): (g: Frame)
    requires f.Valid() && k < |f.columns|
    ensures ConvertDates(f, k, true) == Ok(g)
    ensures g.Valid() && g.columns == f.columns && |g.rows| == |f.rows|
    ensures forall i :: 0 <= i < |f.rows| ==>
              && (g.rows[i][k].Time? || g.rows[i][k].Missing?)
              && g.rows[i][k] == (if f.rows[i][k].Time? then f.rows[i][k] else Missing)
              && forall j :: 0 <= j < |f.columns| && j != k ==> g.rows[i][j] == f.rows[i][j]
  {
    ConvertDatesSpec(f, k, true);
    ConvertDates(f, k, true).value
  }

  /**
   * The generation check: a table without one of `name`, `date`, `power` is refused with the
   * set of missing names; otherwise its date column is converted.
   */
  function CheckGeneration(f: Frame, coerce: bool): (r: Result<Frame, LoadError>)
    requires f.Valid()
  {
    var missing := GenerationColumns - ColumnSet(f.columns);
    if missing != {} then Err(MissingColumns(missing))
    else
      assert "date" !in missing;
      ConvertDates(f, IndexOf(f.columns, "date").value, coerce)
  }

  /**
   * The check refuses exactly the tables lacking a required column and names exactly the
   * missing ones; a table it accepts has all three.
   */
  lemma CheckGenerationSpec(f: Frame, coerce: bool)
    requires f.Valid()
    ensures var r := CheckGeneration(f, coerce);
            && (r.Err? && r.error.MissingColumns? <==> !(GenerationColumns <= ColumnSet(f.columns)))
            && (r.Err? && r.error.MissingColumns? ==> forall c :: c in r.error.missing <==> c in GenerationColumns && c !in f.columns)
            && (r.Err? ==> r.error.MissingColumns? || (!coerce && r.error == UnparseableDate))
            && (r.Ok? ==> r.value.columns == f.columns && |r.value.rows| == |f.rows| && GenerationColumns <= ColumnSet(r.value.columns))
  {
    var missing := GenerationColumns - ColumnSet(f.columns);
    if missing == {} {
      forall c | c in GenerationColumns ensures c in ColumnSet(f.columns) {
        assert c !in missing;
      }
      assert "date" in ColumnSet(f.columns);
      var k := IndexOf(f.columns, "date").value;
      ConvertDatesSpec(f, k, coerce);
    } else {
      var c :| c in missing;
      assert c in GenerationColumns && c !in ColumnSet(f.columns);
      assert CheckGeneration(f, coerce) == Err(MissingColumns(missing));
    }
  }

  /**
   * Loading the generation table at start-up: the first existing candidate is read (`read`
   * stands for `pd.read_parquet`) and checked; without one the app stops with `notFound`.
   * app3 coerces bad dates to missing, tester parses them strictly.
   */
  function LoadGeneration(env: Option<string>, exists_: string -> bool, read: string -> Frame,
                          notFound: string, coerce: bool): (r: Result<Frame, LoadError>)
    requires forall p :: read(p).Valid()
  {
    match FirstExisting(GenerationCandidates(env), exists_)
    case None => Err(FileNotFound(notFound))
    case Some(p) => CheckGeneration(read(p), coerce)
  }

  /**
   * Loading fails with `notFound` exactly when no candidate qualifies; a set, existing
   * override is the file read; a loaded table comes from a qualifying candidate, keeps its
   * columns and has the three required ones.
   */
  lemma LoadGenerationSpec(env: Option<string>, exists_: string -> bool, read: string -> Frame,
                           notFound: string, coerce: bool)
    requires forall p :: read(p).Valid()
    ensures var r := LoadGeneration(env, exists_, read, notFound, coerce);
            && (r.Err? && r.error.FileNotFound? <==>
                  forall k :: 0 <= k < |GenerationCandidates(env)| ==> !Qualifies(GenerationCandidates(env)[k], exists_))
            && (r.Err? && r.error.FileNotFound? ==> r.error.message == notFound)
            && (r.Err? ==> r.error.FileNotFound? || r.error.MissingColumns? || (!coerce && r.error == UnparseableDate))
            && (Qualifies(env, exists_) ==> r == CheckGeneration(read(env.value), coerce))
            && (r.Ok? ==> exists p :: Some(p) in GenerationCandidates(env) && Qualifies(Some(p), exists_) &&
                                      r.value.columns == read(p).columns &&
                                      |r.value.rows| == |read(p).rows| &&
                                      GenerationColumns <= ColumnSet(r.value.columns))
  {
    var cands := GenerationCandidates(env);
    var first := FirstExisting(cands, exists_);
    if Qualifies(env, exists_) {
      OverrideFirst(env, exists_);
    }
    if first.Some? {
      var p := first.value;
      CheckGenerationSpec(read(p), coerce);
      var k :| 0 <= k < |cands| && cands[k] == first && Qualifies(first, exists_);
      assert Some(p) in cands;
    }
  }

  /**
   * The strict and the coercing loaders agree wherever the strict one succeeds: tester's
   * table, when it loads, is app3's.
   */
  lemma StrictLoadAgrees(env: Option<string>, exists_: string -> bool, read: string -> Frame,
                         strictMessage: string, coerceMessage: string)
    requires forall p :: read(p).Valid()
    requires LoadGeneration(env, exists_, read, strictMessage, false).Ok?
    ensures LoadGeneration(env, exists_, read, coerceMessage, true) == LoadGeneration(env, exists_, read, strictMessage, false)
  {
    var p := FirstExisting(GenerationCandidates(env), exists_).value;
    var f := read(p);
    assert GenerationColumns <= ColumnSet(f.columns) by {
      CheckGenerationSpec(f, false);
    }
    assert "date" in ColumnSet(f.columns);
    StrictAgreesWithCoerced(f, IndexOf(f.columns, "date").value);
  }

  // ---- Padding the wind table ----

  /**
   * `for col in (required - set(df.columns)): df[col] = <empty series>`: every required column
   * the frame lacks is added, all missing, after the existing ones. A Python set has no fixed
   * order; the columns are added in the order of `required`.
   */
  method PadColumns(f: Frame, required: seq<string>) returns (g: Frame)
    requires f.Valid()
    ensures g.Valid() && |g.rows| == |f.rows|
    ensures |f.columns| <= |g.columns| && g.columns[..|f.columns|] == f.columns
    ensures forall c :: c in g.columns <==> c in f.columns || c in required
    ensures forall i :: 0 <= i < |g.rows| ==> g.rows[i][..|f.columns|] == f.rows[i]
    ensures forall i, k :: 0 <= i < |g.rows| && |f.columns| <= k < |g.columns| ==> g.rows[i][k] == Missing
  {
    g := f;
    for n := 0 to |required|
      invariant g.Valid() && |g.rows| == |f.rows|
      invariant |f.columns| <= |g.columns| && g.columns[..|f.columns|] == f.columns
      invariant forall c :: c in g.columns <==> c in f.columns || c in required[..n]
      invariant forall i :: 0 <= i < |g.rows| ==> g.rows[i][..|f.columns|] == f.rows[i]
      invariant forall i, k :: 0 <= i < |g.rows| && |f.columns| <= k < |g.columns| ==> g.rows[i][k] == Missing
    {
      assert required[..n + 1] == required[..n] + [required[n]];
      if required[n] !in g.columns {
        var h := AddMissingColumn(g, required[n]);
        assert forall i :: 0 <= i < |g.rows| ==> h.rows[i] == g.rows[i] + [Missing];
        assert forall i :: 0 <= i < |g.rows| ==> h.rows[i][..|f.columns|] == g.rows[i][..|f.columns|];
        g := h;
      }
    }
    assert required[..|required|] == required;
  }

  /** The wind frame used when no wind file exists: the four wind columns and no rows. */
  function EmptyWind(): (f: Frame)
    ensures f.Valid() && f.IsEmpty()
  {
    Frame(WindColumns, [])
  }

  /**
   * Row `row` of a loaded wind table with columns `cols` holds the file's row `src`, laid out
   * as `from`: under `date` the source date when it is a timestamp and a missing cell
   * otherwise, under every other column the source's own cell, missing where the file lacks
   * the column.
   */
  predicate LoadedRow(from: seq<string>, src: Row, cols: seq<string>, row: Row)
    requires |src| == |from| && |row| == |cols|
  {
    forall c :: c in cols ==>
      CellAt(cols, row, c) ==
        if c == "date" then (if CellAt(from, src, c).Time? then CellAt(from, src, c) else Missing)
        else CellAt(from, src, c)
  }

  /** Row `i` of `g` is the loaded form of row `i` of `src`, whose columns are `from`. */
  predicate LoadedRows(from: seq<string>, src: seq<Row>, g: Frame)
  {
    && |g.rows| == |src|
    && forall i :: 0 <= i < |src| ==>
         |src[i]| == |from| && |g.rows[i]| == |g.columns| && LoadedRow(from, src[i], g.columns, g.rows[i])
  }

  /** Every row of a padded table whose dates are then coerced is a loaded row of its source row. */
  lemma PaddedCoercedRows(f: Frame, g: Frame)
    requires f.Valid() && g.Valid() && |g.rows| == |f.rows|
    requires |f.columns| <= |g.columns| && g.columns[..|f.columns|] == f.columns
    requires forall i :: 0 <= i < |g.rows| ==> g.rows[i][..|f.columns|] == f.rows[i]
    requires forall i, k :: 0 <= i < |g.rows| && |f.columns| <= k < |g.columns| ==> g.rows[i][k] == Missing
    requires "date" in g.columns
    ensures LoadedRows(f.columns, f.rows, Coerced(g, IndexOf(g.columns, "date").value))
  {
    forall i | 0 <= i < |f.rows|
      ensures var h := Coerced(g, IndexOf(g.columns, "date").value);
              |h.rows[i]| == |h.columns| && LoadedRow(f.columns, f.rows[i], h.columns, h.rows[i])
    {
      PaddedCoercedRow(f, g, i);
    }
  }

  /**
   * Padding a frame with missing columns and then coercing its `date` column turns each of its
   * rows into the matching loaded row.
   */
  lemma PaddedCoercedRow(f: Frame, g: Frame, i: nat)
    requires f.Valid() && g.Valid() && i < |f.rows| && |g.rows| == |f.rows|
    requires |f.columns| <= |g.columns| && g.columns[..|f.columns|] == f.columns
    requires g.rows[i][..|f.columns|] == f.rows[i]
    requires forall k :: |f.columns| <= k < |g.columns| ==> g.rows[i][k] == Missing
    requires "date" in g.columns
    ensures var h := Coerced(g, IndexOf(g.columns, "date").value);
            |h.rows[i]| == |h.columns| && LoadedRow(f.columns, f.rows[i], h.columns, h.rows[i])
  {
    var k := IndexOf(g.columns, "date").value;
    var h := Coerced(g, k);
    forall c | c in h.columns
      ensures CellAt(h.columns, h.rows[i], c) ==
                if c == "date" then (if CellAt(f.columns, f.rows[i], c).Time? then CellAt(f.columns, f.rows[i], c) else Missing)
                else CellAt(f.columns, f.rows[i], c)
    {
      PaddedCell(f, g, i, c);
    }
  }

  /** A padded row has the original cell under each original column and a missing one elsewhere. */
  lemma PaddedCell(f: Frame, g: Frame, i: nat, c: string)
    requires f.Valid() && g.Valid() && i < |f.rows| && |g.rows| == |f.rows|
    requires |f.columns| <= |g.columns| && g.columns[..|f.columns|] == f.columns
    requires g.rows[i][..|f.columns|] == f.rows[i]
    requires forall k :: |f.columns| <= k < |g.columns| ==> g.rows[i][k] == Missing
    requires c in g.columns
    ensures CellAt(g.columns, g.rows[i], c) == CellAt(f.columns, f.rows[i], c)
  {
    var p := IndexOf(g.columns, c).value;
    if c in f.columns {
      var q := IndexOf(f.columns, c).value;
      assert g.columns[q] == c;
      IndexOfDistinct(g.columns, q);
      assert g.rows[i][q] == g.rows[i][..|f.columns|][q];
    } else {
      assert p >= |f.columns|;
    }
  }

  // ---- The farm selector ----

  /** `WINDFARM_MAPPING`: selector values "0".."10" and the names they stand for. */
  const WindfarmMapping: map<string, string> := map[
    "0" := "SEIN", "1" := "W.F. Punta Lomitas", "2" := "W.F. Cupisnique",
    "3" := "W.F. Duna", "4" := "W.F. Huambos", "5" := "W.F. Marcona",
    "6" := "W.F. San Juan", "7" := "W.F. Talara", "8" := "W.F. Tres Hermanas",
    "9" := "W.F. Wayra Ext", "10" := "W.F. Wayra I"]

  /** `WINDFARM_MAPPING.get(value, "SEIN")`. */
  function FarmName(value: string): (name: string)
    ensures value !in WindfarmMapping ==> name == "SEIN"
    ensures name in WindfarmMapping.Values
  {
    assert WindfarmMapping["0"] == "SEIN";
    if value in WindfarmMapping then WindfarmMapping[value] else "SEIN"
  }

  /** "SEIN" is what "0" and every value outside the selector give, and no other value gives it. */
  lemma FarmNameSein(value: string)
    ensures FarmName(value) == "SEIN" <==> value == "0" || value !in WindfarmMapping
  {
  }

  /** Different selector values stand for different farms. */
  lemma FarmNameDistinct(a: string, b: string)
    requires a in WindfarmMapping && b in WindfarmMapping && a != b
    ensures FarmName(a) != FarmName(b)
  {
  }

  // ---- Plot subsets ----

  /** `query("name == @name")` on one row. */
  function NameIs(cols: seq<string>, name: string): Row -> bool
  {
    (row: Row) => |row| == |cols| && CellAt(cols, row, "name") == Str(name)
  }

  /**
   * The generation subset of `update_gen_plot` (app3 and tester): the rows of the chosen farm,
   * or an empty date/power frame when there are none.
   */
  function GenSubset(f: Frame, name: string): Frame
    requires f.Valid()
  {
    var s := SelectRows(f, NameIs(f.columns, name));
    if s.IsEmpty() then Frame(["date", "power"], []) else s
  }

  /**
   * The subset holds exactly the farm's rows, in order; when the farm has none (or the table
   * has no columns) it is the empty date/power frame.
   */
  lemma GenSubsetSpec(f: Frame, name: string)
    requires f.Valid()
    ensures var s := GenSubset(f, name);
            && (forall i :: 0 <= i < |s.rows| ==> s.rows[i] in f.rows && NameIs(f.columns, name)(s.rows[i]))
            && (s.IsEmpty() <==> s == Frame(["date", "power"], []))
            && (s.rows == [] <==> |f.columns| == 0 || forall i :: 0 <= i < |f.rows| ==> !NameIs(f.columns, name)(f.rows[i]))
            && (s.rows != [] ==> s.columns == f.columns && s.rows == Seqs.Filter(f.rows, NameIs(f.columns, name)))
  {
    var sel := Seqs.Filter(f.rows, NameIs(f.columns, name));
    if sel != [] {
      assert sel[0] in f.rows;
    }
  }

  /**
   * The wind subset of `update_wind_plot`: the chosen farm's rows (possibly none) when the
   * table is non-empty and has a `name` column, else an empty date/wwind100/model frame.
   */
  function WindSubset(f: Frame, name: string): (s: Frame)
    requires f.Valid()
  {
    if !f.IsEmpty() && "name" in f.columns then SelectRows(f, NameIs(f.columns, name))
    else Frame(["date", "wwind100", "model"], [])
  }

  lemma WindSubsetSpec(f: Frame, name: string)
    requires f.Valid()
    ensures var s := WindSubset(f, name);
            && (f.IsEmpty() || "name" !in f.columns ==> s == Frame(["date", "wwind100", "model"], []))
            && (!f.IsEmpty() && "name" in f.columns ==>
                  s.columns == f.columns && forall row :: row in s.rows <==> row in f.rows && NameIs(f.columns, name)(row))
  {
  }

  // ---- Metric cards ----

  /**
   * The trend of `create_metric_card`: up when the change starts with "+" (the parse is then
   * skipped) or when it parses, without its "+" and "%" signs, to a number >= 0. When the
   * parse fails, `guarded` (app3, tester) makes the trend up; otherwise (app.py) the
   * ValueError escapes.
   */
  function TrendUp(change: string, guarded: bool): Result<bool, string>
  {
    if Text.StartsWith(change, "+") then Ok(true)
    else match Text.ParseFloat(Text.RemoveAll(Text.RemoveAll(change, '+'), '%'))
      case Some(x) => Ok(x.NonNegative())
      case None => if guarded then Ok(true) else Err("could not convert string to float")
  }

  /**
   * The guarded trend never fails and agrees with the unguarded one wherever that succeeds;
   * the unguarded one fails exactly when the change has no leading "+" and does not parse.
   * A change down is one that parses to a negative number or NaN.
   */
  lemma TrendUpSpec(change: string)
    ensures TrendUp(change, true).Ok?
    ensures TrendUp(change, false).Ok? ==> TrendUp(change, true) == TrendUp(change, false)
    ensures TrendUp(change, false).Err? <==>
              !Text.StartsWith(change, "+") && Text.ParseFloat(Text.RemoveAll(Text.RemoveAll(change, '+'), '%')).None?
    ensures TrendUp(change, true) == Ok(false) <==>
              !Text.StartsWith(change, "+") &&
              var x := Text.ParseFloat(Text.RemoveAll(Text.RemoveAll(change, '+'), '%'));
              x.Some? && !x.value.NonNegative()
  {
  }

  /** The three cards the apps show: "+2.5", "+900.5" and "20" are all up. */
  lemma MetricCardsUp()
    ensures TrendUp("+2.5", false) == Ok(true)
    ensures TrendUp("+900.5", false) == Ok(true)
    ensures TrendUp("20", false) == Ok(true)
  {
    assert Text.StartsWith("+2.5", "+");
    assert Text.StartsWith("+900.5", "+");
    assert "20"[..1][0] == '2';
    assert !Text.StartsWith("20", "+");
    Text.RemoveAllAbsent("20", '+');
    Text.RemoveAllAbsent("20", '%');
    assert Text.AllDigits("20");
    Text.ParseFloatDigits("20");
  }

  const FromLastMonth := " from last month"

  /** The card's caption: the change, a "%" unless it already has one, and " from last month". */
  function ChangeText(change: string): (t: string)
  {
    if '%' !in change then change + "%" + FromLastMonth else change + FromLastMonth
  }

  /**
   * The caption always reads `<change>% from last month` or `<change> from last month`, and
   * the part before " from last month" contains a "%"; a change with and without its
   * trailing "%" gives the same caption.
   */
  lemma ChangeTextSpec(change: string)
    ensures var t := ChangeText(change);
            && |t| > |FromLastMonth| && t[|t| - |FromLastMonth|..] == FromLastMonth
            && t[..|change|] == change
            && '%' in t[..|t| - |FromLastMonth|]
            && ('%' !in change ==> ChangeText(change + "%") == t)
  {
    var t := ChangeText(change);
    if '%' !in change {
      assert t[..|t| - |FromLastMonth|] == change + "%";
      assert '%' in change + "%";
      assert (change + "%") + FromLastMonth == change + "%" + FromLastMonth;
    } else {
      assert t[..|t| - |FromLastMonth|] == change;
    }
  }

  // ---- Theme switch ----

  datatype Theme = Cerulean | Superhero

  /** What `toggle_theme` returns: the stylesheet and the `theme-store` data `{"dark": dark}`. */
  datatype ThemeChoice = ThemeChoice(href: Theme, dark: bool)

  /** `bool(switch_value)`: the switch sends `True`, `False` or `None` before it is touched. */
  function Truthy(switchValue: Option<bool>): bool
  {
    switchValue == Some(true)
  }

  function ToggleTheme(switchValue: Option<bool>): (r: ThemeChoice)
  {
    var dark := Truthy(switchValue);
    ThemeChoice(if dark then Superhero else Cerulean, dark)
  }

  /** The dark stylesheet is chosen exactly when the switch is on, and the store says so. */
  lemma ToggleThemeSpec(switchValue: Option<bool>)
    ensures ToggleTheme(switchValue).href == Superhero <==> switchValue == Some(true)
    ensures ToggleTheme(switchValue).dark <==> ToggleTheme(switchValue).href == Superhero
  {
  }
}
