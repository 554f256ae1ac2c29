/**
 * The grid operator's measurement client (src/data/client_coes.py): each response of the
 * measurement service is filtered down to the wind farms, the responses are pooled and
 * de-duplicated per device and day, and the half-hourly slot columns are unpivoted into one
 * generation series per farm, with the Punta Lomitas units summed into one farm.
 *
 * The HTTP request itself is a parameter: a response is `Some(frame)` when the request
 * succeeded and `None` when it raised.
 */
module CoesClient {
  import opened Wrappers
  import opened Frames
  import Seqs
  import Sorting
  import Text

  const NameColumn := "NombreEquipo"
  const DayColumn := "Medifecha"
  const CompanyColumn := "NombreEmpresa"
  const InfoTypeColumn := "Tipoinfoabrev"

  /** Case-insensitive regular-expression alternatives a kept device name must match. */
  const AllowPatterns: seq<string> :=
    ["Cupis", "Dunas", "Huambos", "Marcona", "Lomitas", "Talara", "Hermanas", "Wayra", "C.E."]

  /** Alternatives that exclude a device (television, hydro and solar plants). */
  const DenyPatterns: seq<string> := ["TV", "C.H.", "C.S."]

  /** How many trailing columns of every response are cut off. */
  const TrailingColumns: nat := 48

  /** The result of a request that failed or raised: an empty frame. */
  const NoData := Frame([], [])

  predicate Allowed(name: string) { Text.SearchAny(name, AllowPatterns) }

  predicate Denied(name: string) { Text.SearchAny(name, DenyPatterns) }

  /** A device name survives both filters. */
  predicate Kept(name: string) { Allowed(name) && !Denied(name) }

  /** The text in cell `k` of a row, or "" when there is none. */
  function NameAt(row: Row, k: nat): string
  {
    if k < |row| && row[k].Str? then row[k].s else ""
  }

  /** The cell at position `k` of a row, missing past its end. */
  function CellOr(row: Row, k: nat): Cell
  {
    if k < |row| then row[k] else Missing
  }

  /** The columns `iloc[:, :-48]` keeps. */
  function Trimmed(cols: seq<string>): seq<string>
  {
    if |cols| >= TrailingColumns then cols[..|cols| - TrailingColumns] else []
  }

  // ---- clientCoes ----

  /**
   * One response after `clientCoes`: a non-empty frame keeps the rows whose device name
   * passes both filters, an empty one skips the filters, and either way the last 48 columns
   * go. A missing name column or a name that is not text makes the filter raise, which the
   * function turns into an empty frame.
   */
  function ClientCoes(obj: Frame): (r: Frame)
    requires obj.Valid()
    ensures r.Valid()
    ensures |r.rows| <= |obj.rows|
    ensures r == NoData || r.columns == Trimmed(obj.columns)
  {
    if obj.IsEmpty() then DropLastColumns(obj, TrailingColumns)
    else
      match IndexOf(obj.columns, NameColumn)
      case None => NoData
      case Some(k) =>
        if exists i :: 0 <= i < |obj.rows| && !obj.rows[i][k].Str? then NoData
        else DropLastColumns(FilterNames(obj, k), TrailingColumns)
  }

  /** The allow-list mask, then the deny-list mask, on the name column at position `k`. */
  function FilterNames(obj: Frame, k: nat): (r: Frame)
    requires obj.Valid()
    ensures r.Valid() && r.columns == obj.columns
  {
    var allowed := SelectRows(obj, row => Allowed(NameAt(row, k)));
    SelectRows(allowed, row => !Denied(NameAt(row, k)))
  }

  /**
   * When the filters run, the result holds exactly the rows whose name passes both
   * filters, in their original order, each cut to the kept columns.
   */
  lemma ClientCoesFilters(obj: Frame, k: nat)
    requires obj.Valid() && !obj.IsEmpty()
    requires IndexOf(obj.columns, NameColumn) == Some(k)
    requires forall i :: 0 <= i < |obj.rows| ==> obj.rows[i][k].Str?
    ensures var r := ClientCoes(obj);
            var kept := Seqs.Filter(obj.rows, row => Kept(NameAt(row, k)));
            && r.columns == Trimmed(obj.columns)
            && |r.rows| == |kept|
            && (forall i :: 0 <= i < |kept| ==> r.rows[i] == kept[i][..|r.columns|])
  {
    assert ClientCoes(obj) == DropLastColumns(FilterNames(obj, k), TrailingColumns);
    FilterNamesSpec(obj, k);
  }

  lemma FilterNamesSpec(obj: Frame, k: nat)
    requires obj.Valid()
    ensures FilterNames(obj, k).rows == Seqs.Filter(obj.rows, row => Kept(NameAt(row, k)))
  {
    var allow := (row: Row) => Allowed(NameAt(row, k));
    var notDeny := (row: Row) => !Denied(NameAt(row, k));
    Seqs.FilterTwice(obj.rows, allow, notDeny, row => Kept(NameAt(row, k)));
  }

  /** A kept name matches one of the allowed alternatives and none of the denied ones. */
  lemma KeptSpec(name: string)
    ensures Kept(name) <==>
              && (exists w :: 0 <= w < |AllowPatterns| && Text.Search(name, AllowPatterns[w]))
              && (forall w :: 0 <= w < |DenyPatterns| ==> !Text.Search(name, DenyPatterns[w]))
  {
    Text.SearchAnySpec(name, AllowPatterns);
    Text.SearchAnySpec(name, DenyPatterns);
  }

  /** An empty response skips both filters: only its columns are trimmed. */
  lemma ClientCoesEmpty(obj: Frame)
    requires obj.Valid() && obj.IsEmpty()
    ensures ClientCoes(obj).IsEmpty()
    ensures ClientCoes(obj).columns == Trimmed(obj.columns)
  {
  }

  /** A non-empty response whose device names are not all text yields no data. */
  lemma ClientCoesUntypedNames(obj: Frame, k: nat, i: nat)
    requires obj.Valid() && !obj.IsEmpty()
    requires IndexOf(obj.columns, NameColumn) == Some(k)
    requires i < |obj.rows| && !obj.rows[i][k].Str?
    ensures ClientCoes(obj) == NoData
  {
  }

  // ---- The main block: pooling and de-duplication ----

  /** What `clientCoes` returns for one request. */
  function ClientResult(response: Option<Frame>): (r: Frame)
    requires response.Some? ==> response.value.Valid()
    ensures r.Valid()
  {
    match response
    case None => NoData
    case Some(obj) => ClientCoes(obj)
  }

  predicate ValidResponses(responses: seq<Option<Frame>>)
  {
    forall i :: 0 <= i < |responses| && responses[i].Some? ==> responses[i].value.Valid()
  }

  /** `clientCoes` for every request, in request order. */
  function Results(responses: seq<Option<Frame>>): (rs: seq<Frame>)
    requires ValidResponses(responses)
    ensures |rs| == |responses|
    ensures forall i :: 0 <= i < |rs| ==> rs[i].Valid()
  {
    seq(|responses|, i requires 0 <= i < |responses| => ClientResult(responses[i]))
  }

  function NonEmpty(f: Frame): bool { !f.IsEmpty() }

  /** The non-empty results, in request order: the `container` of the main block. */
  function Collected(responses: seq<Option<Frame>>): seq<Frame>
    requires ValidResponses(responses)
  {
    Seqs.Filter(Results(responses), NonEmpty)
  }

  /**
   * The container holds valid, non-empty frames, one per request that produced rows, and it
   * is empty exactly when every request came back empty.
   */
  lemma CollectedSpec(responses: seq<Option<Frame>>)
    requires ValidResponses(responses)
    ensures var c := Collected(responses);
            && (forall j :: 0 <= j < |c| ==> c[j].Valid() && !c[j].IsEmpty())
            && |c| <= |responses|
            && (c == [] <==> forall i :: 0 <= i < |responses| ==> ClientResult(responses[i]).IsEmpty())
  {
    var rs := Results(responses);
    var c := Collected(responses);
    forall j | 0 <= j < |c| ensures c[j].Valid() && !c[j].IsEmpty() {
      var p :| 0 <= p < |rs| && rs[p] == c[j];
    }
    if c == [] {
      forall i | 0 <= i < |responses| ensures ClientResult(responses[i]).IsEmpty() {
        assert rs[i] == ClientResult(responses[i]);
        if NonEmpty(rs[i]) {
          assert rs[i] in c;
        }
      }
    } else {
      var p :| 0 <= p < |rs| && rs[p] == c[0];
      assert !ClientResult(responses[p]).IsEmpty();
    }
  }

  /** Columns the main block discards after the de-duplication. */
  const DroppedColumns: set<string> :=
    {"TensionEquipo", "CodigoUbicacion", "NombreUbicacion", "index", "$id"}

  /** The key `drop_duplicates` works on inside each device's group. */
  function DeviceDay(k: nat, m: nat): Row -> (Cell, Cell)
  {
    row => (CellOr(row, k), CellOr(row, m))
  }

  /** Device order of `groupby(NombreEquipo)`: by name, stable within a device. */
  function ByName(k: nat): (Row, Row) -> bool
  {
    (a, b) => Sorting.StrLe(NameAt(a, k), NameAt(b, k))
  }

  /**
   * `groupby(NombreEquipo).apply(drop_duplicates(subset=[Medifecha], keep='last'))`:
   * rows without a device name belong to no group and vanish, every device keeps the last
   * row of each day, and the groups come out in name order.
   */
  function LatestPerDeviceDay(rows: seq<Row>, k: nat, m: nat): seq<Row>
  {
    Sorting.SortBy(Seqs.DedupLast(Named(rows, k), DeviceDay(k, m)), ByName(k))
  }

  /** The rows with a device name: `groupby` drops the rows whose key is missing. */
  function Named(rows: seq<Row>, k: nat): seq<Row>
  {
    Seqs.Filter(rows, row => CellOr(row, k).Str?)
  }

  lemma LatestIsPermutation(rows: seq<Row>, k: nat, m: nat)
    ensures multiset(LatestPerDeviceDay(rows, k, m)) == multiset(Seqs.DedupLast(Named(rows, k), DeviceDay(k, m)))
  {
  }

  /** After the de-duplication no two rows share a device and a day. */
  lemma LatestKeysDistinct(rows: seq<Row>, k: nat, m: nat)
    ensures Seqs.KeysDistinct(LatestPerDeviceDay(rows, k, m), DeviceDay(k, m))
  {
    var latest := Seqs.DedupLast(Named(rows, k), DeviceDay(k, m));
    LatestIsPermutation(rows, k, m);
    Seqs.DedupLastDistinct(Named(rows, k), DeviceDay(k, m));
    Seqs.KeysDistinctPermutation(latest, LatestPerDeviceDay(rows, k, m), DeviceDay(k, m));
  }

  /** Every surviving row is a named row with no later row of the same device and day. */
  lemma LatestKeepsLast(rows: seq<Row>, k: nat, m: nat)
    ensures forall x :: x in LatestPerDeviceDay(rows, k, m) ==>
              CellOr(x, k).Str? && Seqs.LastOfKey(Named(rows, k), DeviceDay(k, m), x)
  {
    var named := Named(rows, k);
    var latest := Seqs.DedupLast(named, DeviceDay(k, m));
    var r := LatestPerDeviceDay(rows, k, m);
    LatestIsPermutation(rows, k, m);
    Seqs.DedupLastKeepsLast(named, DeviceDay(k, m));
    forall x | x in r ensures CellOr(x, k).Str? && Seqs.LastOfKey(named, DeviceDay(k, m), x) {
      assert x in multiset(r);
      assert x in latest;
    }
  }

  /** Every named device-day of the pooled data is still represented. */
  lemma LatestCovers(rows: seq<Row>, k: nat, m: nat)
    ensures forall i :: 0 <= i < |rows| && CellOr(rows[i], k).Str? ==>
              Seqs.HasKey(LatestPerDeviceDay(rows, k, m), DeviceDay(k, m), DeviceDay(k, m)(rows[i]))
  {
    forall i | 0 <= i < |rows| && CellOr(rows[i], k).Str?
      ensures Seqs.HasKey(LatestPerDeviceDay(rows, k, m), DeviceDay(k, m), DeviceDay(k, m)(rows[i]))
    {
      LatestCoversOne(rows, k, m, i);
    }
  }

  /** One named row's device-day is still represented. */
  lemma LatestCoversOne(rows: seq<Row>, k: nat, m: nat, i: nat)
    requires i < |rows| && CellOr(rows[i], k).Str?
    ensures Seqs.HasKey(LatestPerDeviceDay(rows, k, m), DeviceDay(k, m), DeviceDay(k, m)(rows[i]))
  {
    var named := Named(rows, k);
    var latest := Seqs.DedupLast(named, DeviceDay(k, m));
    var r := LatestPerDeviceDay(rows, k, m);
    LatestIsPermutation(rows, k, m);
    Seqs.DedupLastCovers(named, DeviceDay(k, m));
    assert rows[i] in named;
    var p :| 0 <= p < |named| && named[p] == rows[i];
    var q :| 0 <= q < |latest| && DeviceDay(k, m)(latest[q]) == DeviceDay(k, m)(named[p]);
    assert latest[q] in multiset(r);
    var j :| 0 <= j < |r| && r[j] == latest[q];
  }

  /** The devices come out in name order. */
  lemma LatestSortedByName(rows: seq<Row>, k: nat, m: nat)
    ensures Sorting.Sorted(LatestPerDeviceDay(rows, k, m), ByName(k))
  {
    Sorting.StrLeTotal();
    Sorting.ByKeyTotal((row: Row) => NameAt(row, k), Sorting.StrLe);
    assert forall a, b :: ByName(k)(a, b) == Sorting.StrLe(NameAt(a, k), NameAt(b, k));
    Sorting.SortBySorted(Seqs.DedupLast(Named(rows, k), DeviceDay(k, m)), ByName(k));
  }

  /**
   * The de-duplication step of the main block followed by `reset_index` and the column drop:
   * the rows are the latest reading of every named device-day, each keeping its cells of the
   * columns that are not dropped. A missing name or day column raises a KeyError; a device
   * name that is neither text nor missing cannot be grouped here; an existing `index` column
   * is reported rather than moved aside.
   */
  function DedupDeviceDays(f: Frame): (r: Result<Frame, string>)
    requires f.Valid()
    ensures r.Ok? ==> r.value.Valid()
    ensures r.Ok? ==> forall c :: c in r.value.columns <==> c in f.columns && c !in DroppedColumns
    ensures r.Ok? ==> NameColumn in f.columns && DayColumn in f.columns && "index" !in f.columns
    ensures r.Ok? ==>
              var latest := LatestPerDeviceDay(f.rows, IndexOf(f.columns, NameColumn).value, IndexOf(f.columns, DayColumn).value);
              && |r.value.rows| == |latest|
              && forall i, c :: 0 <= i < |latest| && c in r.value.columns ==>
                   |latest[i]| == |f.columns| && CellAt(r.value.columns, r.value.rows[i], c) == CellAt(f.columns, latest[i], c)
  {
    match IndexOf(f.columns, NameColumn)
    case None => Err("KeyError: " + NameColumn)
    case Some(k) =>
      match IndexOf(f.columns, DayColumn)
      case None => Err("KeyError: " + DayColumn)
      case Some(m) =>
        if "index" in f.columns then Err("cannot insert index, already exists")
        else if !GroupableNames(f.rows, k) then Err("device names of mixed types")
        else
          LatestWidths(f.rows, k, m, |f.columns|);
          Ok(DropColumns(Frame(f.columns, LatestPerDeviceDay(f.rows, k, m)), DroppedColumns))
  }

  /** Every device name is text or missing. */
  predicate GroupableNames(rows: seq<Row>, k: nat)
  {
    forall i :: 0 <= i < |rows| ==> CellOr(rows[i], k).Str? || CellOr(rows[i], k).Missing?
  }

  lemma LatestWidths(rows: seq<Row>, k: nat, m: nat, width: nat)
    requires forall i :: 0 <= i < |rows| ==> |rows[i]| == width
    ensures forall i :: 0 <= i < |LatestPerDeviceDay(rows, k, m)| ==> |LatestPerDeviceDay(rows, k, m)[i]| == width
  {
    var latest := Seqs.DedupLast(Named(rows, k), DeviceDay(k, m));
    var r := LatestPerDeviceDay(rows, k, m);
    forall i | 0 <= i < |r| ensures |r[i]| == width {
      assert r[i] in multiset(latest);
    }
  }


  // ---- getFormatData: the unpivot ----

  /** The tag of slot `w`, as `f'h{w}'` writes it. */
  function SlotTag(w: nat): string
  {
    "h" + Text.NatToString(w)
  }

  /** The name contains one of the tags of slots `w` … 48. */
  function HasTagFrom(c: string, w: nat): bool
    decreases 49 - w
  {
    if w > 48 then false else Text.HasSubstring(c, SlotTag(w)) || HasTagFrom(c, w + 1)
  }

  /** A slot column: its name contains one of `h1` … `h48`, case and all. */
  predicate IsSlotColumn(c: string)
  {
    HasTagFrom(c, 1)
  }

  lemma {:induction false} HasTagFromSpec(c: string, w: nat)
    ensures HasTagFrom(c, w) <==> exists v :: w <= v <= 48 && Text.HasSubstring(c, SlotTag(v))
    decreases 49 - w
  {
    if w <= 48 {
      HasTagFromSpec(c, w + 1);
    }
  }

  /** `any(f'h{w}' in c for w in range(1, 49))`. */
  lemma IsSlotColumnSpec(c: string)
    ensures IsSlotColumn(c) <==> exists w :: 1 <= w <= 48 && Text.HasSubstring(c, SlotTag(w))
  {
    HasTagFromSpec(c, 1);
  }

  /** Positions of the identifier columns the unpivot needs, and of the slot columns. */
  datatype Layout = Layout(name: nat, day: nat, company: nat, infoType: nat, slots: seq<nat>)

  predicate Fits(f: Frame, lay: Layout)
  {
    && f.Valid()
    && lay.name < |f.columns| && lay.day < |f.columns|
    && lay.company < |f.columns| && lay.infoType < |f.columns|
    && forall j :: 0 <= j < |lay.slots| ==> lay.slots[j] < |f.columns|
  }

  /**
   * The columns `getFormatData` reads: every slot column is unpivoted, and the four
   * identifier columns must be present, or a later lookup raises a KeyError. None of the
   * four is a slot column (`IdentifiersAreNotSlots`).
   */
  function LayoutOf(f: Frame): (r: Result<Layout, string>)
    requires f.Valid()
    ensures r.Ok? ==> Fits(f, r.value)
  {
    var slots := PositionsWhere(f.columns, IsSlotColumn, 0);
    match (IndexOf(f.columns, NameColumn), IndexOf(f.columns, DayColumn),
           IndexOf(f.columns, CompanyColumn), IndexOf(f.columns, InfoTypeColumn))
    case (Some(k), Some(m), Some(e), Some(t)) =>
      Ok(Layout(k, m, e, t, slots))
    case _ => Err("KeyError: identifier column missing")
  }

  /** No `h` stands directly before a digit. */
  predicate NoTagStart(c: string)
  {
    forall j :: 0 <= j < |c| - 1 ==> !(c[j] == 'h' && Text.IsDigit(c[j + 1]))
  }

  /** A name with no `h` directly before a digit contains none of the slot tags. */
  lemma NoSlotTag(c: string)
    requires NoTagStart(c)
    ensures !IsSlotColumn(c)
  {
    IsSlotColumnSpec(c);
    forall w | 1 <= w <= 48 ensures !Text.HasSubstring(c, SlotTag(w)) {
      var tag := SlotTag(w);
      assert tag[0] == 'h' && Text.IsDigit(tag[1]);
      Text.HasSubstringSpec(c, tag);
      forall j: nat ensures !Text.SubstringAt(c, j, tag) {
        if j + |tag| <= |c| {
          assert c[j..j + |tag|][0] == c[j] && c[j..j + |tag|][1] == c[j + 1];
        }
      }
    }
  }

  /** The identifier columns are never unpivoted. */
  lemma IdentifiersAreNotSlots(c: string)
    requires c == NameColumn || c == DayColumn || c == CompanyColumn || c == InfoTypeColumn
    ensures !IsSlotColumn(c)
  {
    assert NoTagStart(c);
    NoSlotTag(c);
  }

  /** The unpivot takes exactly the slot columns, left to right. */
  lemma LayoutSlots(f: Frame, lay: Layout)
    requires f.Valid() && LayoutOf(f) == Ok(lay)
    ensures forall p :: 0 <= p < |f.columns| ==> (IsSlotColumn(f.columns[p]) <==> p in lay.slots)
    ensures forall a, b :: 0 <= a < b < |lay.slots| ==> lay.slots[a] < lay.slots[b]
  {
  }

  /** One row of `melt`: the identifier cells, the slot column's name and its cell. */
  datatype MeltedRow = MeltedRow(name: Cell, day: Cell, company: Cell, infoType: Cell, hour: string, power: Cell)

  function MeltedAt(f: Frame, lay: Layout, i: nat, p: nat): MeltedRow
    requires Fits(f, lay) && i < |f.rows| && p < |f.columns|
  {
    var row := f.rows[i];
    MeltedRow(row[lay.name], row[lay.day], row[lay.company], row[lay.infoType], f.columns[p], row[p])
  }

  /** `melt`: slot column by slot column, every row in turn. */
  function Melt(f: Frame, lay: Layout, slots: seq<nat>): seq<MeltedRow>
    requires Fits(f, lay)
    requires forall j :: 0 <= j < |slots| ==> slots[j] < |f.columns|
  {
    if slots == [] then []
    else
      seq(|f.rows|, i requires 0 <= i < |f.rows| => MeltedAt(f, lay, i, slots[0]))
      + Melt(f, lay, slots[1..])
  }

  /** The unpivot has one row per (slot column, row) pair. */
  lemma {:induction false} MeltLength(f: Frame, lay: Layout, slots: seq<nat>)
    requires Fits(f, lay)
    requires forall j :: 0 <= j < |slots| ==> slots[j] < |f.columns|
    ensures |Melt(f, lay, slots)| == |slots| * |f.rows|
  {
    if slots != [] {
      MeltLength(f, lay, slots[1..]);
      assert |slots| * |f.rows| == |f.rows| + (|slots| - 1) * |f.rows|;
    }
  }

  lemma MulBelow(j: nat, i: nat, n: nat, count: nat)
    requires j < count && i < n
    ensures j * n + i < count * n
  {
    assert (j + 1) * n <= count * n;
  }

  /** Slot-major order: row `idx = j·n + i` of the unpivot is row `i` under the `j`-th slot column. */
  lemma {:induction false} MeltAt(f: Frame, lay: Layout, slots: seq<nat>, j: nat, i: nat, idx: nat)
    requires Fits(f, lay)
    requires forall j :: 0 <= j < |slots| ==> slots[j] < |f.columns|
    requires j < |slots| && i < |f.rows| && idx == j * |f.rows| + i
    ensures idx < |Melt(f, lay, slots)|
    ensures Melt(f, lay, slots)[idx] == MeltedAt(f, lay, i, slots[j])
  {
    var n := |f.rows|;
    MeltLength(f, lay, slots);
    MulBelow(j, i, n, |slots|);
    var tail := Melt(f, lay, slots[1..]);
    assert Melt(f, lay, slots) == seq(n, i requires 0 <= i < n => MeltedAt(f, lay, i, slots[0])) + tail;
    if j > 0 {
      assert idx - n == (j - 1) * n + i;
      MeltAt(f, lay, slots[1..], j - 1, i, idx - n);
      assert slots[1..][j - 1] == slots[j];
    }
  }

  // ---- getFormatData: typed readings ----

  /** One melted row after the type conversions: `date` is the day plus 30 minutes per slot. */
  datatype Reading = Reading(name: string, day: Option<int>, company: Cell, infoType: Cell, slot: nat, power: Cell)
  {
    function Date(): Option<int>
    {
      match day
      case Some(d) => Some(d + 30 * slot)
      case None => None
    }
  }

  const MinutesPerDay := 1440

  /**
   * `pd.to_datetime(..., format="%Y-%m-%dT00:00:00")`: a midnight timestamp, missing stays
   * missing, anything else raises.
   */
  function ParseDay(c: Cell): (r: Result<Option<int>, string>)
    ensures r.Ok? ==> (r.value.Some? <==> c.Time?)
    ensures r.Ok? && r.value.Some? ==> r.value.value == c.t && c.t % MinutesPerDay == 0
  {
    match c
    case Missing => Ok(None)
    case Time(t) => if t % MinutesPerDay == 0 then Ok(Some(t)) else Err("time data does not match format")
    case _ => Err("time data does not match format")
  }

  /** `hour.str.replace('h', '').astype(int)`. */
  function ParseSlot(hour: string): Option<nat>
  {
    Text.ParseNat(Text.RemoveAll(hour, 'h'))
  }

  /** The slot column `h<K>` stands for slot K: it is a slot column and reads back as K. */
  lemma SlotColumnRoundTrip(k: nat)
    requires 1 <= k <= 48
    ensures IsSlotColumn("h" + Text.NatToString(k))
    ensures ParseSlot("h" + Text.NatToString(k)) == Some(k)
  {
    var digits := Text.NatToString(k);
    var c := "h" + digits;
    assert Text.SubstringAt(c, 0, SlotTag(k));
    Text.HasSubstringSpec(c, SlotTag(k));
    IsSlotColumnSpec(c);
    assert c[1..] == digits;
    assert Text.RemoveAll(c, 'h') == Text.RemoveAll(digits, 'h');
    Text.RemoveAllAbsent(digits, 'h');
    Text.ParseNatToString(k);
  }

  /**
   * The conversions of one melted row. A device name that is not text fails the later
   * `str.contains` mask; a day or slot that does not convert raises.
   */
  function ToReading(m: MeltedRow): (r: Result<Reading, string>)
    ensures r.Ok? ==> m.name == Str(r.value.name) && m.power == r.value.power
    ensures r.Ok? ==> ParseDay(m.day) == Ok(r.value.day) && ParseSlot(m.hour) == Some(r.value.slot)
  {
    if !m.name.Str? then Err("device name is not text")
    else
      match (ParseDay(m.day), ParseSlot(m.hour))
      case (Ok(day), Some(slot)) => Ok(Reading(m.name.s, day, m.company, m.infoType, slot, m.power))
      case (Err(e), _) => Err(e)
      case (_, None) => Err("invalid literal for int()")
  }

  /** All rows convert, or the first failure is the result. */
  function ToReadings(ms: seq<MeltedRow>): Result<seq<Reading>, string>
  {
    MapAll(ms, ToReading)
  }

  lemma ReadingAt(ms: seq<MeltedRow>, rs: seq<Reading>, idx: nat)
    requires ToReadings(ms) == Ok(rs) && idx < |ms|
    ensures |rs| == |ms| && ToReading(ms[idx]) == Ok(rs[idx])
  {
    assert MapAll(ms, ToReading) == Ok(rs);
  }

  /** The unpivoted, typed rows of a de-duplicated frame. */
  function Readings(f: Frame): Result<seq<Reading>, string>
    requires f.Valid()
  {
    match LayoutOf(f)
    case Err(e) => Err(e)
    case Ok(lay) => ToReadings(Melt(f, lay, lay.slots))
  }

  /**
   * `x` is what row `i` under slot column `p` becomes: the same device and power cell, the
   * slot read from the column's name, and a date 30 minutes per slot after the row's
   * midnight, missing exactly when the day is.
   */
  predicate ReadingFrom(f: Frame, lay: Layout, i: nat, p: nat, x: Reading)
    requires Fits(f, lay) && i < |f.rows| && p < |f.columns|
  {
    var row := f.rows[i];
    && row[lay.name] == Str(x.name)
    && row[p] == x.power
    && ParseSlot(f.columns[p]) == Some(x.slot)
    && (x.Date().Some? <==> row[lay.day].Time?)
    && (x.Date().Some? ==> x.Date().value == row[lay.day].t + 30 * x.slot)
  }

  lemma ToReadingFrom(f: Frame, lay: Layout, i: nat, p: nat, x: Reading)
    requires Fits(f, lay) && i < |f.rows| && p < |f.columns|
    requires ToReading(MeltedAt(f, lay, i, p)) == Ok(x)
    ensures ReadingFrom(f, lay, i, p, x)
  {
  }

  /**
   * The readings are the unpivot, converted: reading `idx = j·n + i` comes from row `i`
   * under the `j`-th slot column.
   */
  lemma ReadingsSpec(f: Frame, lay: Layout, rs: seq<Reading>, j: nat, i: nat, idx: nat)
    requires f.Valid() && LayoutOf(f) == Ok(lay) && Readings(f) == Ok(rs)
    requires j < |lay.slots| && i < |f.rows| && idx == j * |f.rows| + i
    ensures |rs| == |lay.slots| * |f.rows|
    ensures idx < |rs| && ReadingFrom(f, lay, i, lay.slots[j], rs[idx])
  {
    ReadingsUnfold(f, lay);
    MeltLength(f, lay, lay.slots);
    MeltReading(f, lay, lay.slots, rs, j, i, idx);
    ToReadingFrom(f, lay, i, lay.slots[j], rs[idx]);
  }

  lemma ReadingsUnfold(f: Frame, lay: Layout)
    requires f.Valid() && LayoutOf(f) == Ok(lay)
    ensures Fits(f, lay)
    ensures Readings(f) == ToReadings(Melt(f, lay, lay.slots))
  {
  }

  lemma MeltReading(f: Frame, lay: Layout, slots: seq<nat>, rs: seq<Reading>, j: nat, i: nat, idx: nat)
    requires Fits(f, lay) && forall j :: 0 <= j < |slots| ==> slots[j] < |f.columns|
    requires ToReadings(Melt(f, lay, slots)) == Ok(rs)
    requires j < |slots| && i < |f.rows| && idx == j * |f.rows| + i
    ensures idx < |rs|
    ensures ToReading(MeltedAt(f, lay, i, slots[j])) == Ok(rs[idx])
  {
    MeltAt(f, lay, slots, j, i, idx);
    ReadingAt(Melt(f, lay, slots), rs, idx);
  }

  // ---- getFormatData: ordering ----

  /** `sort_values(['NombreEquipo', 'Medifecha'])`, missing days last. */
  function NameDayLe(a: Reading, b: Reading): bool
  {
    Sorting.LexLe(Sorting.StrLe, Sorting.OptIntLe, (a.name, a.day), (b.name, b.day))
  }

  /** `sort_values(['NombreEquipo', 'date'])`, missing dates last. */
  function NameDateLe(a: Reading, b: Reading): bool
  {
    Sorting.LexLe(Sorting.StrLe, Sorting.OptIntLe, (a.name, a.Date()), (b.name, b.Date()))
  }

  /** The two stable sorts `getFormatData` applies. */
  function Ordered(rs: seq<Reading>): seq<Reading>
  {
    Sorting.SortBy(Sorting.SortBy(rs, NameDayLe), NameDateLe)
  }

  lemma NameDateLeTotal()
    ensures Sorting.TotalPreorder(NameDateLe)
  {
    Sorting.StrLeTotal();
    Sorting.OptIntLeTotal();
    Sorting.LexLeTotal(Sorting.StrLe, Sorting.OptIntLe);
    var lex := (x: (string, Option<int>), y: (string, Option<int>)) => Sorting.LexLe(Sorting.StrLe, Sorting.OptIntLe, x, y);
    Sorting.ByKeyTotal((r: Reading) => (r.name, r.Date()), lex);
  }

  /** The ordered readings are the same readings, by device and then by date. */
  lemma OrderedSpec(rs: seq<Reading>)
    ensures multiset(Ordered(rs)) == multiset(rs)
    ensures Sorting.Sorted(Ordered(rs), NameDateLe)
  {
    NameDateLeTotal();
    Sorting.SortBySorted(Sorting.SortBy(rs, NameDayLe), NameDateLe);
  }

  // ---- getFormatData: the Punta Lomitas block ----

  /** The single series the Punta Lomitas units are summed into. */
  const PuntaName := "W.F. Punta Lomitas"

  /** A Punta Lomitas unit: the name contains `PUN`, any case. */
  predicate IsPunta(r: Reading) { Text.Search(r.name, "PUN") }

  /** Neither a Punta Lomitas unit nor a Paita one. */
  predicate IsOther(r: Reading) { !Text.SearchAny(r.name, ["PUN", "paita"]) }

  /** One output row, in the columns date, NombreEmpresa, Tipoinfoabrev, power, name. */
  datatype GenRow = GenRow(date: Option<int>, company: Cell, infoType: Cell, power: Cell, name: string)

  /** The dates that are present, in order. */
  function PresentDates(rs: seq<Reading>): (ds: seq<int>)
    ensures forall d :: d in ds <==> exists i :: 0 <= i < |rs| && rs[i].Date() == Some(d)
  {
    if rs == [] then []
    else
      var rest := PresentDates(rs[1..]);
      assert forall i :: 1 <= i < |rs| ==> rs[i] == rs[1..][i - 1];
      (match rs[0].Date() case Some(d) => [d] case None => []) + rest
  }

  /** The group keys of `groupby(['date'])` on the Punta rows: present dates, ascending, once each. */
  function PuntaDates(rs: seq<Reading>): seq<int>
  {
    Sorting.SortedDistinct(PresentDates(Seqs.Filter(rs, IsPunta)), Sorting.IntLe)
  }

  /** The Punta dates strictly increase and are exactly the dates some Punta reading has. */
  lemma PuntaDatesSpec(rs: seq<Reading>)
    ensures var ds := PuntaDates(rs);
            && (forall a, b :: 0 <= a < b < |ds| ==> ds[a] < ds[b])
            && (forall d :: d in ds <==> exists i :: 0 <= i < |rs| && IsPunta(rs[i]) && rs[i].Date() == Some(d))
  {
    var pun := Seqs.Filter(rs, IsPunta);
    Sorting.IntLeTotal();
    Sorting.SortedDistinctSorted(PresentDates(pun), Sorting.IntLe);
    Sorting.SortedDistinctIncreasing(PuntaDates(rs));
    forall d ensures d in PuntaDates(rs) <==> exists i :: 0 <= i < |rs| && IsPunta(rs[i]) && rs[i].Date() == Some(d) {
      Seqs.FilterExists(rs, IsPunta, (r: Reading) => r.Date() == Some(d));
    }
  }

  /** The Punta readings of one date. */
  function Group(rs: seq<Reading>, d: int): seq<Reading>
  {
    Seqs.Filter(rs, InGroup(d))
  }

  /** Membership in the group of date `d`: a Punta reading of that date. */
  function InGroup(d: int): Reading -> bool
  {
    r => IsPunta(r) && r.Date() == Some(d)
  }

  function Powers(g: seq<Reading>): seq<Cell> { seq(|g|, i requires 0 <= i < |g| => g[i].power) }

  function Companies(g: seq<Reading>): seq<Cell> { seq(|g|, i requires 0 <= i < |g| => g[i].company) }

  function InfoTypes(g: seq<Reading>): seq<Cell> { seq(|g|, i requires 0 <= i < |g| => g[i].infoType) }

  /** `agg('last')`: the last present cell, missing when every cell is. */
  function LastPresent(cells: seq<Cell>): Cell
  {
    if cells == [] then Missing
    else if !cells[|cells| - 1].Missing? then cells[|cells| - 1]
    else LastPresent(cells[..|cells| - 1])
  }

  /** The last present cell is missing only when all are, and otherwise no later cell is given. */
  lemma LastPresentSpec(cells: seq<Cell>)
    ensures LastPresent(cells).Missing? <==> forall i :: 0 <= i < |cells| ==> cells[i].Missing?
    ensures !LastPresent(cells).Missing? ==>
              exists i :: 0 <= i < |cells| && cells[i] == LastPresent(cells) &&
                forall j :: i < j < |cells| ==> cells[j].Missing?
  {
    LastPresentMissing(cells);
    if !LastPresent(cells).Missing? {
      LastPresentLast(cells);
    }
  }

  lemma {:induction false} LastPresentMissing(cells: seq<Cell>)
    ensures LastPresent(cells).Missing? <==> forall i :: 0 <= i < |cells| ==> cells[i].Missing?
  {
    if cells != [] && cells[|cells| - 1].Missing? {
      var init := cells[..|cells| - 1];
      LastPresentMissing(init);
      assert forall i :: 0 <= i < |init| ==> init[i] == cells[i];
    }
  }

  lemma {:induction false} LastPresentLast(cells: seq<Cell>)
    requires !LastPresent(cells).Missing?
    ensures exists i :: 0 <= i < |cells| && cells[i] == LastPresent(cells) &&
              forall j :: i < j < |cells| ==> cells[j].Missing?
  {
    var n := |cells| - 1;
    if cells[n].Missing? {
      var init := cells[..n];
      assert LastPresent(cells) == LastPresent(init);
      LastPresentLast(init);
      var i :| 0 <= i < |init| && init[i] == LastPresent(init) && forall j :: i < j < |init| ==> init[j].Missing?;
      assert cells[i] == init[i];
      forall j | i < j < |cells| ensures cells[j].Missing? {
        if j < n {
          assert cells[j] == init[j];
        }
      }
    } else {
      assert cells[|cells| - 1] == LastPresent(cells);
    }
  }

  /** A cell `agg('sum')` can add: a number, or a missing value it skips. */
  predicate Summable(c: Cell) { c.Missing? || c.Num? }

  /** The numbers among the cells, in order. */
  function NumValues(cells: seq<Cell>): seq<real>
  {
    if cells == [] then []
    else (if cells[0].Num? then [cells[0].r] else []) + NumValues(cells[1..])
  }

  /**
   * `agg('sum')` in one pass: numbers add up, missing cells are skipped (so an all-missing
   * group sums to 0), and any other cell raises.
   */
  function SumPower(cells: seq<Cell>): Result<real, string>
  {
    if cells == [] then Ok(0.0)
    else
      var rest := SumPower(cells[1..]);
      match cells[0]
      case Missing => rest
      case Num(x) => (match rest case Ok(t) => Ok(x + t) case Err(e) => Err(e))
      case _ => Err("unsupported operand type for +")
  }

  /** The sum succeeds exactly when every cell is a number or missing. */
  lemma {:induction false} SumPowerFails(cells: seq<Cell>)
    ensures SumPower(cells).Ok? <==> forall i :: 0 <= i < |cells| ==> Summable(cells[i])
  {
    if cells != [] {
      SumPowerFails(cells[1..]);
      assert forall i :: 1 <= i < |cells| ==> cells[i] == cells[1..][i - 1];
    }
  }

  /** The one-pass sum is the sum of the numbers among the cells. */
  lemma {:induction false} SumPowerIsSum(cells: seq<Cell>)
    requires SumPower(cells).Ok?
    ensures SumPower(cells).value == Seqs.Sum(NumValues(cells))
  {
    if cells != [] {
      SumPowerIsSum(cells[1..]);
      var rest := NumValues(cells[1..]);
      if cells[0].Num? {
        assert NumValues(cells) == [cells[0].r] + rest;
        assert ([cells[0].r] + rest)[1..] == rest;
      } else {
        assert NumValues(cells) == rest;
      }
    }
  }

  /** One Punta Lomitas row: the last company and information type, the summed power. */
  function PuntaRow(rs: seq<Reading>, d: int): Result<GenRow, string>
  {
    var g := Group(rs, d);
    match SumPower(Powers(g))
    case Err(e) => Err(e)
    case Ok(total) => Ok(GenRow(Some(d), LastPresent(Companies(g)), LastPresent(InfoTypes(g)), Num(total), PuntaName))
  }

  /** `groupby(['date']).agg(...)` on the Punta rows, named `W.F. Punta Lomitas`. */
  function PuntaBlock(rs: seq<Reading>): Result<seq<GenRow>, string>
  {
    MapAll(PuntaDates(rs), d => PuntaRow(rs, d))
  }

  /**
   * A Punta row is dated by its group, carries the Punta name, sums the numbers among the
   * group's powers and takes the group's last given company and information type.
   */
  lemma PuntaRowSpec(rs: seq<Reading>, d: int, row: GenRow)
    requires PuntaRow(rs, d) == Ok(row)
    ensures row.date == Some(d) && row.name == PuntaName
    ensures row.power == Num(Seqs.Sum(NumValues(Powers(Group(rs, d)))))
    ensures row.company == LastPresent(Companies(Group(rs, d)))
    ensures row.infoType == LastPresent(InfoTypes(Group(rs, d)))
  {
    SumPowerIsSum(Powers(Group(rs, d)));
  }

  /** A group holds a power `sum` cannot add exactly when a Punta reading of that date does. */
  lemma GroupUnsummable(rs: seq<Reading>, d: int)
    ensures (exists q :: 0 <= q < |Group(rs, d)| && !Summable(Group(rs, d)[q].power)) <==>
            exists i :: 0 <= i < |rs| && IsPunta(rs[i]) && rs[i].Date() == Some(d) && !Summable(rs[i].power)
  {
    var g := Group(rs, d);
    Seqs.FilterExists(rs, InGroup(d), (r: Reading) => !Summable(r.power));
    if exists q :: 0 <= q < |g| && !Summable(g[q].power) {
      var q :| 0 <= q < |g| && !Summable(g[q].power);
      assert InGroup(d)(g[q]);
      var i :| 0 <= i < |rs| && InGroup(d)(rs[i]) && !Summable(rs[i].power);
      assert IsPunta(rs[i]) && rs[i].Date() == Some(d);
    }
    if exists i :: 0 <= i < |rs| && IsPunta(rs[i]) && rs[i].Date() == Some(d) && !Summable(rs[i].power) {
      var i :| 0 <= i < |rs| && IsPunta(rs[i]) && rs[i].Date() == Some(d) && !Summable(rs[i].power);
      assert InGroup(d)(rs[i]);
      var q :| 0 <= q < |g| && !Summable(g[q].power);
    }
  }

  /** Summing a group's powers fails exactly when one of its readings has an unsummable power. */
  lemma PowersUnsummable(g: seq<Reading>)
    ensures SumPower(Powers(g)).Err? <==> exists q :: 0 <= q < |g| && !Summable(g[q].power)
  {
    var ps := Powers(g);
    SumPowerFails(ps);
    if exists q :: 0 <= q < |g| && !Summable(g[q].power) {
      var q :| 0 <= q < |g| && !Summable(g[q].power);
      assert !Summable(ps[q]);
    }
  }

  /** A Punta row fails exactly when a reading of its date has a power `sum` cannot add. */
  lemma PuntaRowFails(rs: seq<Reading>, d: int)
    ensures PuntaRow(rs, d).Err? <==>
              exists i :: 0 <= i < |rs| && IsPunta(rs[i]) && rs[i].Date() == Some(d) && !Summable(rs[i].power)
  {
    GroupUnsummable(rs, d);
    PowersUnsummable(Group(rs, d));
  }

  /** The `a`-th row of the Punta block is the row of the `a`-th Punta date. */
  lemma PuntaBlockAt(rs: seq<Reading>, p: seq<GenRow>, a: nat)
    requires PuntaBlock(rs) == Ok(p) && a < |p|
    ensures a < |PuntaDates(rs)|
    ensures var d := PuntaDates(rs)[a];
            && p[a].date == Some(d) && p[a].name == PuntaName
            && p[a].power == Num(Seqs.Sum(NumValues(Powers(Group(rs, d)))))
            && p[a].company == LastPresent(Companies(Group(rs, d)))
            && p[a].infoType == LastPresent(InfoTypes(Group(rs, d)))
  {
    var ds := PuntaDates(rs);
    assert PuntaRow(rs, ds[a]) == Ok(p[a]);
    PuntaRowSpec(rs, ds[a], p[a]);
  }

  /**
   * The Punta block has one row per Punta date, in the same order, all named
   * `W.F. Punta Lomitas`; each row's power is the sum of the numeric powers of that date's
   * Punta readings, and its company and information type are the last ones given.
   */
  lemma PuntaBlockRows(rs: seq<Reading>, p: seq<GenRow>)
    requires PuntaBlock(rs) == Ok(p)
    ensures |p| == |PuntaDates(rs)|
    ensures forall a :: 0 <= a < |p| ==>
              && p[a].date == Some(PuntaDates(rs)[a]) && p[a].name == PuntaName
              && p[a].power == Num(Seqs.Sum(NumValues(Powers(Group(rs, PuntaDates(rs)[a])))))
              && p[a].company == LastPresent(Companies(Group(rs, PuntaDates(rs)[a])))
              && p[a].infoType == LastPresent(InfoTypes(Group(rs, PuntaDates(rs)[a])))
  {
    forall a | 0 <= a < |p|
      ensures && p[a].date == Some(PuntaDates(rs)[a]) && p[a].name == PuntaName
              && p[a].power == Num(Seqs.Sum(NumValues(Powers(Group(rs, PuntaDates(rs)[a])))))
              && p[a].company == LastPresent(Companies(Group(rs, PuntaDates(rs)[a])))
              && p[a].infoType == LastPresent(InfoTypes(Group(rs, PuntaDates(rs)[a])))
    {
      PuntaBlockAt(rs, p, a);
    }
  }

  /** Rows dated one-to-one by a sequence of dates carry exactly those dates, in that order. */
  lemma DatedRows(p: seq<GenRow>, ds: seq<int>)
    requires |p| == |ds| && forall a :: 0 <= a < |p| ==> p[a].date == Some(ds[a])
    requires forall a, b :: 0 <= a < b < |ds| ==> ds[a] < ds[b]
    ensures forall a, b :: 0 <= a < b < |p| ==> p[a].date.value < p[b].date.value
    ensures forall d :: (exists a :: 0 <= a < |p| && p[a].date == Some(d)) <==> d in ds
  {
    forall d ensures (exists a :: 0 <= a < |p| && p[a].date == Some(d)) <==> d in ds {
      if d in ds {
        var a :| 0 <= a < |ds| && ds[a] == d;
        assert p[a].date == Some(d);
      }
    }
  }

  /**
   * The Punta block's rows are dated in strictly ascending order, and their dates are exactly
   * the dates some Punta reading has.
   */
  lemma PuntaBlockDates(rs: seq<Reading>, p: seq<GenRow>)
    requires PuntaBlock(rs) == Ok(p)
    ensures forall a :: 0 <= a < |p| ==> p[a].date.Some? && p[a].name == PuntaName
    ensures forall a, b :: 0 <= a < b < |p| ==> p[a].date.value < p[b].date.value
    ensures forall d :: (exists a :: 0 <= a < |p| && p[a].date == Some(d)) <==>
                        (exists i :: 0 <= i < |rs| && IsPunta(rs[i]) && rs[i].Date() == Some(d))
  {
    PuntaBlockRows(rs, p);
    PuntaDatesSpec(rs);
    DatedRows(p, PuntaDates(rs));
  }

  /**
   * When the keys are exactly those of the selected items, and a key fails exactly when one of
   * its selected items is bad, some key fails exactly when some keyed selected item is bad.
   */
  lemma SomeKeyFails<T>(ds: seq<int>, rs: seq<T>, sel: T -> bool, key: T -> Option<int>, bad: T -> bool, fails: int -> bool)
    requires forall d :: d in ds <==> exists i :: 0 <= i < |rs| && sel(rs[i]) && key(rs[i]) == Some(d)
    requires forall d :: fails(d) <==> exists i :: 0 <= i < |rs| && sel(rs[i]) && key(rs[i]) == Some(d) && bad(rs[i])
    ensures (exists a :: 0 <= a < |ds| && fails(ds[a])) <==>
            (exists i :: 0 <= i < |rs| && sel(rs[i]) && key(rs[i]).Some? && bad(rs[i]))
  {
    if exists i :: 0 <= i < |rs| && sel(rs[i]) && key(rs[i]).Some? && bad(rs[i]) {
      var i :| 0 <= i < |rs| && sel(rs[i]) && key(rs[i]).Some? && bad(rs[i]);
      var d := key(rs[i]).value;
      assert d in ds;
      var a :| 0 <= a < |ds| && ds[a] == d;
      assert fails(ds[a]);
    }
    if exists a :: 0 <= a < |ds| && fails(ds[a]) {
      var a :| 0 <= a < |ds| && fails(ds[a]);
      var d := ds[a];
      assert fails(d);
      var i :| 0 <= i < |rs| && sel(rs[i]) && key(rs[i]) == Some(ds[a]) && bad(rs[i]);
      assert key(rs[i]).Some?;
    }
  }

  /** Every Punta row fails exactly when a reading of its date has a power `sum` cannot add. */
  lemma PuntaRowsFail(rs: seq<Reading>)
    ensures forall d :: PuntaRow(rs, d).Err? <==>
              exists i :: 0 <= i < |rs| && IsPunta(rs[i]) && rs[i].Date() == Some(d) && !Summable(rs[i].power)
  {
    forall d ensures PuntaRow(rs, d).Err? <==>
                     exists i :: 0 <= i < |rs| && IsPunta(rs[i]) && rs[i].Date() == Some(d) && !Summable(rs[i].power)
    {
      PuntaRowFails(rs, d);
    }
  }

  /** The Punta block fails exactly when one of its rows does. */
  lemma PuntaBlockFailsAt(rs: seq<Reading>)
    ensures PuntaBlock(rs).Err? <==> exists a :: 0 <= a < |PuntaDates(rs)| && PuntaRow(rs, PuntaDates(rs)[a]).Err?
  {
  }

  /** The Punta block fails exactly when some dated Punta reading has a power `sum` cannot add. */
  lemma PuntaBlockFails(rs: seq<Reading>)
    ensures PuntaBlock(rs).Err? <==>
              exists i :: 0 <= i < |rs| && IsPunta(rs[i]) && rs[i].Date().Some? && !Summable(rs[i].power)
  {
    PuntaDatesSpec(rs);
    PuntaRowsFail(rs);
    PuntaBlockFailsAt(rs);
    SomeKeyFails(PuntaDates(rs), rs, IsPunta, (r: Reading) => r.Date(), (r: Reading) => !Summable(r.power), d => PuntaRow(rs, d).Err?);
  }

  // ---- getFormatData: the other farms ----

  /** `repNames`: the grid operator's unit names mapped to the farm names used downstream. */
  const Renames: map<string, string> := map[
    "C.E. CUPISNIQUE" := "W.F. Cupisnique",
    "C.E. DUNA" := "W.F. Duna",
    "C.E. HUAMBOS" := "W.F. Huambos",
    "C.E. MARCONA" := "W.F. Marcona",
    "C.E. SAN JUAN" := "W.F. San Juan",
    "C.E. TALARA" := "W.F. Talara",
    "C.E. TRES HERMANAS" := "W.F. Tres Hermanas",
    "C.E. WAYRA EXTENSION" := "W.F. Wayra Ext",
    "C.E. WAYRA I" := "W.F. Wayra I"
  ]

  /** `Series.replace(repNames)`: whole-name replacement, other names unchanged. */
  function Rename(name: string): string
  {
    if name in Renames then Renames[name] else name
  }

  function OtherRow(r: Reading): GenRow
  {
    GenRow(r.Date(), r.company, r.infoType, r.power, Rename(r.name))
  }

  /** Every reading that is neither Punta nor Paita, renamed, in order. */
  function OtherBlock(rs: seq<Reading>): seq<GenRow>
  {
    var o := Seqs.Filter(rs, IsOther);
    seq(|o|, i requires 0 <= i < |o| => OtherRow(o[i]))
  }

  lemma PuntaNameIsPunta()
    ensures Text.Search(PuntaName, "PUN")
  {
    assert Text.MatchesAt(PuntaName, 5, "PUN");
    Text.SearchSpec(PuntaName, "PUN");
  }

  /** Renaming a name without `PUN` never produces the Punta Lomitas series' name. */
  lemma RenameAvoidsPunta(name: string)
    requires !Text.Search(name, "PUN")
    ensures Rename(name) != PuntaName
  {
    PuntaNameIsPunta();
  }

  /**
   * The second block holds the readings free of `PUN` and `paita`, in their order, renamed;
   * none of its rows carries the Punta Lomitas name, so the two blocks never mix.
   */
  lemma OtherBlockSpec(rs: seq<Reading>)
    ensures var o := Seqs.Filter(rs, IsOther);
            var out := OtherBlock(rs);
            && |out| == |o|
            && forall i :: 0 <= i < |o| ==>
                 && !Text.Search(o[i].name, "PUN") && !Text.Search(o[i].name, "paita")
                 && out[i].name == Rename(o[i].name) && out[i].name != PuntaName
                 && out[i].date == o[i].Date() && out[i].power == o[i].power
  {
    var o := Seqs.Filter(rs, IsOther);
    forall i | 0 <= i < |o| ensures !Text.Search(o[i].name, "PUN") && !Text.Search(o[i].name, "paita") {
      Text.SearchAnySpec(o[i].name, ["PUN", "paita"]);
      assert ["PUN", "paita"][0] == "PUN" && ["PUN", "paita"][1] == "paita";
    }
    forall i | 0 <= i < |o| ensures Rename(o[i].name) != PuntaName {
      RenameAvoidsPunta(o[i].name);
    }
  }

  /** The second block keeps the device-then-date order of the sorted readings. */
  lemma OtherBlockOrder(rs: seq<Reading>)
    ensures Sorting.Sorted(Seqs.Filter(Ordered(rs), IsOther), NameDateLe)
  {
    OrderedSpec(rs);
    Sorting.FilterSorted(Ordered(rs), IsOther, NameDateLe);
  }

  // ---- getFormatData and the main block ----

  /** `getFormatData`: the Punta block, then the other farms. */
  function FormatData(f: Frame): Result<seq<GenRow>, string>
    requires f.Valid()
  {
    match Readings(f)
    case Err(e) => Err(e)
    case Ok(rs) => FormatReadings(rs)
  }

  /** `getFormatData` once the frame has been read: sort, then the two blocks. */
  function FormatReadings(rs: seq<Reading>): Result<seq<GenRow>, string>
  {
    var o := Ordered(rs);
    match PuntaBlock(o)
    case Err(e) => Err(e)
    case Ok(p) => Ok(p + OtherBlock(o))
  }

  /** The formatted rows are the Punta block of the sorted readings, then their other block. */
  lemma FormatReadingsSplit(rs: seq<Reading>, out: seq<GenRow>)
    requires FormatReadings(rs) == Ok(out)
    ensures PuntaBlock(Ordered(rs)).Ok? && out == PuntaBlock(Ordered(rs)).value + OtherBlock(Ordered(rs))
  {
  }

  /** Sorting does not change which dates the Punta readings have. */
  lemma OrderedPuntaDates(rs: seq<Reading>, d: int)
    ensures (exists i :: 0 <= i < |Ordered(rs)| && IsPunta(Ordered(rs)[i]) && Ordered(rs)[i].Date() == Some(d)) <==>
            (exists i :: 0 <= i < |rs| && IsPunta(rs[i]) && rs[i].Date() == Some(d))
  {
    OrderedSpec(rs);
    Seqs.PermutationExists(Ordered(rs), rs, InGroup(d));
    var o := Ordered(rs);
    if exists i :: 0 <= i < |o| && IsPunta(o[i]) && o[i].Date() == Some(d) {
      var i :| 0 <= i < |o| && IsPunta(o[i]) && o[i].Date() == Some(d);
      assert InGroup(d)(o[i]);
      var j :| 0 <= j < |rs| && InGroup(d)(rs[j]);
      assert IsPunta(rs[j]) && rs[j].Date() == Some(d);
    }
    if exists i :: 0 <= i < |rs| && IsPunta(rs[i]) && rs[i].Date() == Some(d) {
      var i :| 0 <= i < |rs| && IsPunta(rs[i]) && rs[i].Date() == Some(d);
      assert InGroup(d)(rs[i]);
      var j :| 0 <= j < |o| && InGroup(d)(o[j]);
      assert IsPunta(o[j]) && o[j].Date() == Some(d);
    }
  }

  /** Sorting keeps as many readings of the other farms. */
  lemma OrderedOthers(rs: seq<Reading>)
    ensures |Seqs.Filter(Ordered(rs), IsOther)| == |Seqs.Filter(rs, IsOther)|
  {
    OrderedSpec(rs);
    Seqs.FilterPermutation(Ordered(rs), rs, IsOther);
  }

  /**
   * A block of Punta-named rows followed by a block free of that name: the name marks exactly
   * the first block, and the first block's rows keep their dates.
   */
  lemma MarkedBlocks(p: seq<GenRow>, others: seq<GenRow>)
    requires forall a :: 0 <= a < |p| ==> p[a].name == PuntaName
    requires forall i :: 0 <= i < |others| ==> others[i].name != PuntaName
    ensures forall a :: 0 <= a < |p + others| ==> ((p + others)[a].name == PuntaName <==> a < |p|)
    ensures forall a :: 0 <= a < |p| ==> (p + others)[a] == p[a]
  {
  }

  /** Some Punta reading has date `d`. */
  predicate PuntaDated(rs: seq<Reading>, d: int)
  {
    exists i :: 0 <= i < |rs| && IsPunta(rs[i]) && rs[i].Date() == Some(d)
  }

  /** One of the first `n` rows has date `d`. */
  predicate RowDated(rows: seq<GenRow>, n: nat, d: int)
    requires n <= |rows|
  {
    exists a :: 0 <= a < n && rows[a].date == Some(d)
  }

  /** The Punta block of the sorted readings has a row of date `d` exactly when a Punta reading has that date. */
  lemma OrderedBlockDates(rs: seq<Reading>, p: seq<GenRow>, d: int)
    requires PuntaBlock(Ordered(rs)) == Ok(p)
    ensures (exists a :: 0 <= a < |p| && p[a].date == Some(d)) <==>
            (exists i :: 0 <= i < |rs| && IsPunta(rs[i]) && rs[i].Date() == Some(d))
  {
    PuntaBlockDates(Ordered(rs), p);
    OrderedPuntaDates(rs, d);
  }

  /** A prefix equal to a block carries the block's dates. */
  lemma PrefixDates(p: seq<GenRow>, out: seq<GenRow>, d: int)
    requires |p| <= |out| && forall a :: 0 <= a < |p| ==> out[a] == p[a]
    ensures (exists a :: 0 <= a < |p| && out[a].date == Some(d)) <==>
            (exists a :: 0 <= a < |p| && p[a].date == Some(d))
  {
    if exists a :: 0 <= a < |p| && out[a].date == Some(d) {
      var a :| 0 <= a < |p| && out[a].date == Some(d);
      assert p[a].date == Some(d);
    }
  }

  /**
   * The formatted series: first one Punta Lomitas row per Punta date, then one row per reading
   * of the other farms; the Punta name marks exactly the first part.
   */
  lemma FormatDataShape(rs: seq<Reading>, out: seq<GenRow>)
    requires FormatReadings(rs) == Ok(out)
    ensures var n := |PuntaDates(Ordered(rs))|;
            && n <= |out|
            && |out| - n == |Seqs.Filter(rs, IsOther)|
            && forall a :: 0 <= a < |out| ==> (out[a].name == PuntaName <==> a < n)
  {
    var o := Ordered(rs);
    FormatReadingsSplit(rs, out);
    var p := PuntaBlock(o).value;
    var others := OtherBlock(o);
    PuntaBlockRows(o, p);
    OtherBlockSpec(o);
    OrderedOthers(rs);
    MarkedBlocks(p, others);
  }

  /** The Punta Lomitas rows come first, one per date, dates strictly ascending. */
  lemma FormatDataOrder(rs: seq<Reading>, out: seq<GenRow>)
    requires FormatReadings(rs) == Ok(out)
    ensures var n := |PuntaDates(Ordered(rs))|;
            && n <= |out|
            && (forall a :: 0 <= a < n ==> out[a].date.Some?)
            && (forall a, b :: 0 <= a < b < n ==> out[a].date.value < out[b].date.value)
  {
    var o := Ordered(rs);
    FormatReadingsSplit(rs, out);
    var p := PuntaBlock(o).value;
    PuntaBlockRows(o, p);
    PuntaBlockDates(o, p);
    var n := |PuntaDates(o)|;
    forall a, b | 0 <= a < b < n ensures out[a].date.Some? && out[a].date.value < out[b].date.value {
      assert out[a] == p[a] && out[b] == p[b];
    }
    if n > 0 {
      assert out[n - 1] == p[n - 1];
    }
  }

  /** The Punta Lomitas rows' dates are exactly the dates some Punta reading has. */
  lemma FormatDataCover(rs: seq<Reading>, out: seq<GenRow>)
    requires FormatReadings(rs) == Ok(out)
    ensures var n := |PuntaDates(Ordered(rs))|;
            && n <= |out|
            && forall d :: RowDated(out, n, d) <==> PuntaDated(rs, d)
  {
    FormatDataPrefix(rs, out);
    var p := PuntaBlock(Ordered(rs)).value;
    forall d ensures RowDated(out, |p|, d) <==> PuntaDated(rs, d) {
      CoverAt(rs, p, out, d);
    }
  }

  /** The formatted rows start with the Punta block, one row per Punta date. */
  lemma FormatDataPrefix(rs: seq<Reading>, out: seq<GenRow>)
    requires FormatReadings(rs) == Ok(out)
    ensures PuntaBlock(Ordered(rs)).Ok?
    ensures var p := PuntaBlock(Ordered(rs)).value;
            && |p| == |PuntaDates(Ordered(rs))| && |p| <= |out|
            && forall a :: 0 <= a < |p| ==> out[a] == p[a]
  {
    FormatReadingsSplit(rs, out);
    PuntaBlockCount(Ordered(rs), PuntaBlock(Ordered(rs)).value);
  }

  /** One date of `FormatDataCover`, for a Punta block `p` at the head of `out`. */
  lemma CoverAt(rs: seq<Reading>, p: seq<GenRow>, out: seq<GenRow>, d: int)
    requires PuntaBlock(Ordered(rs)) == Ok(p)
    requires |p| <= |out| && forall a :: 0 <= a < |p| ==> out[a] == p[a]
    ensures RowDated(out, |p|, d) <==> PuntaDated(rs, d)
  {
    OrderedBlockDates(rs, p, d);
    PrefixDates(p, out, d);
  }

  lemma PuntaBlockCount(rs: seq<Reading>, p: seq<GenRow>)
    requires PuntaBlock(rs) == Ok(p)
    ensures |p| == |PuntaDates(rs)|
  {
    PuntaBlockRows(rs, p);
  }

  /** The pooled frame through the de-duplication and `getFormatData`. */
  function Pipeline(dataset: Frame): Result<seq<GenRow>, string>
    requires dataset.Valid()
  {
    match DedupDeviceDays(dataset)
    case Err(e) => Err(e)
    case Ok(d) => FormatData(d)
  }

  /** The measurement codes the main block queries: 0 … 3. */
  const CodeCount := 4

  lemma CollectedSnoc(responses: seq<Option<Frame>>, code: nat)
    requires ValidResponses(responses) && code < |responses|
    ensures ValidResponses(responses[..code]) && ValidResponses(responses[..code + 1])
    ensures Collected(responses[..code + 1]) ==
              Collected(responses[..code]) + (if NonEmpty(ClientResult(responses[code])) then [ClientResult(responses[code])] else [])
  {
    assert Results(responses[..code + 1]) == Results(responses[..code]) + [ClientResult(responses[code])];
    Seqs.FilterConcat(Results(responses[..code]), [ClientResult(responses[code])], NonEmpty);
  }

  /**
   * The main block, with the four HTTP responses as input: the non-empty results are pooled
   * and formatted; `None` stands for the "no data" warning, `Some(Err(_))` for an exception
   * the outer handler logs.
   */
  method RetrieveGeneration(responses: seq<Option<Frame>>) returns (outcome: Option<Result<seq<GenRow>, string>>)
    requires |responses| == CodeCount && ValidResponses(responses)
    ensures outcome.None? <==> forall i :: 0 <= i < |responses| ==> ClientResult(responses[i]).IsEmpty()
    ensures outcome.Some? ==>
              Collected(responses) != [] && outcome.value == Pipeline(Concat(Collected(responses)))
  {
    var container: seq<Frame> := [];
    for code := 0 to CodeCount
      invariant ValidResponses(responses[..code])
      invariant container == Collected(responses[..code])
    {
      CollectedSnoc(responses, code);
      var result := ClientResult(responses[code]);
      if !result.IsEmpty() {
        container := container + [result];
      }
    }
    assert responses[..CodeCount] == responses;
    CollectedSpec(responses);
    if container == [] {
      outcome := None;
    } else {
      var dataset := Concat(container);
      outcome := Some(Pipeline(dataset));
    }
  }
}
