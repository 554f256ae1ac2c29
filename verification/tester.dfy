/**
 * `app/tester.py`: the dashboard variant that parses generation dates strictly and shows
 * every wind forecast row, padding in the wind columns a file lacks.
 */
module Tester {
  import opened Wrappers
  import opened Frames
  import opened Dashboard

  const GenerationNotFound := "Missing 'currentGen.parquet'. Put it in ./dataset/ or ../dataset/ or set DATASET_PATH."

  /**
   * The generation table of tester: a date cell that is neither a timestamp nor missing
   * stops the app. Without a file the app stops with tester's own message.
   */
  function Generation(env: Option<string>, exists_: string -> bool, read: string -> Frame): (r: Result<Frame, LoadError>)
    requires forall p :: read(p).Valid()
    ensures r.Err? && r.error.FileNotFound? ==> r.error.message == GenerationNotFound
    ensures r.Ok? ==> GenerationColumns <= ColumnSet(r.value.columns)
  {
    LoadGenerationSpec(env, exists_, read, GenerationNotFound, false);
    LoadGeneration(env, exists_, read, GenerationNotFound, false)
  }

  /** True when the table lacks one of the four wind columns (`wmissing` is non-empty). */
  predicate LacksWindColumn(f: Frame)
  {
    exists c :: c in WindColumns && c !in f.columns
  }

  /**
   * The wind table of tester at start-up. `file` is the table read from the first existing
   * wind candidate, None when there is none. With a file: the missing wind columns padded in
   * (only when some are missing) and the `date` column coerced, so that row `i` is the file's
   * row `i` laid out as a loaded row; without one: the empty wind table with its (empty) date
   * column parsed.
   */
  method LoadWind(file: Option<Frame>) returns (w: Frame)
    requires file.Some? ==> file.value.Valid()
    ensures w.Valid() && forall c :: c in WindColumns ==> c in w.columns
    ensures file.None? ==> w == EmptyWind()
    ensures file.Some? ==> |w.rows| == |file.value.rows|
    ensures file.Some? ==> forall c :: c in w.columns <==> c in file.value.columns || c in WindColumns
    ensures file.Some? && !LacksWindColumn(file.value) ==> w.columns == file.value.columns
    ensures file.Some? ==> LoadedRows(file.value.columns, file.value.rows, w)
    ensures forall i :: 0 <= i < |w.rows| ==> var d := CellAt(w.columns, w.rows[i], "date"); d.Time? || d.Missing?
  {
    if file.None? {
      w := EmptyWind();
      var k := IndexOf(w.columns, "date").value;
      ConvertDatesSpec(w, k, false);
      var parsed := ConvertDates(w, k, false);
      assert parsed.value.rows == [];
      w := parsed.value;
    } else {
      var f := file.value;
      var p := f;
      if LacksWindColumn(f) {
        p := PadColumns(f, WindColumns);
      } else {
        assert f.columns[..|f.columns|] == f.columns;
        assert forall i :: 0 <= i < |f.rows| ==> f.rows[i][..|f.columns|] == f.rows[i];
      }
      assert "date" in p.columns;
      PaddedCoercedRows(f, p);
      w := Coerced(p, IndexOf(p.columns, "date").value);
    }
    forall i | 0 <= i < |w.rows|
      ensures var d := CellAt(w.columns, w.rows[i], "date"); d.Time? || d.Missing?
    {
    }
  }
}
