/** The missing-precipitation table (`WeatherProcessor.problem1`): per
    station, the number of days with both temperatures present and the
    precipitation missing, listed by file name in ascending order. */
module MissingPrecip {
  import opened Ordering
  import opened Readings
  import opened Stations

  /** `tmax.notna() & tmin.notna() & precip.isna()`. */
  predicate PrecipMissing(o: Observation)
  {
    o.tmax.Some? && o.tmin.Some? && o.precip.None?
  }

  /** The `missing_precip` column: `np.where(condition, 1, 0)`. */
  function Indicator(o: Observation): nat
  {
    if PrecipMissing(o) then 1 else 0
  }

  /** `groupby(['station_id'])['missing_precip'].sum()`, for one station id:
      the indicator summed over the master table's rows with that id. */
  function CountMissing(rows: seq<WeatherRow>, id: string): nat
  {
    if |rows| == 0 then 0
    else
      var last := rows[|rows| - 1];
      CountMissing(rows[..|rows| - 1], id) + (if last.stationId == id then Indicator(last.obs) else 0)
  }

  /** Number of days of one file whose precipitation is missing. */
  function MissingDays(obs: seq<Observation>): nat
  {
    if |obs| == 0 then 0 else MissingDays(obs[..|obs| - 1]) + Indicator(obs[|obs| - 1])
  }

  /** One row of the output: columns `file` and `missing_precip`. */
  datatype MissingRow = MissingRow(file: string, missingPrecip: nat)

  /** The `file` column. */
  function Files(t: seq<MissingRow>): seq<string>
  {
    seq(|t|, k requires 0 <= k < |t| => t[k].file)
  }

  /** What `problem1` writes for master table `rows`: sorted strictly by
      `file`; each row names a station of the table, as `<id>.txt`, with that
      station's count; every station of the table has a row. */
  ghost predicate IsMissingTable(rows: seq<WeatherRow>, t: seq<MissingRow>)
  {
    && SortedBy(Files(t), LexLess)
    && (forall k :: 0 <= k < |t| ==>
          && IsStationFile(t[k].file)
          && StationId(t[k].file) in StationIds(rows)
          && t[k].missingPrecip == CountMissing(rows, StationId(t[k].file)))
    && (forall id :: id in StationIds(rows) ==> FileName(id) in Files(t))
  }

  lemma CountMissingSnoc(rows: seq<WeatherRow>, r: WeatherRow, id: string)
    ensures CountMissing(rows + [r], id) == CountMissing(rows, id) + (if r.stationId == id then Indicator(r.obs) else 0)
  {
    assert (rows + [r])[..|rows|] == rows;
  }

  /** `counts` holds, for each station id of `rows`, that station's count. */
  ghost predicate CountsOf(rows: seq<WeatherRow>, counts: map<string, nat>)
  {
    && counts.Keys == StationIds(rows)
    && forall id :: id in counts ==> counts[id] == CountMissing(rows, id)
  }

  /** Adding one row's indicator to its station's count keeps the counts exact. */
  lemma CountsOfSnoc(rows: seq<WeatherRow>, r: WeatherRow, counts: map<string, nat>)
    requires CountsOf(rows, counts)
    ensures var before := if r.stationId in counts then counts[r.stationId] else 0;
      CountsOf(rows + [r], counts[r.stationId := before + Indicator(r.obs)])
  {
    if r.stationId !in counts {
      CountMissingAbsent(rows, r.stationId);
    }
    var before := if r.stationId in counts then counts[r.stationId] else 0;
    var after := counts[r.stationId := before + Indicator(r.obs)];
    StationIdsSnoc(rows, r);
    forall id | id in after
      ensures after[id] == CountMissing(rows + [r], id)
    {
      CountMissingSnoc(rows, r, id);
    }
  }

  /** `groupby(['station_id'])['missing_precip'].sum()`: one pass over the
      master table adding each row's indicator to its station's count. */
  method CountByStation(rows: seq<WeatherRow>) returns (counts: map<string, nat>)
    ensures CountsOf(rows, counts)
  {
    counts := map[];
    var i := 0;
    while i < |rows|
      invariant 0 <= i <= |rows|
      invariant CountsOf(rows[..i], counts)
    {
      var row := rows[i];
      assert rows[..i + 1] == rows[..i] + [row];
      CountsOfSnoc(rows[..i], row, counts);
      var before := if row.stationId in counts then counts[row.stationId] else 0;
      counts := counts[row.stationId := before + Indicator(row.obs)];
      i := i + 1;
    }
    assert rows[..i] == rows;
  }

  /** The counts as output rows, one per file name of `files`, in that order
      (`reset_index`, the renaming to `file`, and `x + ".txt"`). */
  function MissingRowsFor(counts: map<string, nat>, files: seq<string>): (t: seq<MissingRow>)
    requires forall f :: f in files ==> IsStationFile(f) && StationId(f) in counts
    ensures Files(t) == files
  {
    var t := seq(|files|, k requires 0 <= k < |files| => MissingRow(files[k], counts[StationId(files[k])]));
    assert Files(t) == files;
    t
  }

  /** Listing the counts of every station in ascending file order gives the
      missing-precipitation table. */
  lemma MissingRowsForIsMissingTable(rows: seq<WeatherRow>, counts: map<string, nat>, files: seq<string>)
    requires CountsOf(rows, counts)
    requires SortedBy(files, LexLess)
    requires forall f :: f in files <==> exists id :: id in counts && FileName(id) == f
    ensures forall f :: f in files ==> IsStationFile(f) && StationId(f) in counts
    ensures IsMissingTable(rows, MissingRowsFor(counts, files))
  {
    forall f | f in files
      ensures IsStationFile(f) && StationId(f) in counts
    {
      var id :| id in counts && FileName(id) == f;
    }
    forall id | id in StationIds(rows)
      ensures FileName(id) in files
    {
    }
  }

  /** An id without rows counts zero. */
  lemma {:induction false} CountMissingAbsent(rows: seq<WeatherRow>, id: string)
    requires id !in StationIds(rows)
    ensures CountMissing(rows, id) == 0
  {
    if |rows| > 0 {
      CountMissingAbsent(rows[..|rows| - 1], id);
    }
  }

  /** A station's count is at most its number of days. */
  lemma {:induction false} CountMissingBound(rows: seq<WeatherRow>, id: string)
    ensures CountMissing(rows, id) <= |RowsOf(rows, id)|
  {
    if |rows| > 0 {
      CountMissingBound(rows[..|rows| - 1], id);
    }
  }

  /** A station's count is positive exactly when one of its days has both
      temperatures and no precipitation. */
  lemma {:induction false} CountMissingPositive(rows: seq<WeatherRow>, id: string)
    ensures CountMissing(rows, id) > 0 <==>
      exists i :: 0 <= i < |rows| && rows[i].stationId == id && PrecipMissing(rows[i].obs)
  {
    if |rows| > 0 {
      var init := rows[..|rows| - 1];
      CountMissingPositive(init, id);
      if exists i :: 0 <= i < |init| && init[i].stationId == id && PrecipMissing(init[i].obs) {
        var i :| 0 <= i < |init| && init[i].stationId == id && PrecipMissing(init[i].obs);
        assert rows[i] == init[i];
      }
      if exists i :: 0 <= i < |rows| && rows[i].stationId == id && PrecipMissing(rows[i].obs) {
        var i :| 0 <= i < |rows| && rows[i].stationId == id && PrecipMissing(rows[i].obs);
        if i < |rows| - 1 {
          assert init[i] == rows[i];
        }
      }
    }
  }

  /** Only a station's own rows contribute to its count. */
  lemma {:induction false} CountMissingRowsOf(rows: seq<WeatherRow>, id: string)
    ensures CountMissing(rows, id) == CountMissing(RowsOf(rows, id), id)
  {
    if |rows| > 0 {
      var init := rows[..|rows| - 1];
      var last := rows[|rows| - 1];
      CountMissingRowsOf(init, id);
      if last.stationId == id {
        assert (RowsOf(init, id) + [last])[..|RowsOf(init, id)|] == RowsOf(init, id);
      }
    }
  }

  lemma {:induction false} CountMissingTag(id: string, obs: seq<Observation>)
    ensures CountMissing(Tag(id, obs), id) == MissingDays(obs)
  {
    if |obs| > 0 {
      assert Tag(id, obs)[..|obs| - 1] == Tag(id, obs[..|obs| - 1]);
      CountMissingTag(id, obs[..|obs| - 1]);
    }
  }

  /** After a successful read of a listing with distinct names, a station's
      count is the number of missing-precipitation days of its own file. */
  lemma CountMissingOfStation(listing: seq<StationSource>, f: StationSource)
    requires LoadStations(listing).Success?
    requires DistinctNames(listing) && f in listing && IsStationFile(f.name)
    ensures ReadWeather(f.raw).Success?
    ensures CountMissing(LoadStations(listing).value, StationId(f.name)) == MissingDays(ReadWeather(f.raw).value)
  {
    LoadStationsRows(listing, f);
    CountMissingRowsOf(LoadStations(listing).value, StationId(f.name));
    CountMissingTag(StationId(f.name), ReadWeather(f.raw).value);
  }

  /** Every count in the table lies between 0 and the station's day count. */
  lemma MissingTableBounds(rows: seq<WeatherRow>, t: seq<MissingRow>, k: int)
    requires IsMissingTable(rows, t) && 0 <= k < |t|
    ensures 0 <= t[k].missingPrecip <= |RowsOf(rows, StationId(t[k].file))|
  {
    CountMissingBound(rows, StationId(t[k].file));
  }

  /** Each station of the table has exactly one row, carrying its count. */
  lemma MissingTableOneRow(rows: seq<WeatherRow>, t: seq<MissingRow>, id: string)
    requires IsMissingTable(rows, t) && id in StationIds(rows)
    ensures exists k :: 0 <= k < |t| && t[k] == MissingRow(FileName(id), CountMissing(rows, id))
    ensures forall j, k :: 0 <= j < |t| && 0 <= k < |t| && t[j].file == FileName(id) && t[k].file == FileName(id) ==> j == k
  {
    LexLessIsStrictTotalOrder();
    var fs := Files(t);
    var k :| 0 <= k < |fs| && fs[k] == FileName(id);
    assert t[k].file == FileName(id);
    forall j, k' | 0 <= j < |t| && 0 <= k' < |t| && t[j].file == FileName(id) && t[k'].file == FileName(id)
      ensures j == k'
    {
      var fj, fk := fs[j], fs[k'];
      assert fj == fk;
      assert j < k' ==> LexLess(fj, fk);
      assert k' < j ==> LexLess(fk, fj);
    }
  }

  /** Every file of one table for `rows` is a file of any other. */
  lemma MissingTableFileShared(rows: seq<WeatherRow>, a: seq<MissingRow>, b: seq<MissingRow>, x: string)
    requires IsMissingTable(rows, a) && IsMissingTable(rows, b) && x in Files(a)
    ensures x in Files(b)
  {
    var k :| 0 <= k < |a| && Files(a)[k] == x;
    assert FileName(StationId(a[k].file)) == x;
  }

  /** The table is determined by the master table: running `problem1` twice
      on the same data gives the same output. */
  lemma MissingTableUnique(rows: seq<WeatherRow>, a: seq<MissingRow>, b: seq<MissingRow>)
    requires IsMissingTable(rows, a) && IsMissingTable(rows, b)
    ensures a == b
  {
    forall x
      ensures x in Files(a) <==> x in Files(b)
    {
      if x in Files(a) {
        MissingTableFileShared(rows, a, b, x);
      }
      if x in Files(b) {
        MissingTableFileShared(rows, b, a, x);
      }
    }
    LexLessIsStrictTotalOrder();
    SortedUnique(Files(a), Files(b), LexLess);
    forall k | 0 <= k < |a|
      ensures a[k] == b[k]
    {
      assert Files(a)[k] == Files(b)[k];
    }
  }
}
