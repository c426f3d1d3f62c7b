/** The yearly-averages table (`WeatherProcessor.problem2`): rows grouped by
    station and calendar year; the mean of the present maximum and minimum
    temperatures, the sum of the present precipitation divided by ten, each
    rounded to two digits; a missing mean written as -9999; rows listed by
    (file name, year) in ascending order. */
module YearlyAverages {
  import opened Wrappers
  import opened Ordering
  import opened Rounding
  import opened Readings
  import opened Stations

  /** `fillna(-9999)`: the marker for a group without any value. */
  const NoData: real := -9999.0

  /** A `groupby(['station_id', 'year'])` key. */
  datatype GroupKey = GroupKey(stationId: string, year: int)

  /** `wd['year'] = wd.date.dt.year`, paired with the station id. */
  function KeyOf(r: WeatherRow): GroupKey
  {
    GroupKey(r.stationId, r.obs.date.year)
  }

  /** The keys that occur in the master table. */
  function GroupKeys(rows: seq<WeatherRow>): set<GroupKey>
  {
    if |rows| == 0 then {} else GroupKeys(rows[..|rows| - 1]) + {KeyOf(rows[|rows| - 1])}
  }

  /** The days of one group, in table order. */
  function Group(rows: seq<WeatherRow>, key: GroupKey): seq<Observation>
  {
    if |rows| == 0 then []
    else
      var rest := Group(rows[..|rows| - 1], key);
      if KeyOf(rows[|rows| - 1]) == key then rest + [rows[|rows| - 1].obs] else rest
  }

  function Tmaxes(g: seq<Observation>): seq<Option<real>>
  {
    seq(|g|, i requires 0 <= i < |g| => g[i].tmax)
  }

  function Tmins(g: seq<Observation>): seq<Option<real>>
  {
    seq(|g|, i requires 0 <= i < |g| => g[i].tmin)
  }

  function Precips(g: seq<Observation>): seq<Option<real>>
  {
    seq(|g|, i requires 0 <= i < |g| => g[i].precip)
  }

  /** The non-null values of a column, in order (pandas skips NaN). */
  function Present(vals: seq<Option<real>>): seq<real>
  {
    if |vals| == 0 then []
    else
      var rest := Present(vals[..|vals| - 1]);
      match vals[|vals| - 1]
      case None => rest
      case Some(v) => rest + [v]
  }

  function Sum(xs: seq<real>): real
  {
    if |xs| == 0 then 0.0 else Sum(xs[..|xs| - 1]) + xs[|xs| - 1]
  }

  /** A mean from a sum and a count; NaN (None) when nothing was counted. */
  function MeanOf(sum: real, count: nat): Option<real>
  {
    if count == 0 then None else Some(sum / count as real)
  }

  /** `np.mean` as a groupby aggregate: the mean of the non-null values. */
  function Mean(vals: seq<Option<real>>): Option<real>
  {
    MeanOf(Sum(Present(vals)), |Present(vals)|)
  }

  function RoundOpt(v: Option<real>): Option<real>
  {
    match v
    case None => None
    case Some(x) => Some(Round2(x))
  }

  function FillNa(v: Option<real>): real
  {
    match v
    case None => NoData
    case Some(x) => x
  }

  /** One output row: `filename`, `year`, `avg_max`, `avg_min`, `total_precip`. */
  datatype YearlyRow = YearlyRow(filename: string, year: int, avgMax: real, avgMin: real, totalPrecip: real)

  /** The running sums and counts from which a group's row is computed. */
  datatype Tally = Tally(maxSum: real, maxCount: nat, minSum: real, minCount: nat, precipSum: real)

  /** The sums and counts of a group's present values. */
  function TallyOf(g: seq<Observation>): Tally
  {
    Tally(Sum(Present(Tmaxes(g))), |Present(Tmaxes(g))|,
          Sum(Present(Tmins(g))), |Present(Tmins(g))|,
          Sum(Present(Precips(g))))
  }

  /** Adds one day to a tally; a missing value adds nothing. */
  function AddDay(t: Tally, o: Observation): Tally
  {
    Tally(t.maxSum + (if o.tmax.Some? then o.tmax.value else 0.0),
          t.maxCount + (if o.tmax.Some? then 1 else 0),
          t.minSum + (if o.tmin.Some? then o.tmin.value else 0.0),
          t.minCount + (if o.tmin.Some? then 1 else 0),
          t.precipSum + (if o.precip.Some? then o.precip.value else 0.0))
  }

  /** The row of a group: means rounded to two digits, then -9999 for a
      missing mean; precipitation divided by ten, then rounded. */
  function Finish(key: GroupKey, t: Tally): YearlyRow
  {
    YearlyRow(FileName(key.stationId), key.year,
              FillNa(RoundOpt(MeanOf(t.maxSum, t.maxCount))),
              FillNa(RoundOpt(MeanOf(t.minSum, t.minCount))),
              Round2(t.precipSum / 10.0))
  }

  /** The output row for one (station, year) group of the master table. */
  function Summarize(rows: seq<WeatherRow>, key: GroupKey): YearlyRow
  {
    Finish(key, TallyOf(Group(rows, key)))
  }

  /** The sort key of an output row, and the order of `sort_values(['filename', 'year'])`. */
  datatype FileYear = FileYear(file: string, year: int)

  predicate FileYearLess(a: FileYear, b: FileYear)
  {
    LexLess(a.file, b.file) || (a.file == b.file && a.year < b.year)
  }

  function SortKeys(t: seq<YearlyRow>): seq<FileYear>
  {
    seq(|t|, k requires 0 <= k < |t| => FileYear(t[k].filename, t[k].year))
  }

  /** What `problem2` writes for master table `rows`: sorted strictly by
      (filename, year); each row is the summary of a group of the table; every
      group of the table has a row. */
  ghost predicate IsYearlyTable(rows: seq<WeatherRow>, t: seq<YearlyRow>)
  {
    && SortedBy(SortKeys(t), FileYearLess)
    && (forall k :: 0 <= k < |t| ==>
          && IsStationFile(t[k].filename)
          && GroupKey(StationId(t[k].filename), t[k].year) in GroupKeys(rows)
          && t[k] == Summarize(rows, GroupKey(StationId(t[k].filename), t[k].year)))
    && (forall key :: key in GroupKeys(rows) ==> FileYear(FileName(key.stationId), key.year) in SortKeys(t))
  }

  lemma FileYearLessIsStrictTotalOrder()
    ensures IsStrictTotalOrder(FileYearLess)
  {
    LexLessIsStrictTotalOrder();
  }

  /** A group has a day exactly when its key occurs in the table. */
  lemma {:induction false} GroupNonEmpty(rows: seq<WeatherRow>, key: GroupKey)
    ensures |Group(rows, key)| > 0 <==> key in GroupKeys(rows)
  {
    if |rows| > 0 {
      GroupNonEmpty(rows[..|rows| - 1], key);
    }
  }

  lemma GroupSnoc(rows: seq<WeatherRow>, r: WeatherRow, key: GroupKey)
    ensures GroupKeys(rows + [r]) == GroupKeys(rows) + {KeyOf(r)}
    ensures Group(rows + [r], key) == if KeyOf(r) == key then Group(rows, key) + [r.obs] else Group(rows, key)
  {
    assert (rows + [r])[..|rows|] == rows;
  }

  lemma TallyOfEmpty()
    ensures TallyOf([]) == Tally(0.0, 0, 0.0, 0, 0.0)
  {
    assert Tmaxes([]) == [] && Tmins([]) == [] && Precips([]) == [];
  }

  /** `tallies` holds, for each group of `rows`, the tally of that group. */
  ghost predicate TalliesOf(rows: seq<WeatherRow>, tallies: map<GroupKey, Tally>)
  {
    && tallies.Keys == GroupKeys(rows)
    && forall key :: key in tallies ==> tallies[key] == TallyOf(Group(rows, key))
  }

  /** The running tally of `key`, or the empty tally for a group not seen yet. */
  function Running(tallies: map<GroupKey, Tally>, key: GroupKey): Tally
  {
    if key in tallies then tallies[key] else Tally(0.0, 0, 0.0, 0, 0.0)
  }

  /** Adding one row to the tally of its own group keeps the tallies exact. */
  lemma TalliesOfSnoc(rows: seq<WeatherRow>, r: WeatherRow, extended: seq<WeatherRow>, tallies: map<GroupKey, Tally>)
    requires TalliesOf(rows, tallies) && extended == rows + [r]
    ensures TalliesOf(extended, tallies[KeyOf(r) := AddDay(Running(tallies, KeyOf(r)), r.obs)])
  {
    var key := KeyOf(r);
    if key !in tallies {
      GroupNonEmpty(rows, key);
      TallyOfEmpty();
    }
    TallyOfSnoc(Group(rows, key), r.obs);
    var after := tallies[key := AddDay(Running(tallies, key), r.obs)];
    GroupSnoc(rows, r, key);
    forall key' | key' in after
      ensures after[key'] == TallyOf(Group(rows + [r], key'))
    {
      GroupSnoc(rows, r, key');
    }
  }

  lemma PrefixSnoc(rows: seq<WeatherRow>, i: nat)
    requires i < |rows|
    ensures rows[..i + 1] == rows[..i] + [rows[i]]
  {
  }

  /** The loop step of `TallyGroups`, on a prefix of the master table. */
  lemma TallyGroupsStep(rows: seq<WeatherRow>, i: nat, tallies: map<GroupKey, Tally>)
    requires i < |rows| && TalliesOf(rows[..i], tallies)
    ensures TalliesOf(rows[..i + 1], tallies[KeyOf(rows[i]) := AddDay(Running(tallies, KeyOf(rows[i])), rows[i].obs)])
  {
    PrefixSnoc(rows, i);
    TalliesOfSnoc(rows[..i], rows[i], rows[..i + 1], tallies);
  }

  /** `groupby(['station_id', 'year'])`: one pass over the master table
      keeping the running sums and counts of every group. */
  method TallyGroups(rows: seq<WeatherRow>) returns (tallies: map<GroupKey, Tally>)
    ensures TalliesOf(rows, tallies)
  {
    tallies := map[];
    var i := 0;
    while i < |rows|
      invariant 0 <= i <= |rows|
      invariant TalliesOf(rows[..i], tallies)
    {
      var key := KeyOf(rows[i]);
      TallyGroupsStep(rows, i, tallies);
      tallies := tallies[key := AddDay(Running(tallies, key), rows[i].obs)];
      i := i + 1;
    }
    assert rows[..i] == rows;
  }

  /** The tallies as output rows, one per sort key of `keys`, in that order. */
  function YearlyRowsFor(tallies: map<GroupKey, Tally>, keys: seq<FileYear>): (t: seq<YearlyRow>)
    requires forall fy :: fy in keys ==> IsStationFile(fy.file) && GroupKey(StationId(fy.file), fy.year) in tallies
    ensures SortKeys(t) == keys
  {
    var t := seq(|keys|, k requires 0 <= k < |keys| =>
      Finish(GroupKey(StationId(keys[k].file), keys[k].year), tallies[GroupKey(StationId(keys[k].file), keys[k].year)]));
    assert SortKeys(t) == keys;
    t
  }

  /** Listing the rows of every group in ascending (filename, year) order
      gives the yearly-averages table. */
  lemma YearlyRowsForIsYearlyTable(rows: seq<WeatherRow>, tallies: map<GroupKey, Tally>, keys: seq<FileYear>)
    requires TalliesOf(rows, tallies)
    requires SortedBy(keys, FileYearLess)
    requires forall fy :: fy in keys <==> exists key :: key in tallies && FileYear(FileName(key.stationId), key.year) == fy
    ensures forall fy :: fy in keys ==> IsStationFile(fy.file) && GroupKey(StationId(fy.file), fy.year) in tallies
    ensures IsYearlyTable(rows, YearlyRowsFor(tallies, keys))
  {
    forall fy | fy in keys
      ensures IsStationFile(fy.file) && GroupKey(StationId(fy.file), fy.year) in tallies
    {
      var key :| key in tallies && FileYear(FileName(key.stationId), key.year) == fy;
      assert GroupKey(StationId(fy.file), fy.year) == key;
    }
    forall key | key in GroupKeys(rows)
      ensures FileYear(FileName(key.stationId), key.year) in keys
    {
    }
  }

  /** Adding a day's value to a column adds it to the column's sum and count. */
  lemma PresentSnoc(vals: seq<Option<real>>, v: Option<real>)
    ensures |Present(vals + [v])| == |Present(vals)| + (if v.Some? then 1 else 0)
    ensures Sum(Present(vals + [v])) == Sum(Present(vals)) + (if v.Some? then v.value else 0.0)
  {
    assert (vals + [v])[..|vals|] == vals;
    if v.Some? {
      assert (Present(vals) + [v.value])[..|Present(vals)|] == Present(vals);
    }
  }

  /** Adding a day to a group adds it to the tally. */
  lemma TallyOfSnoc(g: seq<Observation>, o: Observation)
    ensures TallyOf(g + [o]) == AddDay(TallyOf(g), o)
  {
    assert Tmaxes(g + [o]) == Tmaxes(g) + [o.tmax];
    assert Tmins(g + [o]) == Tmins(g) + [o.tmin];
    assert Precips(g + [o]) == Precips(g) + [o.precip];
    PresentSnoc(Tmaxes(g), o.tmax);
    PresentSnoc(Tmins(g), o.tmin);
    PresentSnoc(Precips(g), o.precip);
  }

  /** n * lo <= sum <= n * hi when every value lies in [lo, hi]. */
  lemma {:induction false} SumBounds(xs: seq<real>, lo: real, hi: real)
    requires forall v :: v in xs ==> lo <= v <= hi
    ensures |xs| as real * lo <= Sum(xs) <= |xs| as real * hi
  {
    if |xs| > 0 {
      var init := xs[..|xs| - 1];
      assert forall v :: v in init ==> v in xs;
      SumBounds(init, lo, hi);
      assert xs[|xs| - 1] in xs;
      var n := |init| as real;
      assert |xs| as real == n + 1.0;
      assert Sum(xs) == Sum(init) + xs[|xs| - 1];
      assert (n + 1.0) * lo == n * lo + lo;
      assert (n + 1.0) * hi == n * hi + hi;
    }
  }

  /** Dividing by a positive count keeps a bound on the average. */
  lemma DivBounds(sum: real, n: real, lo: real, hi: real)
    requires n > 0.0 && n * lo <= sum <= n * hi
    ensures lo <= sum / n <= hi
  {
  }

  /** The mean of the present values lies between their least and greatest. */
  lemma MeanBounds(vals: seq<Option<real>>, lo: real, hi: real)
    requires |Present(vals)| > 0
    requires forall v :: v in Present(vals) ==> lo <= v <= hi
    ensures Mean(vals).Some?
    ensures lo <= Mean(vals).value <= hi
  {
    var xs := Present(vals);
    SumBounds(xs, lo, hi);
    DivBounds(Sum(xs), |xs| as real, lo, hi);
  }

  /** A rounded mean column: -9999 when the group has no value; otherwise two
      fractional digits, within 0.005 of the exact mean, and so within 0.005
      of the range of the group's values. */
  lemma RoundedMean(vals: seq<Option<real>>, lo: real, hi: real)
    requires forall v :: v in Present(vals) ==> lo <= v <= hi
    ensures |Present(vals)| == 0 ==> FillNa(RoundOpt(Mean(vals))) == NoData
    ensures |Present(vals)| > 0 ==>
      && HasTwoDecimals(FillNa(RoundOpt(Mean(vals))))
      && -0.005 <= FillNa(RoundOpt(Mean(vals))) - Mean(vals).value <= 0.005
      && lo - 0.005 <= FillNa(RoundOpt(Mean(vals))) <= hi + 0.005
  {
    if |Present(vals)| > 0 {
      MeanBounds(vals, lo, hi);
    }
  }

  /** `avg_max` and `avg_min` of a group's row, as `RoundedMean` states. */
  lemma SummaryAverages(rows: seq<WeatherRow>, key: GroupKey, lo: real, hi: real)
    requires forall v :: v in Present(Tmaxes(Group(rows, key))) ==> lo <= v <= hi
    requires forall v :: v in Present(Tmins(Group(rows, key))) ==> lo <= v <= hi
    ensures var g := Group(rows, key); var r := Summarize(rows, key);
      && r.filename == FileName(key.stationId) && r.year == key.year
      && r.avgMax == FillNa(RoundOpt(Mean(Tmaxes(g))))
      && r.avgMin == FillNa(RoundOpt(Mean(Tmins(g))))
      && (|Present(Tmaxes(g))| == 0 ==> r.avgMax == NoData)
      && (|Present(Tmins(g))| == 0 ==> r.avgMin == NoData)
      && (|Present(Tmaxes(g))| > 0 ==> HasTwoDecimals(r.avgMax) && lo - 0.005 <= r.avgMax <= hi + 0.005)
      && (|Present(Tmins(g))| > 0 ==> HasTwoDecimals(r.avgMin) && lo - 0.005 <= r.avgMin <= hi + 0.005)
  {
    var g := Group(rows, key);
    RoundedMean(Tmaxes(g), lo, hi);
    RoundedMean(Tmins(g), lo, hi);
  }

  /** `total_precip`: the sum of the present values (0 for none), divided by
      ten, to two fractional digits; never the -9999 marker when the values
      are not negative. */
  lemma SummaryPrecip(rows: seq<WeatherRow>, key: GroupKey)
    ensures var total := Sum(Present(Precips(Group(rows, key)))) / 10.0;
      && HasTwoDecimals(Summarize(rows, key).totalPrecip)
      && -0.005 <= Summarize(rows, key).totalPrecip - total <= 0.005
    ensures (forall v :: v in Present(Precips(Group(rows, key))) ==> v >= 0.0) ==>
      Summarize(rows, key).totalPrecip >= 0.0
  {
    var xs := Present(Precips(Group(rows, key)));
    if forall v :: v in xs ==> v >= 0.0 {
      SumNonNegative(xs);
    }
  }

  lemma {:induction false} SumNonNegative(xs: seq<real>)
    requires forall v :: v in xs ==> v >= 0.0
    ensures Sum(xs) >= 0.0
  {
    if |xs| > 0 {
      var init := xs[..|xs| - 1];
      assert forall v :: v in init ==> v in xs;
      SumNonNegative(init);
      assert xs[|xs| - 1] in xs;
    }
  }

  /** Each group of the table has exactly one row, and it is that group's summary. */
  lemma YearlyTableOneRow(rows: seq<WeatherRow>, t: seq<YearlyRow>, key: GroupKey)
    requires IsYearlyTable(rows, t) && key in GroupKeys(rows)
    ensures exists k :: 0 <= k < |t| && t[k] == Summarize(rows, key)
    ensures forall j, k ::
      && 0 <= j < |t| && 0 <= k < |t|
      && t[j].filename == t[k].filename == FileName(key.stationId)
      && t[j].year == t[k].year == key.year
      ==> j == k
  {
    FileYearLessIsStrictTotalOrder();
    var ks := SortKeys(t);
    var k :| 0 <= k < |ks| && ks[k] == FileYear(FileName(key.stationId), key.year);
    assert t[k].filename == FileName(key.stationId);
    forall j, k' | 0 <= j < |t| && 0 <= k' < |t| && t[j].filename == t[k'].filename == FileName(key.stationId)
      && t[j].year == t[k'].year == key.year
      ensures j == k'
    {
      var kj, kk := ks[j], ks[k'];
      assert kj == kk;
      assert j < k' ==> FileYearLess(kj, kk);
      assert k' < j ==> FileYearLess(kk, kj);
    }
  }

  /** A sort key of one such table is a sort key of any other. */
  lemma YearlyTableSameKey(rows: seq<WeatherRow>, a: seq<YearlyRow>, b: seq<YearlyRow>, x: FileYear)
    requires IsYearlyTable(rows, a) && IsYearlyTable(rows, b) && x in SortKeys(a)
    ensures x in SortKeys(b)
  {
    var k :| 0 <= k < |a| && SortKeys(a)[k] == x;
    assert IsStationFile(a[k].filename) && GroupKey(StationId(a[k].filename), a[k].year) in GroupKeys(rows);
    assert FileName(StationId(a[k].filename)) == x.file;
  }

  /** The table is determined by the master table. */
  lemma YearlyTableUnique(rows: seq<WeatherRow>, a: seq<YearlyRow>, b: seq<YearlyRow>)
    requires IsYearlyTable(rows, a) && IsYearlyTable(rows, b)
    ensures a == b
  {
    FileYearLessIsStrictTotalOrder();
    forall x
      ensures x in SortKeys(a) <==> x in SortKeys(b)
    {
      if x in SortKeys(a) {
        YearlyTableSameKey(rows, a, b, x);
      }
      if x in SortKeys(b) {
        YearlyTableSameKey(rows, b, a, x);
      }
    }
    SortedUnique(SortKeys(a), SortKeys(b), FileYearLess);
    assert |a| == |SortKeys(a)|;
    forall k | 0 <= k < |a|
      ensures a[k] == b[k]
    {
      assert SortKeys(a)[k] == SortKeys(b)[k];
    }
  }
}
