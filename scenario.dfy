/** One station file `S1.txt` with three days, run through the whole
    pipeline: two days in 2020 (one without precipitation) and one day in
    2021 without precipitation. */
module Scenario {
  import opened Wrappers
  import opened Ordering
  import opened Rounding
  import opened Readings
  import opened Stations
  import opened MissingPrecip
  import opened YearlyAverages
  import opened Processor

  function S1Raw(): seq<RawRow>
  {
    [RawRow(20200101, 10, 0, Sentinel),
     RawRow(20200102, 20, 5, 50),
     RawRow(20210101, 30, 10, Sentinel)]
  }

  function S1Days(): seq<Observation>
  {
    [Observation(Date(2020, 1, 1), Some(1.0), Some(0.0), None),
     Observation(Date(2020, 1, 2), Some(2.0), Some(0.5), Some(5.0)),
     Observation(Date(2021, 1, 1), Some(3.0), Some(1.0), None)]
  }

  function S1Listing(): seq<StationSource>
  {
    [StationSource("S1.txt", S1Raw()), StationSource("notes.csv", [])]
  }

  /** A row whose date parses is read in front of the rows after it. */
  lemma ReadsRow(r: RawRow, rest: seq<RawRow>, o: Observation, os: seq<Observation>)
    requires ParseDate(r.date) == Some(o.date)
    requires Scale(r.tmax) == o.tmax && Scale(r.tmin) == o.tmin && Scale(r.precip) == o.precip
    requires ReadWeather(rest) == Success(os)
    ensures ReadWeather([r] + rest) == Success([o] + os)
  {
    assert ([r] + rest)[1..] == rest;
  }

  lemma S1Dates()
    ensures ParseDate(20200101) == Some(Date(2020, 1, 1))
    ensures ParseDate(20200102) == Some(Date(2020, 1, 2))
    ensures ParseDate(20210101) == Some(Date(2021, 1, 1))
  {
    ParseDateNumber(Date(2020, 1, 1));
    ParseDateNumber(Date(2020, 1, 2));
    ParseDateNumber(Date(2021, 1, 1));
  }

  /** Reading the file parses the dates and scales the readings. */
  lemma S1Reads()
    ensures ReadWeather(S1Raw()) == Success(S1Days())
  {
    var raw, days := S1Raw(), S1Days();
    S1Dates();
    ReadsRow(raw[2], [], days[2], []);
    assert [raw[2]] + [] == [raw[2]] && [days[2]] + [] == [days[2]];
    ReadsRow(raw[1], [raw[2]], days[1], [days[2]]);
    assert [raw[1]] + [raw[2]] == [raw[1], raw[2]] && [days[1]] + [days[2]] == [days[1], days[2]];
    ReadsRow(raw[0], [raw[1], raw[2]], days[0], [days[1], days[2]]);
    assert [raw[0]] + [raw[1], raw[2]] == raw;
    assert [days[0]] + [days[1], days[2]] == days;
  }

  /** Only the ".txt" entry of the listing is a station file. */
  lemma S1Files()
    ensures StationFiles(S1Listing()) == [StationSource("S1.txt", S1Raw())]
  {
    assert LastFour("S1.txt") == ".txt";
    assert LastFour("notes.csv") == ".csv";
    var listing := S1Listing();
    assert listing[..1][..0] == [] && listing[..|listing| - 1] == listing[..1];
    assert StationFiles(listing[..1]) == [listing[0]];
  }

  /** Reading one station file that parses yields its rows tagged with its id. */
  lemma ReadsOneFile(f: StationSource, obs: seq<Observation>)
    requires IsStationFile(f.name) && ReadWeather(f.raw) == Success(obs)
    ensures ReadStations([f]) == Success(Tag(StationId(f.name), obs))
  {
    assert [f][..0] == [];
    assert [] + Tag(StationId(f.name), obs) == Tag(StationId(f.name), obs);
  }

  /** The listing loads into the rows of S1.txt, tagged with "S1". */
  lemma S1Loads()
    ensures LoadStations(S1Listing()) == Success(Tag("S1", S1Days()))
  {
    S1Files();
    S1Reads();
    assert LastFour("S1.txt") == ".txt";
    assert StationId("S1.txt") == "S1";
    ReadsOneFile(StationSource("S1.txt", S1Raw()), S1Days());
  }

  /** Both 2020-01-01 and 2021-01-01 have both temperatures and no
      precipitation, so the station counts two such days. */
  lemma S1MissingTable()
    ensures IsMissingTable(Tag("S1", S1Days()), [MissingRow("S1.txt", 2)])
  {
    var rows := Tag("S1", S1Days());
    CountMissingTag("S1", S1Days());
    var d := S1Days();
    assert d[..2][..1] == d[..1] && d[..3][..2] == d[..2] && d[..1][..0] == [];
    assert d[..3] == d;
    assert MissingDays(d[..1]) == 1;
    assert MissingDays(d[..2]) == 1;
    assert MissingDays(d) == 2;
    assert StationIds(rows) == {"S1"} by {
      forall id
        ensures id in StationIds(rows) <==> id == "S1"
      {
        StationIdsMembers(rows, id);
        if id == "S1" {
          assert rows[0].stationId == id;
        }
      }
    }
    assert FileName("S1") == "S1.txt";
    assert Files([MissingRow("S1.txt", 2)]) == ["S1.txt"];
  }

  /** The master table has one group per year: the first two days in 2020
      and the last in 2021. */
  predicate S1Grouped(rows: seq<WeatherRow>)
  {
    && GroupKeys(rows) == {GroupKey("S1", 2020), GroupKey("S1", 2021)}
    && Group(rows, GroupKey("S1", 2020)) == S1Days()[..2]
    && Group(rows, GroupKey("S1", 2021)) == [S1Days()[2]]
  }

  lemma S1Groups()
    ensures S1Grouped(Tag("S1", S1Days()))
  {
    var rows := Tag("S1", S1Days());
    assert rows[..2][..1] == rows[..1] && rows[..3][..2] == rows[..2] && rows[..1][..0] == [];
    assert rows[..3] == rows;
    assert GroupKeys(rows[..1]) == {GroupKey("S1", 2020)};
    assert Group(rows[..1], GroupKey("S1", 2020)) == S1Days()[..1];
    assert Group(rows[..2], GroupKey("S1", 2020)) == S1Days()[..2];
    assert Group(rows[..1], GroupKey("S1", 2021)) == [];
    assert Group(rows[..2], GroupKey("S1", 2021)) == [];
  }

  /** The tally of 2020: two maxima summing to 3.0, two minima summing to
      0.5, one precipitation reading of 5.0. */
  lemma S1Tally2020()
    ensures TallyOf(S1Days()[..2]) == Tally(3.0, 2, 0.5, 2, 5.0)
  {
    var d := S1Days();
    TallyOfEmpty();
    TallyOfSnoc([], d[0]);
    assert [] + [d[0]] == [d[0]];
    TallyOfSnoc([d[0]], d[1]);
    assert [d[0]] + [d[1]] == d[..2];
  }

  lemma S1Tally2021()
    ensures TallyOf([S1Days()[2]]) == Tally(3.0, 1, 1.0, 1, 0.0)
  {
    var d := S1Days();
    TallyOfEmpty();
    TallyOfSnoc([], d[2]);
    assert [] + [d[2]] == [d[2]];
  }

  /** 2020: means 3.0 / 2 and 0.5 / 2; precipitation 5.0 / 10. */
  lemma S1Summary2020(rows: seq<WeatherRow>)
    requires S1Grouped(rows)
    ensures Summarize(rows, GroupKey("S1", 2020)) == YearlyRow("S1.txt", 2020, 1.5, 0.25, 0.5)
  {
    S1Tally2020();
    RoundHalfEvenUnique(150.0, 150);
    RoundHalfEvenUnique(25.0, 25);
    RoundHalfEvenUnique(50.0, 50);
  }

  /** 2021: means 3.0 and 1.0; the sum of no precipitation is 0. */
  lemma S1Summary2021(rows: seq<WeatherRow>)
    requires S1Grouped(rows)
    ensures Summarize(rows, GroupKey("S1", 2021)) == YearlyRow("S1.txt", 2021, 3.0, 1.0, 0.0)
  {
    S1Tally2021();
    RoundHalfEvenUnique(300.0, 300);
    RoundHalfEvenUnique(100.0, 100);
    RoundHalfEvenUnique(0.0, 0);
  }

  function S1Yearly(): seq<YearlyRow>
  {
    [YearlyRow("S1.txt", 2020, 1.5, 0.25, 0.5), YearlyRow("S1.txt", 2021, 3.0, 1.0, 0.0)]
  }

  lemma S1YearlySorted()
    ensures SortedBy(SortKeys(S1Yearly()), FileYearLess)
  {
    var keys := SortKeys(S1Yearly());
    assert keys == [FileYear("S1.txt", 2020), FileYear("S1.txt", 2021)];
    assert FileYearLess(keys[0], keys[1]);
  }

  lemma S1YearlyRows(rows: seq<WeatherRow>)
    requires S1Grouped(rows)
    ensures forall k :: 0 <= k < |S1Yearly()| ==>
      && IsStationFile(S1Yearly()[k].filename)
      && GroupKey(StationId(S1Yearly()[k].filename), S1Yearly()[k].year) in GroupKeys(rows)
      && S1Yearly()[k] == Summarize(rows, GroupKey(StationId(S1Yearly()[k].filename), S1Yearly()[k].year))
  {
    assert StationId("S1.txt") == "S1";
    S1Summary2020(rows);
    S1Summary2021(rows);
  }

  lemma S1YearlyCovers(rows: seq<WeatherRow>)
    requires S1Grouped(rows)
    ensures forall key :: key in GroupKeys(rows) ==> FileYear(FileName(key.stationId), key.year) in SortKeys(S1Yearly())
  {
    assert FileName("S1") == "S1.txt";
    assert SortKeys(S1Yearly()) == [FileYear("S1.txt", 2020), FileYear("S1.txt", 2021)];
  }

  lemma S1YearlyTable()
    ensures IsYearlyTable(Tag("S1", S1Days()), S1Yearly())
  {
    S1Groups();
    S1YearlySorted();
    S1YearlyRows(Tag("S1", S1Days()));
    S1YearlyCovers(Tag("S1", S1Days()));
  }

  /** The whole run on the listing: `read_all_stations`, then `problem1` and
      `problem2`, give exactly these two tables. */
  method RunS1() returns (missing: seq<MissingRow>, yearly: seq<YearlyRow>)
    ensures missing == [MissingRow("S1.txt", 2)]
    ensures yearly == [YearlyRow("S1.txt", 2020, 1.5, 0.25, 0.5), YearlyRow("S1.txt", 2021, 3.0, 1.0, 0.0)]
  {
    var p := new WeatherProcessor("stations", "yield");
    S1Loads();
    var outcome := p.ReadAllStations(S1Listing());
    missing := p.Problem1();
    S1MissingTable();
    MissingTableUnique(Tag("S1", S1Days()), missing, [MissingRow("S1.txt", 2)]);
    yearly := p.Problem2();
    S1YearlyTable();
    YearlyTableUnique(Tag("S1", S1Days()), yearly, S1Yearly());
  }
}
