/** `WeatherProcessor`: reads the station files into the master table
    `weather_df` and derives the missing-precipitation and yearly-averages
    tables from it. The tables are returned instead of written to disk. */
module Processor {
  import opened Wrappers
  import opened Ordering
  import opened Readings
  import opened Stations
  import opened MissingPrecip
  import opened YearlyAverages

  /** The loop of `read_all_stations`: reads each station file in turn and
      appends its rows, tagged with the station id, to `weather_list`. The
      first file that fails to parse ends the loop with its error. */
  method ReadFrames(stationList: seq<StationSource>) returns (r: Result<seq<seq<WeatherRow>>, LoadError>)
    requires forall f :: f in stationList ==> IsStationFile(f.name)
    ensures r.Success? ==> |r.value| == |stationList| && ReadStations(stationList) == Success(Concat(r.value))
    ensures r.Failure? ==> ReadStations(stationList) == Failure(r.error)
  {
    var weatherList: seq<seq<WeatherRow>> := [];
    var i := 0;
    while i < |stationList|
      invariant 0 <= i <= |stationList|
      invariant |weatherList| == i
      invariant ReadStations(stationList[..i]) == Success(Concat(weatherList))
    {
      var filename := stationList[i].name;
      var stationId := StationId(filename);
      var wd := ReadWeather(stationList[i].raw);
      ReadStationsStep(stationList, i, Concat(weatherList));
      if wd.Failure? {
        ReadStationsFailureSticks(stationList, i + 1);
        return Failure(SourceReadError(filename, wd.error));
      }
      ConcatSnoc(weatherList, Tag(stationId, wd.value));
      weatherList := weatherList + [Tag(stationId, wd.value)];
      i := i + 1;
    }
    assert stationList[..i] == stationList;
    return Success(weatherList);
  }

  class WeatherProcessor {
    const stationDir: string
    const yieldDir: string
    /** `self.weather_df`: absent until `ReadAllStations` succeeds. */
    var weather: Option<seq<WeatherRow>>

    constructor (stationDir: string, yieldDir: string)
      ensures this.stationDir == stationDir && this.yieldDir == yieldDir
      ensures weather == None
    {
      this.stationDir := stationDir;
      this.yieldDir := yieldDir;
      weather := None;
    }

    /** `read_all_stations`, given the entries of the station directory:
        keeps the ".txt" entries, reads each, tags its rows with its id and
        concatenates them. A file that fails to parse, or an empty list of
        frames for `pd.concat`, raises and leaves `weather_df` as it was. */
    method ReadAllStations(listing: seq<StationSource>) returns (outcome: Result<(), LoadError>)
      modifies this
      ensures LoadStations(listing).Success? ==>
        outcome == Success(()) && weather == Some(LoadStations(listing).value)
      ensures LoadStations(listing).Failure? ==>
        outcome == Failure(LoadStations(listing).error) && weather == old(weather)
    {
      var stationList := StationFiles(listing);
      var frames := ReadFrames(stationList);
      if frames.Failure? {
        return Failure(frames.error);
      }
      // `pd.concat` of an empty list raises.
      if |frames.value| == 0 {
        return Failure(NoStationFiles);
      }
      weather := Some(Concat(frames.value));
      outcome := Success(());
    }

    /** `problem1`: the missing-precipitation table of `weather_df`. */
    method Problem1() returns (summary: seq<MissingRow>)
      requires weather.Some?
      ensures IsMissingTable(weather.value, summary)
    {
      var wd := weather.value;
      // The `missing_precip` indicator summed per station id.
      var counts := CountByStation(wd);
      // The `file` column is the station id plus ".txt"; rows are sorted by it.
      LexLessIsStrictTotalOrder();
      var files := SortSet(set id | id in counts :: FileName(id), LexLess);
      MissingRowsForIsMissingTable(wd, counts, files);
      summary := MissingRowsFor(counts, files);
    }

    /** `problem2`: the yearly-averages table of `weather_df`. */
    method Problem2() returns (summary: seq<YearlyRow>)
      requires weather.Some?
      ensures IsYearlyTable(weather.value, summary)
    {
      var wd := weather.value;
      // groupby(['station_id', 'year']).agg(...)
      var tallies := TallyGroups(wd);
      // The `filename` column; rows are sorted by (filename, year).
      FileYearLessIsStrictTotalOrder();
      var keys := SortSet(set key | key in tallies :: FileYear(FileName(key.stationId), key.year), FileYearLess);
      YearlyRowsForIsYearlyTable(wd, tallies, keys);
      summary := YearlyRowsFor(tallies, keys);
    }
  }
}
