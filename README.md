# weather_yield: weather-station processing, modelled in Dafny

This project models `WeatherProcessor` from `weatherprocessor.py`, a script
that reads daily weather observations from one text file per station and
derives two summary tables from them:

- **Reading a station file** (`_read_weather`). Each line holds a date
  written as YYYYMMDD and three readings in tenths of their unit. The marker
  -9999 means "no observation" and becomes a null. Every other reading is
  divided by ten.
- **Loading the corpus** (`read_all_stations`). The files are the entries of
  the station directory whose last four characters are `.txt`. The station id
  is the file name without those four characters. Each file's rows are tagged
  with its id and concatenated into the master table `weather_df`.
- **Missing precipitation** (`problem1`). Per station, the number of days
  with both temperatures present and the precipitation missing. The table has
  one row per station, named `<id>.txt`, in ascending order of that name.
- **Yearly averages** (`problem2`). Per station and calendar year:
  - the mean of the present maximum temperatures and the mean of the present
    minimum temperatures, each rounded to two digits;
  - the sum of the present precipitation readings, divided by ten and rounded
    to two digits.

  Rounding is numpy's half-to-even. A mean with nothing to average is
  written as -9999. Rows are sorted by (file name, year).

Modules, one per concern of the source:

| module | file | models |
|---|---|---|
| `Wrappers` | wrappers.dfy | `Option` for a nullable value, `Result` for an operation that raises |
| `Ordering` | ordering.dfy | Python's `<` on `str`; listing a set of keys in ascending order (`sort_values`) |
| `Rounding` | rounding.dfy | `np.round(x, 2)`: scale by 100, round half to even, scale back |
| `Readings` | readings.dfy | `_read_weather`: sentinel, scaling, date parsing |
| `Stations` | stations.dfy | the `.txt` filter, station ids, the master table as a specification (`LoadStations`) |
| `MissingPrecip` | missing_precip.dfy | `problem1`: the indicator, the per-station count, the table it writes |
| `YearlyAverages` | yearly_averages.dfy | `problem2`: groups, null-skipping mean and sum, rounding, `fillna`, the table it writes |
| `Processor` | processor.dfy | the class `WeatherProcessor`, whose `weather` field is `weather_df` |
| `Scenario` | scenario.dfy | one station file pushed through the whole pipeline |

How the source is represented:
- The class keeps its state in a field. `ReadAllStations` loops over the
  station files as the source does.
- `Problem1` and `Problem2` build their tables with loops over the master
  table: one pass that keeps a running count or sum per group, then a sort
  of the distinct keys. Each method is proved against a predicate
  (`IsMissingTable`, `IsYearlyTable`) that describes the whole output
  table. Lemmas show that the predicate determines the table
  (`MissingTableUnique`, `YearlyTableUnique`) and state what every row holds.
- The directory listing and the file contents are a parameter of
  `ReadAllStations`: a sequence of `StationSource(name, raw)`. The tables are
  returned instead of being written to disk.

## Model

| member | source | states |
|---|---|---|
| Readings.IsLeapYear | weatherprocessor.py:39 | the Gregorian leap-year rule used to accept February 29 |
| Readings.DaysInMonth | weatherprocessor.py:39 | the number of days of each month of a given year |
| Readings.ValidDate | weatherprocessor.py:39 | a real day of the calendar with a four-digit year |
| Readings.DateNumber | weatherprocessor.py:39 | the number YYYYMMDD that writes a date |
| Ordering.LexLess | weatherprocessor.py:64 | Python's `<` on `str`: the first differing character decides, and a proper prefix comes first |
| Ordering.SortedBy | weatherprocessor.py:64 | every earlier element is strictly less than every later one |
| Stations.LastFour | weatherprocessor.py:17 | Python's `name[-4:]`, the whole name when it is shorter than four characters |
| Stations.IsStationFile | weatherprocessor.py:17 | the filter `station[-4:] == ".txt"` |
| Stations.Tag | weatherprocessor.py:24 | `wd['station_id'] = station_id`: each row of one file paired with the station id |
| Stations.Concat | weatherprocessor.py:27 | `pd.concat(weather_list)`: the frames' rows one after another, in list order |
| Stations.ReadStations | weatherprocessor.py:19-27 | reads the station files in order; the first file that fails ends the read with its error; otherwise each file's tagged rows follow those of the files before it |
| Stations.LoadStations | weatherprocessor.py:17-29 | what `read_all_stations` leaves in `weather_df`: the read of the `.txt` entries, or its error, or a failure when there is no station file |
| Stations.StationIds | weatherprocessor.py:61 | the station ids that occur in the master table, the groups of `problem1` |
| Stations.RowsOf | weatherprocessor.py:61 | the rows of the master table that carry one station id, in order |
| MissingPrecip.PrecipMissing | weatherprocessor.py:57 | `tmax.notna() & tmin.notna() & precip.isna()` for one day |
| MissingPrecip.Indicator | weatherprocessor.py:56-60 | the `missing_precip` column: 1 when the condition holds, otherwise 0 |
| MissingPrecip.CountMissing | weatherprocessor.py:61 | the indicator summed over the rows of one station id |
| MissingPrecip.MissingDays | weatherprocessor.py:56-61 | the indicator summed over the days of one file |
| MissingPrecip.Files | weatherprocessor.py:62-64 | the `file` column of the table |
| MissingPrecip.IsMissingTable | weatherprocessor.py:53-64 | the table `problem1` writes: strictly ascending by `file`; each row is `<id>.txt` with that station's count; every station of the master table has a row |
| YearlyAverages.KeyOf | weatherprocessor.py:71 | a row's group key: its station id and the calendar year of its date |
| YearlyAverages.GroupKeys | weatherprocessor.py:74 | the (station, year) keys that occur in the master table |
| YearlyAverages.Group | weatherprocessor.py:74 | the days of one (station, year) group, in table order |
| YearlyAverages.Present | weatherprocessor.py:75-77 | the non-null values of a column, in order, as pandas' aggregates skip NaN |
| YearlyAverages.Sum | weatherprocessor.py:77 | the sum of a list of values, 0 for none |
| YearlyAverages.MeanOf | weatherprocessor.py:75-76 | a sum divided by a count, or null when the count is 0 |
| YearlyAverages.Mean | weatherprocessor.py:75-76 | `np.mean` as a groupby aggregate: the mean of the present values, null when there is none |
| YearlyAverages.RoundOpt | weatherprocessor.py:83-84 | `np.round(x, 2)` on a nullable value; null stays null |
| YearlyAverages.FillNa | weatherprocessor.py:89 | `fillna(-9999)`: a null becomes -9999 |
| YearlyAverages.TallyOf | weatherprocessor.py:74-77 | the sums and counts of a group's present maximum and minimum temperatures and its present precipitation |
| YearlyAverages.AddDay | weatherprocessor.py:74-77 | adds one day's present readings to a tally |
| YearlyAverages.Finish | weatherprocessor.py:80-89 | a group's output row from its tally: `<id>.txt`, the year, the rounded means with -9999 for none, and the precipitation sum divided by ten and rounded |
| YearlyAverages.Summarize | weatherprocessor.py:74-89 | the output row of one (station, year) group of the master table |
| YearlyAverages.FileYearLess | weatherprocessor.py:88 | `sort_values(['filename', 'year'])`: by file name, then by year |
| YearlyAverages.SortKeys | weatherprocessor.py:88 | the (filename, year) columns of the table |
| YearlyAverages.IsYearlyTable | weatherprocessor.py:68-89 | the table `problem2` writes: strictly ascending by (filename, year); each row is the summary of a group of the master table; every group has a row |
| Readings.ParseDate | weatherprocessor.py:39 | a date that parses is a real calendar day; its YYYYMMDD number is the input and its year is the input divided by 10000 |
| Readings.ParseDateNumber | weatherprocessor.py:39 | every real day with a four-digit year is read back from its YYYYMMDD number, so only numbers that name no day are rejected |
| Readings.Scale | weatherprocessor.py:36-42 | a reading is null exactly when the raw value is -9999; otherwise it is the raw value divided by ten; a missing reading never becomes -999.9 |
| Readings.ReadWeather | weatherprocessor.py:31-44 | a file reads successfully exactly when every date parses; then every row is kept, in order, with its date parsed and its three readings scaled; a failure names the first date that does not parse |
| Rounding.RoundHalfEven | weatherprocessor.py:83-86 | the result is within one half of the argument, and even on an exact tie |
| Rounding.RoundHalfEvenUnique | weatherprocessor.py:83-86 | those two properties determine the result |
| Rounding.Round2 | weatherprocessor.py:83-86 | `np.round(x, 2)` has at most two fractional digits and lies within 0.005 of `x` |
| Rounding.Round2Keeps | weatherprocessor.py:83-86 | a value with two fractional digits is left unchanged |
| Rounding.Round2Idempotent | weatherprocessor.py:83-86 | rounding twice is rounding once |
| Rounding.Round2HalfWay | weatherprocessor.py:83-86 | half-way values go to the even hundredth: 0.125 to 0.12, 0.135 to 0.14, -2.675 to -2.68 |
| Ordering.LexLessIsStrictTotalOrder | weatherprocessor.py:64 | Python's string `<` is irreflexive, transitive and total on distinct strings |
| Ordering.SortedUnique | weatherprocessor.py:88 | two strictly sorted sequences with the same elements are equal, so a sort on distinct keys has one outcome |
| Ordering.Insert | weatherprocessor.py:64 | inserting a new key into a sorted sequence keeps it sorted and adds exactly that key |
| Ordering.SortSet | weatherprocessor.py:88 | lists a set of keys in ascending order, each exactly once |
| Stations.StationId | weatherprocessor.py:21 | `filename[:-4]` followed by ".txt" gives back the file name |
| Stations.FileName | weatherprocessor.py:63 | `id + ".txt"` is a station file name whose station id is `id` |
| Stations.StationIdInjective | weatherprocessor.py:17-21 | two different station files never share a station id |
| Stations.StationFiles | weatherprocessor.py:17 | the station list holds exactly the entries whose last four characters are ".txt" |
| Stations.StationFilesDistinct | weatherprocessor.py:17 | filtering a listing with distinct names keeps the names distinct |
| Stations.ReadStationsFailureSticks | weatherprocessor.py:20-25 | once a file fails to parse, the whole read fails with that file's error |
| Stations.ReadStationsShape | weatherprocessor.py:19-27 | the read succeeds exactly when every station file parses; then the master table has as many rows as the files together, and every row's id is the id of one of the files |
| Stations.ReadStationsRowsOf | weatherprocessor.py:19-27 | with distinct file names, the rows that carry a file's id are exactly that file's rows, in order |
| Stations.LoadStationsSucceeds | weatherprocessor.py:17-29 | loading succeeds exactly when some entry is a station file and every station file parses |
| Stations.LoadStationsRows | weatherprocessor.py:17-29 | after loading, nothing is dropped; every row's id names a listed file; each station's rows are that file's rows tagged with its id |
| Processor.ReadFrames | weatherprocessor.py:19-25 | the loop over the station files yields one frame per file and concatenates to the master table, or stops with the first file's error |
| Processor.WeatherProcessor.constructor | weatherprocessor.py:11-13 | stores both directories; the master table is not loaded yet |
| Processor.WeatherProcessor.ReadAllStations | weatherprocessor.py:15-29 | sets `weather_df` to the concatenation of every station file's tagged rows; on a parse error, or with no station file, it fails and leaves `weather_df` unchanged |
| Processor.WeatherProcessor.Problem1 | weatherprocessor.py:53-64 | returns the missing-precipitation table of `weather_df` (`IsMissingTable`) |
| Processor.WeatherProcessor.Problem2 | weatherprocessor.py:68-89 | returns the yearly-averages table of `weather_df` (`IsYearlyTable`) |
| MissingPrecip.CountByStation | weatherprocessor.py:56-61 | one pass over the master table gives, for every station id and no other, the sum of its indicator |
| MissingPrecip.CountsOfSnoc | weatherprocessor.py:61 | adding one row's indicator to its own station's count keeps every count exact |
| MissingPrecip.MissingRowsFor | weatherprocessor.py:62-63 | the table's `file` column is the given list of file names, in that order |
| MissingPrecip.MissingRowsForIsMissingTable | weatherprocessor.py:61-64 | the counts, listed by their file names in ascending order, form the missing-precipitation table |
| MissingPrecip.CountMissingAbsent | weatherprocessor.py:61 | a station without rows counts zero |
| MissingPrecip.CountMissingBound | weatherprocessor.py:56-61 | a station's count is at most its number of days |
| MissingPrecip.CountMissingPositive | weatherprocessor.py:56-61 | a station's count is positive exactly when one of its days has both temperatures and no precipitation |
| MissingPrecip.CountMissingRowsOf | weatherprocessor.py:61 | only a station's own rows contribute to its count |
| MissingPrecip.CountMissingTag | weatherprocessor.py:56-61 | the count of a tagged file is its number of days with both temperatures and no precipitation |
| MissingPrecip.CountMissingOfStation | weatherprocessor.py:56-61 | after loading a listing with distinct names, each station's count is computed from its own file alone |
| MissingPrecip.MissingTableBounds | weatherprocessor.py:56-61 | every count in the table lies between 0 and the station's number of days |
| MissingPrecip.MissingTableOneRow | weatherprocessor.py:61-64 | every station of the master table has exactly one row, `(<id>.txt, count)` |
| MissingPrecip.MissingTableUnique | weatherprocessor.py:61-64 | the master table determines the missing-precipitation table |
| YearlyAverages.FileYearLessIsStrictTotalOrder | weatherprocessor.py:88 | the (file name, year) order is a strict total order |
| YearlyAverages.GroupNonEmpty | weatherprocessor.py:74 | a (station, year) group has a day exactly when its key occurs in the master table |
| YearlyAverages.TallyOfSnoc | weatherprocessor.py:74-77 | adding a day to a group adds its present readings to the sums and counts, and skips the missing ones |
| YearlyAverages.TalliesOfSnoc | weatherprocessor.py:74-77 | adding one row to the running tally of its own group keeps every group's tally exact |
| YearlyAverages.TallyGroups | weatherprocessor.py:74-78 | one pass over the master table gives, for every (station, year) group and no other, the sums and counts of its present readings |
| YearlyAverages.YearlyRowsFor | weatherprocessor.py:80-81 | the table's (filename, year) columns are the given sort keys, in that order |
| YearlyAverages.YearlyRowsForIsYearlyTable | weatherprocessor.py:74-89 | the groups' rows, listed by ascending (filename, year), form the yearly-averages table |
| YearlyAverages.MeanBounds | weatherprocessor.py:75-76 | the mean of the present values lies between their least and greatest |
| YearlyAverages.RoundedMean | weatherprocessor.py:83-89 | an averaged column is -9999 when the group has no value; otherwise it has two fractional digits and lies within 0.005 of the exact mean |
| YearlyAverages.SummaryAverages | weatherprocessor.py:74-89 | a group's row names `<id>.txt` and its year; `avg_max` and `avg_min` are the rounded means of the present values, or -9999 without any |
| YearlyAverages.SummaryPrecip | weatherprocessor.py:77-86 | `total_precip` has two fractional digits and lies within 0.005 of the sum of present readings divided by ten; it is 0 for a group without readings and nonnegative when the readings are |
| YearlyAverages.YearlyTableOneRow | weatherprocessor.py:74-88 | every (station, year) group has exactly one row, and that row is the group's summary |
| YearlyAverages.YearlyTableUnique | weatherprocessor.py:74-89 | the master table determines the yearly-averages table |
| Scenario.S1Reads | weatherprocessor.py:31-44 | the three lines of S1.txt read to their dates and scaled readings, with the -9999 precipitation as null |
| Scenario.S1Loads | weatherprocessor.py:15-29 | a listing of S1.txt and notes.csv loads only S1.txt, tagged with "S1" |
| Scenario.S1MissingTable | weatherprocessor.py:53-64 | for S1.txt, the missing-precipitation table is the single row (S1.txt, 2) |
| Scenario.S1YearlyTable | weatherprocessor.py:68-89 | for S1.txt, the yearly table is (2020, 1.5, 0.25, 0.5) and (2021, 3.0, 1.0, 0.0) |
| Scenario.RunS1 | weatherprocessor.py:53-89 | running `read_all_stations`, `problem1` and `problem2` on that listing returns exactly those two tables |

## Behaviour worth noting

- **All-null precipitation.** `agg(total_precip=('precip', np.sum))` at
  `weatherprocessor.py:77` uses pandas' default sum. That sum is 0 for a
  group whose readings are all null, so `total_precip` is 0.0 for such a
  year and is never replaced by -9999 (`SummaryPrecip`,
  `Scenario.S1YearlyTable`). Only the two averaged columns can be -9999.
- **What counts as a missing-precipitation day.** The condition at
  `weatherprocessor.py:57` looks only at the day itself. In the S1.txt
  scenario, 2020-01-01 (tmax 10, tmin 0, precipitation -9999) counts as well
  as 2021-01-01, so `problem1` gives S1.txt the count 2
  (`Scenario.S1MissingTable`).
- **Rounding.** `np.round` at `weatherprocessor.py:83-86` rounds half to
  even, so 0.125 becomes 0.12 and 0.135 becomes 0.14 (`Round2HalfWay`).

## Left out

- The file system: `os.listdir`, `os.path.join`, `pd.read_csv`'s reading of
  the file and `to_csv`'s writing of the tables. The listing and the file
  contents are a parameter. The tables are returned, not written to
  `./DataSciTest/answers/`. A line of a station file that is not four
  integers separated by tabs is not modelled: the raw rows are already
  integers.
- `read_yield` and the yield table: the two summaries never use them.
- `main`, argument parsing and `print(wd)`.
- The record-year detector and its histogram table are not in
  `weatherprocessor.py` and are not part of this model.
- Floating point. Readings, means and sums are exact reals. A float result
  that rounds differently from its exact counterpart is not modelled.
- Readings.ParseDate: does not model the leniency of pandas' `%Y%m%d`
  parser on inputs shorter than eight digits, or the nanosecond range of a
  pandas timestamp. Only an eight-digit number naming a real day with a
  four-digit year parses; anything else fails the file.
- Readings.ReadWeather: a date cell holding -9999 is read by pandas as null,
  and `to_datetime` turns it into NaT, a null date; `groupby` would then
  drop that row. The model treats such a date as malformed and fails the
  file.
- Processor.WeatherProcessor.ReadAllStations: an empty station list makes
  `pd.concat` raise. The model returns the error `NoStationFiles` and leaves
  `weather_df` unchanged.
- `LoadStationsRows` and `CountMissingOfStation` assume distinct entry names
  in the listing, as a directory listing has.
- The order of rows with equal sort keys: the keys of both output tables are
  distinct, so the sorts have one outcome (`SortedUnique`). The model lists
  each table by inserting keys into a sorted sequence rather than running
  pandas' sort.
- The column headers of the written tables: the row datatypes name the
  columns.
