/** The station corpus (`WeatherProcessor.read_all_stations`): which directory
    entries are station files, the station id each one gives, and the master
    table that concatenates every station's rows tagged with its id. */
module Stations {
  import opened Wrappers
  import opened Readings

  /** The fixed extension of station files. */
  const Extension: string := ".txt"

  /** One directory entry: its name and, for a file, its rows. The listing
      stands for `os.listdir(station_dir)` and the rows for the file contents
      that `pd.read_csv` would read. */
  datatype StationSource = StationSource(name: string, raw: seq<RawRow>)

  /** One row of the master table `weather_df`. */
  datatype WeatherRow = WeatherRow(stationId: string, obs: Observation)

  datatype LoadError =
    | SourceReadError(file: string, cause: ReadError)  // a station file failed to parse
    | NoStationFiles                                   // `pd.concat` of an empty list

  /** Python's `name[-4:]`. */
  function LastFour(name: string): string
  {
    if |name| >= 4 then name[|name| - 4..] else name
  }

  /** The filter of the station listing: the last four characters are ".txt". */
  predicate IsStationFile(name: string)
  {
    LastFour(name) == Extension
  }

  /** `filename[:-4]`: the name without its extension. */
  function StationId(name: string): (id: string)
    requires IsStationFile(name)
    ensures id + Extension == name
  {
    name[..|name| - 4]
  }

  /** `x + ".txt"`: the file name a station id came from. */
  function FileName(id: string): (name: string)
    ensures IsStationFile(name)
    ensures StationId(name) == id
  {
    assert (id + Extension)[..|id|] == id;
    id + Extension
  }

  /** Two station files never share a station id. */
  lemma StationIdInjective(a: string, b: string)
    requires IsStationFile(a) && IsStationFile(b) && a != b
    ensures StationId(a) != StationId(b)
  {
  }

  predicate DistinctNames(s: seq<StationSource>)
  {
    forall i, j :: 0 <= i < j < |s| ==> s[i].name != s[j].name
  }

  function Names(s: seq<StationSource>): set<string>
  {
    set f | f in s :: f.name
  }

  /** `[station for station in listing if station[-4:] == ".txt"]`. */
  function StationFiles(listing: seq<StationSource>): (r: seq<StationSource>)
    ensures forall f :: f in r <==> f in listing && IsStationFile(f.name)
  {
    if |listing| == 0 then []
    else
      var init := listing[..|listing| - 1];
      var last := listing[|listing| - 1];
      assert forall f :: f in listing <==> f in init || f == last;
      if IsStationFile(last.name) then StationFiles(init) + [last] else StationFiles(init)
  }

  /** Filtering keeps the names of a directory listing distinct. */
  lemma {:induction false} StationFilesDistinct(listing: seq<StationSource>)
    requires DistinctNames(listing)
    ensures DistinctNames(StationFiles(listing))
  {
    if |listing| > 0 {
      var init := listing[..|listing| - 1];
      var last := listing[|listing| - 1];
      StationFilesDistinct(init);
      var rest := StationFiles(init);
      forall f | f in rest
        ensures f.name != last.name
      {
        var k :| 0 <= k < |init| && init[k] == f;
        assert listing[k] == f;
      }
    }
  }

  /** `wd['station_id'] = station_id`: every row of one file tagged with the id. */
  function Tag(id: string, obs: seq<Observation>): seq<WeatherRow>
  {
    seq(|obs|, i requires 0 <= i < |obs| => WeatherRow(id, obs[i]))
  }

  /** `pd.concat(weather_list)`. */
  function Concat(frames: seq<seq<WeatherRow>>): seq<WeatherRow>
  {
    if |frames| == 0 then [] else Concat(frames[..|frames| - 1]) + frames[|frames| - 1]
  }

  /** Reads the station files in listing order, stopping at the first that fails. */
  function ReadStations(files: seq<StationSource>): Result<seq<WeatherRow>, LoadError>
    requires forall f :: f in files ==> IsStationFile(f.name)
  {
    if |files| == 0 then Success([])
    else
      var last := files[|files| - 1];
      match ReadStations(files[..|files| - 1])
      case Failure(e) => Failure(e)
      case Success(rows) =>
        match ReadWeather(last.raw)
        case Failure(e) => Failure(SourceReadError(last.name, e))
        case Success(obs) => Success(rows + Tag(StationId(last.name), obs))
  }

  /** What `read_all_stations` leaves in `weather_df`, or the error it raises. */
  function LoadStations(listing: seq<StationSource>): Result<seq<WeatherRow>, LoadError>
  {
    var files := StationFiles(listing);
    match ReadStations(files)
    case Failure(e) => Failure(e)
    case Success(rows) => if |files| == 0 then Failure(NoStationFiles) else Success(rows)
  }

  /** The rows of the master table that carry station id `id`, in order. */
  function RowsOf(rows: seq<WeatherRow>, id: string): seq<WeatherRow>
  {
    if |rows| == 0 then []
    else
      var rest := RowsOf(rows[..|rows| - 1], id);
      if rows[|rows| - 1].stationId == id then rest + [rows[|rows| - 1]] else rest
  }

  /** The station ids that occur in the master table. */
  function StationIds(rows: seq<WeatherRow>): set<string>
  {
    if |rows| == 0 then {} else StationIds(rows[..|rows| - 1]) + {rows[|rows| - 1].stationId}
  }

  lemma StationIdsSnoc(rows: seq<WeatherRow>, r: WeatherRow)
    ensures StationIds(rows + [r]) == StationIds(rows) + {r.stationId}
  {
    assert (rows + [r])[..|rows|] == rows;
  }

  /** Number of raw rows over a list of files. */
  function TotalRows(files: seq<StationSource>): nat
  {
    if |files| == 0 then 0 else TotalRows(files[..|files| - 1]) + |files[|files| - 1].raw|
  }

  lemma {:induction false} StationIdsMembers(rows: seq<WeatherRow>, id: string)
    ensures id in StationIds(rows) <==> exists i :: 0 <= i < |rows| && rows[i].stationId == id
  {
    if |rows| > 0 {
      var init := rows[..|rows| - 1];
      StationIdsMembers(init, id);
      if exists i :: 0 <= i < |rows| && rows[i].stationId == id {
        var i :| 0 <= i < |rows| && rows[i].stationId == id;
        if i < |rows| - 1 {
          assert init[i].stationId == id;
        }
      }
      if exists i :: 0 <= i < |init| && init[i].stationId == id {
        var i :| 0 <= i < |init| && init[i].stationId == id;
        assert rows[i].stationId == id;
      }
    }
  }

  lemma {:induction false} RowsOfAppend(a: seq<WeatherRow>, b: seq<WeatherRow>, id: string)
    ensures RowsOf(a + b, id) == RowsOf(a, id) + RowsOf(b, id)
    decreases |b|
  {
    if |b| == 0 {
      assert a + b == a;
    } else {
      var b' := b[..|b| - 1];
      assert (a + b)[..|a + b| - 1] == a + b';
      RowsOfAppend(a, b', id);
    }
  }

  lemma {:induction false} RowsOfTag(tag: string, obs: seq<Observation>, id: string)
    ensures RowsOf(Tag(tag, obs), id) == if tag == id then Tag(tag, obs) else []
    decreases |obs|
  {
    if |obs| > 0 {
      var obs' := obs[..|obs| - 1];
      assert Tag(tag, obs)[..|obs| - 1] == Tag(tag, obs');
      RowsOfTag(tag, obs', id);
    }
  }

  lemma {:induction false} RowsOfAbsent(rows: seq<WeatherRow>, id: string)
    requires forall r :: r in rows ==> r.stationId != id
    ensures RowsOf(rows, id) == []
    decreases |rows|
  {
    if |rows| > 0 {
      var init := rows[..|rows| - 1];
      assert forall r :: r in init ==> r in rows;
      RowsOfAbsent(init, id);
    }
  }

  lemma {:induction false} ConcatSnoc(frames: seq<seq<WeatherRow>>, frame: seq<WeatherRow>)
    ensures Concat(frames + [frame]) == Concat(frames) + frame
  {
    assert (frames + [frame])[..|frames|] == frames;
  }

  /** Reading one more file: it either fails the whole read or adds its rows. */
  lemma ReadStationsStep(files: seq<StationSource>, i: nat, rows: seq<WeatherRow>)
    requires forall f :: f in files ==> IsStationFile(f.name)
    requires i < |files| && ReadStations(files[..i]) == Success(rows)
    ensures ReadWeather(files[i].raw).Failure? ==>
      ReadStations(files[..i + 1]) == Failure(SourceReadError(files[i].name, ReadWeather(files[i].raw).error))
    ensures ReadWeather(files[i].raw).Success? ==>
      ReadStations(files[..i + 1]) == Success(rows + Tag(StationId(files[i].name), ReadWeather(files[i].raw).value))
  {
    assert files[..i + 1][..i] == files[..i];
  }

  /** Once a prefix of the files fails, the whole read fails with the same error. */
  lemma {:induction false} ReadStationsFailureSticks(files: seq<StationSource>, n: nat)
    requires forall f :: f in files ==> IsStationFile(f.name)
    requires n <= |files| && ReadStations(files[..n]).Failure?
    ensures ReadStations(files) == ReadStations(files[..n])
    decreases |files| - n
  {
    if n == |files| {
      assert files[..n] == files;
    } else {
      var init := files[..|files| - 1];
      assert init[..n] == files[..n];
      ReadStationsFailureSticks(init, n);
    }
  }

  /** Reading succeeds exactly when every station file parses; then nothing is
      dropped and every row carries the id of one of the files. */
  lemma {:induction false} ReadStationsShape(files: seq<StationSource>)
    requires forall f :: f in files ==> IsStationFile(f.name)
    ensures ReadStations(files).Success? <==> forall f :: f in files ==> ReadWeather(f.raw).Success?
    ensures ReadStations(files).Success? ==> |ReadStations(files).value| == TotalRows(files)
    ensures ReadStations(files).Success? ==>
      forall r :: r in ReadStations(files).value ==> FileName(r.stationId) in Names(files)
    decreases |files|
  {
    if |files| > 0 {
      var init := files[..|files| - 1];
      var last := files[|files| - 1];
      assert files == init + [last];
      assert forall f :: f in files <==> f in init || f == last;
      ReadStationsShape(init);
      assert Names(files) == Names(init) + {last.name};
    }
  }

  /** No row carries the id of a file that is not among those read. */
  lemma ReadStationsOtherId(files: seq<StationSource>, id: string)
    requires forall g :: g in files ==> IsStationFile(g.name)
    requires ReadStations(files).Success? && FileName(id) !in Names(files)
    ensures RowsOf(ReadStations(files).value, id) == []
  {
    ReadStationsShape(files);
    RowsOfAbsent(ReadStations(files).value, id);
  }

  /** The last file read contributes its rows after those of the others. */
  lemma ReadStationsLast(files: seq<StationSource>)
    requires forall g :: g in files ==> IsStationFile(g.name)
    requires |files| > 0 && ReadStations(files).Success?
    ensures ReadStations(files[..|files| - 1]).Success?
    ensures ReadWeather(files[|files| - 1].raw).Success?
    ensures ReadStations(files).value ==
      ReadStations(files[..|files| - 1]).value + Tag(StationId(files[|files| - 1].name), ReadWeather(files[|files| - 1].raw).value)
  {
  }

  /** The rows of the last file read are exactly its own id's rows. */
  lemma RowsOfLastFile(files: seq<StationSource>)
    requires forall g :: g in files ==> IsStationFile(g.name)
    requires DistinctNames(files) && |files| > 0
    requires ReadStations(files).Success?
    ensures ReadWeather(files[|files| - 1].raw).Success?
    ensures var last := files[|files| - 1];
      RowsOf(ReadStations(files).value, StationId(last.name)) == Tag(StationId(last.name), ReadWeather(last.raw).value)
  {
    ReadStationsLast(files);
    var init := files[..|files| - 1];
    var last := files[|files| - 1];
    var id := StationId(last.name);
    var obs := ReadWeather(last.raw).value;
    forall g | g in init
      ensures g.name != last.name
    {
      var k :| 0 <= k < |init| && init[k] == g;
      assert files[k] == g;
    }
    assert last.name !in Names(init);
    ReadStationsOtherId(init, id);
    RowsOfAppend(ReadStations(init).value, Tag(id, obs), id);
    RowsOfTag(id, obs, id);
  }

  /** The last file read adds nothing to the rows of another file's id. */
  lemma RowsOfEarlierFile(files: seq<StationSource>, name: string)
    requires forall g :: g in files ==> IsStationFile(g.name)
    requires |files| > 0 && ReadStations(files).Success?
    requires IsStationFile(name) && name != files[|files| - 1].name
    ensures RowsOf(ReadStations(files).value, StationId(name)) ==
      RowsOf(ReadStations(files[..|files| - 1]).value, StationId(name))
  {
    ReadStationsLast(files);
    var last := files[|files| - 1];
    var obs := ReadWeather(last.raw).value;
    StationIdInjective(name, last.name);
    RowsOfAppend(ReadStations(files[..|files| - 1]).value, Tag(StationId(last.name), obs), StationId(name));
    RowsOfTag(StationId(last.name), obs, StationId(name));
  }

  /** With distinct file names, the rows that carry a station's id are exactly
      that station's file, read and tagged, in file order. */
  lemma {:induction false} ReadStationsRowsOf(files: seq<StationSource>, f: StationSource)
    requires forall g :: g in files ==> IsStationFile(g.name)
    requires DistinctNames(files) && f in files
    requires ReadStations(files).Success?
    ensures ReadWeather(f.raw).Success?
    ensures RowsOf(ReadStations(files).value, StationId(f.name)) == Tag(StationId(f.name), ReadWeather(f.raw).value)
    decreases |files|
  {
    var k :| 0 <= k < |files| && files[k] == f;
    if k == |files| - 1 {
      RowsOfLastFile(files);
    } else {
      var init := files[..|files| - 1];
      assert init[k] == f;
      assert files[k].name != files[|files| - 1].name;
      ReadStationsLast(files);
      RowsOfEarlierFile(files, f.name);
      ReadStationsRowsOf(init, f);
    }
  }

  /** `read_all_stations` succeeds exactly when some entry is a station file
      and every station file parses. */
  lemma LoadStationsSucceeds(listing: seq<StationSource>)
    ensures LoadStations(listing).Success? <==>
      && (exists f :: f in listing && IsStationFile(f.name))
      && (forall f :: f in listing && IsStationFile(f.name) ==> ReadWeather(f.raw).Success?)
  {
    var files := StationFiles(listing);
    ReadStationsShape(files);
    if |files| > 0 {
      assert files[0] in files;
    }
  }

  /** The master table: every station file's rows, nothing dropped, each row
      tagged with its own file's id; for a listing of distinct names, the rows
      of one station are exactly that file's rows. */
  lemma LoadStationsRows(listing: seq<StationSource>, f: StationSource)
    requires LoadStations(listing).Success?
    requires DistinctNames(listing) && f in listing && IsStationFile(f.name)
    ensures |LoadStations(listing).value| == TotalRows(StationFiles(listing))
    ensures forall r :: r in LoadStations(listing).value ==> FileName(r.stationId) in Names(listing)
    ensures ReadWeather(f.raw).Success?
    ensures RowsOf(LoadStations(listing).value, StationId(f.name)) == Tag(StationId(f.name), ReadWeather(f.raw).value)
  {
    var files := StationFiles(listing);
    ReadStationsShape(files);
    StationFilesDistinct(listing);
    ReadStationsRowsOf(files, f);
    assert Names(files) <= Names(listing);
  }
}
