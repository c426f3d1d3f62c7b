/** Reading one station file (`WeatherProcessor._read_weather`): each line
    holds a date and three readings in tenths of their unit; the sentinel
    -9999 marks a missing reading. */
module Readings {
  import opened Wrappers

  /** The marker for "no observation" in the raw files. */
  const Sentinel: int := -9999

  /** One line of a station file, as the four integers it holds. */
  datatype RawRow = RawRow(date: int, tmax: int, tmin: int, precip: int)

  datatype Date = Date(year: int, month: int, day: int)

  /** One day after reading: a calendar date and three optional readings in
      their natural unit (None is pandas' NaN). */
  datatype Observation = Observation(date: Date, tmax: Option<real>, tmin: Option<real>, precip: Option<real>)

  datatype ReadError = MalformedDate(value: int)

  predicate IsLeapYear(y: int)
  {
    y % 4 == 0 && (y % 100 != 0 || y % 400 == 0)
  }

  function DaysInMonth(y: int, m: int): int
    requires 1 <= m <= 12
  {
    if m == 2 then (if IsLeapYear(y) then 29 else 28)
    else if m == 4 || m == 6 || m == 9 || m == 11 then 30
    else 31
  }

  /** A real day of the Gregorian calendar with a four-digit year. */
  predicate ValidDate(d: Date)
  {
    && 1000 <= d.year <= 9999
    && 1 <= d.month <= 12
    && 1 <= d.day <= DaysInMonth(d.year, d.month)
  }

  /** The date written as the number YYYYMMDD. */
  function DateNumber(d: Date): int
  {
    d.year * 10000 + d.month * 100 + d.day
  }

  /** `pd.to_datetime(n, format="%Y%m%d")`: the eight digits of `n` read as
      year, month and day; None when they do not name a real day. */
  function ParseDate(n: int): (r: Option<Date>)
    ensures r.Some? ==> ValidDate(r.value) && DateNumber(r.value) == n
    ensures r.Some? ==> r.value.year == n / 10000
  {
    if 10000000 <= n <= 99999999 then
      var d := Date(n / 10000, n / 100 % 100, n % 100);
      if ValidDate(d) then Some(d) else None
    else None
  }

  /** Every real day is read back from its YYYYMMDD number, so a date is
      rejected exactly when no real day is written that way. */
  lemma ParseDateNumber(d: Date)
    requires ValidDate(d)
    ensures ParseDate(DateNumber(d)) == Some(d)
  {
    var n := DateNumber(d);
    assert n / 10000 == d.year;
    assert n / 100 == d.year * 100 + d.month;
    assert n / 100 % 100 == d.month;
    assert n % 100 == d.day;
  }

  /** `na_values=[-9999]` followed by `/ 10`: the sentinel becomes NaN before
      the division, so NaN stays NaN; any other value is divided by ten. */
  function Scale(raw: int): (v: Option<real>)
    ensures v.None? <==> raw == Sentinel
    ensures v.Some? ==> v.value * 10.0 == raw as real
    ensures v != Some(-999.9)
  {
    if raw == Sentinel then None else Some(raw as real / 10.0)
  }

  /** `_read_weather` on the rows of one file: the whole file fails at the
      first date that does not parse; otherwise every row is kept, in order,
      with its readings scaled. */
  function ReadWeather(raw: seq<RawRow>): (r: Result<seq<Observation>, ReadError>)
    ensures r.Success? <==> forall i :: 0 <= i < |raw| ==> ParseDate(raw[i].date).Some?
    ensures r.Success? ==> |r.value| == |raw|
    ensures r.Success? ==> forall i :: 0 <= i < |raw| ==>
      && Some(r.value[i].date) == ParseDate(raw[i].date)
      && r.value[i].tmax == Scale(raw[i].tmax)
      && r.value[i].tmin == Scale(raw[i].tmin)
      && r.value[i].precip == Scale(raw[i].precip)
    ensures r.Failure? ==> exists i ::
      && 0 <= i < |raw|
      && ParseDate(raw[i].date).None?
      && r.error == MalformedDate(raw[i].date)
      && (forall j :: 0 <= j < i ==> ParseDate(raw[j].date).Some?)
  {
    if |raw| == 0 then Success([])
    else
      match ParseDate(raw[0].date)
      case None => Failure(MalformedDate(raw[0].date))
      case Some(d) =>
        match ReadWeather(raw[1..])
        case Failure(e) => Failure(e)
        case Success(rest) =>
          Success([Observation(d, Scale(raw[0].tmax), Scale(raw[0].tmin), Scale(raw[0].precip))] + rest)
  }
}
