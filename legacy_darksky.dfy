/**
 * The older DarkSky provider (`beemeteo.sources.darksky.DarkSky`): `_get_data` runs the shared
 * day loop with `_get_data_day`, which asks `forecastio.load_forecast` for the day's local
 * reading (`date_range` keeps `date_from`'s time of day) and keeps each hourly record with its
 * `time` localized to UTC.
 */
module LegacyDarkSky {
  import opened Wrappers
  import opened Calendar
  import opened Records
  import opened LegacyDays
  import DarkSky

  /** `pytz.UTC.localize(time)` of a naive UTC reading: the instant it names. */
  function UtcInstant(time: int): int {
    ToTz(Naive(time), 0)
  }

  /** The hourly records with `time` localized to UTC and every other field kept. */
  function Localized(items: seq<Record>): seq<Record> {
    seq(|items|, i requires 0 <= i < |items| => Record(UtcInstant(items[i].time), items[i].cols))
  }

  /** `pd.DataFrame.from_dict(hourly)`: a list of records has columns, an empty list none. */
  function FromDict(hourly: seq<Record>): DayFrame {
    if hourly == [] then Columnless else WithColumns(hourly)
  }

  /**
   * `_get_data_day(latitude, longitude, timezone, day)` with `timezone` `off` seconds ahead
   * of UTC: the download at `timezone.localize(day)`, its records localized.
   */
  function DataDay(load: DarkSky.Forecastio, lat: string, lon: string, off: int, day: int): Daily {
    var got := load(lat, lon, ToTz(Naive(day), off));
    if got.Err? then Err(got.error) else Ok(Some(FromDict(Localized(got.value))))
  }

  /**
   * The download is asked for the instant of the day's local reading; a day raises exactly
   * when the download does, and otherwise gives a frame, without columns exactly when the
   * download has no hourly records, and else holding its records, in order, each with its
   * provider time as a UTC instant and its fields unchanged.
   */
  lemma DataDaySpec(load: DarkSky.Forecastio, lat: string, lon: string, off: int, day: int)
    ensures var d := DataDay(load, lat, lon, off, day);
      var got := load(lat, lon, day - off);
      && (d.Ok? <==> got.Ok?)
      && (d.Ok? ==> d.value.Some? && (d.value.value.Columnless? <==> got.value == []))
      && (d.Ok? && d.value.value.WithColumns? ==>
            |d.value.value.records| == |got.value|
            && forall i :: 0 <= i < |got.value| ==>
                 d.value.value.records[i].time == got.value[i].time && d.value.value.records[i].cols == got.value[i].cols)
  {
    assert ToTz(Naive(day), off) == day - off;
  }

  /** `_get_data_day` for one location and zone. */
  function DayFor(load: DarkSky.Forecastio, lat: string, lon: string, off: int): int -> Daily {
    day => DataDay(load, lat, lon, off, day)
  }

  /** `_get_data_day`: the hourly list built by appending each record with its time localized. */
  method GetDataDay(load: DarkSky.Forecastio, lat: string, lon: string, off: int, day: int) returns (r: Daily)
    ensures r == DataDay(load, lat, lon, off, day)
  {
    var got := load(lat, lon, ToTz(Naive(day), off));
    if got.Err? {
      return Err(got.error);
    }
    var items := got.value;
    var hourly: seq<Record> := [];
    var i := 0;
    while i < |items|
      invariant 0 <= i <= |items|
      invariant hourly == Localized(items)[..i]
    {
      hourly := hourly + [Record(UtcInstant(items[i].time), items[i].cols)];
      i := i + 1;
    }
    assert hourly == Localized(items);
    r := Ok(Some(FromDict(hourly)));
  }

  /** `_get_data`: the shared day loop with this provider's day download. */
  method GetData(load: DarkSky.Forecastio, cached: int -> nat, lat: string, lon: string, off: int,
                 dateFrom: int, dateTo: int) returns (r: Result<Option<DayFrame>>)
    ensures r == Fill(None, Days(dateFrom, dateTo), cached, DayFor(load, lat, lon, off))
  {
    r := LegacyDays.GetData(cached, DayFor(load, lat, lon, off), dateFrom, dateTo);
  }

  /**
   * A day download never gives `None`. When every needed download succeeds, the result is
   * `None` exactly when no day has fewer than 24 cached rows; when each of those days has
   * hourly records, it is their localized records in day order; and when two days or more
   * are needed and one of them has no hourly records, the merge raises `MergeError`.
   */
  lemma GetDataSpec(load: DarkSky.Forecastio, cached: int -> nat, lat: string, lon: string, off: int,
                    dateFrom: int, dateTo: int)
    ensures var need := Needed(Days(dateFrom, dateTo), cached);
      (forall i :: 0 <= i < |need| ==> load(lat, lon, need[i] - off).Ok?) ==>
        && AllFrames(need, DayFor(load, lat, lon, off))
        && (Fill(None, Days(dateFrom, dateTo), cached, DayFor(load, lat, lon, off)) == Ok(None) <==> need == [])
    ensures var need := Needed(Days(dateFrom, dateTo), cached);
      (forall i :: 0 <= i < |need| ==> load(lat, lon, need[i] - off).Ok? && load(lat, lon, need[i] - off).value != []) && need != [] ==>
        && AllColumns(need, DayFor(load, lat, lon, off))
        && Fill(None, Days(dateFrom, dateTo), cached, DayFor(load, lat, lon, off))
           == Ok(Some(WithColumns(Downloads(need, DayFor(load, lat, lon, off)))))
    ensures var need := Needed(Days(dateFrom, dateTo), cached);
      && (forall i :: 0 <= i < |need| ==> load(lat, lon, need[i] - off).Ok?)
      && (exists i :: 0 <= i < |need| && load(lat, lon, need[i] - off).value == []) && |need| >= 2 ==>
        Fill(None, Days(dateFrom, dateTo), cached, DayFor(load, lat, lon, off)) == Err("MergeError")
  {
    GetDataFrames(load, cached, lat, lon, off, dateFrom, dateTo);
    GetDataAllRecords(load, cached, lat, lon, off, dateFrom, dateTo);
    GetDataEmptyDay(load, cached, lat, lon, off, dateFrom, dateTo);
  }

  /** The first part of `GetDataSpec`: every needed download a frame, and `None` exactly when no day is needed. */
  lemma GetDataFrames(load: DarkSky.Forecastio, cached: int -> nat, lat: string, lon: string, off: int,
                      dateFrom: int, dateTo: int)
    ensures var need := Needed(Days(dateFrom, dateTo), cached);
      (forall i :: 0 <= i < |need| ==> load(lat, lon, need[i] - off).Ok?) ==>
        && AllFrames(need, DayFor(load, lat, lon, off))
        && (Fill(None, Days(dateFrom, dateTo), cached, DayFor(load, lat, lon, off)) == Ok(None) <==> need == [])
  {
    var need := Needed(Days(dateFrom, dateTo), cached);
    if forall i :: 0 <= i < |need| ==> load(lat, lon, need[i] - off).Ok? {
      GetDataNone(load, cached, lat, lon, off, dateFrom, dateTo, need);
    }
  }

  /** The second part of `GetDataSpec`: the records of days that all have hourly records. */
  lemma GetDataAllRecords(load: DarkSky.Forecastio, cached: int -> nat, lat: string, lon: string, off: int,
                          dateFrom: int, dateTo: int)
    ensures var need := Needed(Days(dateFrom, dateTo), cached);
      (forall i :: 0 <= i < |need| ==> load(lat, lon, need[i] - off).Ok? && load(lat, lon, need[i] - off).value != []) && need != [] ==>
        && AllColumns(need, DayFor(load, lat, lon, off))
        && Fill(None, Days(dateFrom, dateTo), cached, DayFor(load, lat, lon, off))
           == Ok(Some(WithColumns(Downloads(need, DayFor(load, lat, lon, off)))))
  {
    var need := Needed(Days(dateFrom, dateTo), cached);
    if (forall i :: 0 <= i < |need| ==> load(lat, lon, need[i] - off).Ok? && load(lat, lon, need[i] - off).value != []) && need != [] {
      GetDataRecords(load, cached, lat, lon, off, dateFrom, dateTo, need);
    }
  }

  /** The third part of `GetDataSpec`: a needed day with no hourly records among two or more raises `MergeError`. */
  lemma GetDataEmptyDay(load: DarkSky.Forecastio, cached: int -> nat, lat: string, lon: string, off: int,
                        dateFrom: int, dateTo: int)
    ensures var need := Needed(Days(dateFrom, dateTo), cached);
      && (forall i :: 0 <= i < |need| ==> load(lat, lon, need[i] - off).Ok?)
      && (exists i :: 0 <= i < |need| && load(lat, lon, need[i] - off).value == []) && |need| >= 2 ==>
        Fill(None, Days(dateFrom, dateTo), cached, DayFor(load, lat, lon, off)) == Err("MergeError")
  {
    var need := Needed(Days(dateFrom, dateTo), cached);
    if && (forall i :: 0 <= i < |need| ==> load(lat, lon, need[i] - off).Ok?)
       && (exists i :: 0 <= i < |need| && load(lat, lon, need[i] - off).value == []) && |need| >= 2 {
      GetDataMergeError(load, cached, lat, lon, off, dateFrom, dateTo, need);
    }
  }

  /** When every needed load succeeds, each day gives a frame, and the result is `None` exactly when no day is needed. */
  lemma GetDataNone(load: DarkSky.Forecastio, cached: int -> nat, lat: string, lon: string, off: int,
                    dateFrom: int, dateTo: int, need: seq<int>)
    requires need == Needed(Days(dateFrom, dateTo), cached)
    requires forall i :: 0 <= i < |need| ==> load(lat, lon, need[i] - off).Ok?
    ensures AllFrames(need, DayFor(load, lat, lon, off))
    ensures Fill(None, Days(dateFrom, dateTo), cached, DayFor(load, lat, lon, off)) == Ok(None) <==> need == []
  {
    var fetch := DayFor(load, lat, lon, off);
    FetchFrames(load, lat, lon, off, need);
    LegacyDays.GetDataSpec(dateFrom, dateTo, cached, fetch);
    GatherNone(need, fetch);
    if need != [] {
      assert fetch(need[0]) != Ok(None);
    }
  }

  /** When every needed day's load has hourly records, the result is their localized records in day order. */
  lemma GetDataRecords(load: DarkSky.Forecastio, cached: int -> nat, lat: string, lon: string, off: int,
                       dateFrom: int, dateTo: int, need: seq<int>)
    requires need == Needed(Days(dateFrom, dateTo), cached) && need != []
    requires forall i :: 0 <= i < |need| ==> load(lat, lon, need[i] - off).Ok? && load(lat, lon, need[i] - off).value != []
    ensures AllColumns(need, DayFor(load, lat, lon, off))
    ensures Fill(None, Days(dateFrom, dateTo), cached, DayFor(load, lat, lon, off))
         == Ok(Some(WithColumns(Downloads(need, DayFor(load, lat, lon, off)))))
  {
    FetchColumns(load, lat, lon, off, need);
    LegacyDays.GetDataSpec(dateFrom, dateTo, cached, DayFor(load, lat, lon, off));
  }

  /** Two needed days or more, one of whose loads has no hourly records, raise `MergeError`. */
  lemma GetDataMergeError(load: DarkSky.Forecastio, cached: int -> nat, lat: string, lon: string, off: int,
                          dateFrom: int, dateTo: int, need: seq<int>)
    requires need == Needed(Days(dateFrom, dateTo), cached) && |need| >= 2
    requires forall i :: 0 <= i < |need| ==> load(lat, lon, need[i] - off).Ok?
    requires exists i :: 0 <= i < |need| && load(lat, lon, need[i] - off).value == []
    ensures Fill(None, Days(dateFrom, dateTo), cached, DayFor(load, lat, lon, off)) == Err("MergeError")
  {
    FetchFrames(load, lat, lon, off, need);
    FetchColumnless(load, lat, lon, off, need);
    LegacyDays.GetDataSpec(dateFrom, dateTo, cached, DayFor(load, lat, lon, off));
  }

  /** With every needed load succeeding, each day gives a frame. */
  lemma FetchFrames(load: DarkSky.Forecastio, lat: string, lon: string, off: int, need: seq<int>)
    requires forall i :: 0 <= i < |need| ==> load(lat, lon, need[i] - off).Ok?
    ensures AllFrames(need, DayFor(load, lat, lon, off))
  {
    forall i | 0 <= i < |need|
      ensures DayFor(load, lat, lon, off)(need[i]).Ok? && DayFor(load, lat, lon, off)(need[i]).value.Some?
    {
      DataDaySpec(load, lat, lon, off, need[i]);
    }
  }

  /** With every needed load succeeding with records, each day gives a frame with columns. */
  lemma FetchColumns(load: DarkSky.Forecastio, lat: string, lon: string, off: int, need: seq<int>)
    requires forall i :: 0 <= i < |need| ==> load(lat, lon, need[i] - off).Ok? && load(lat, lon, need[i] - off).value != []
    ensures AllColumns(need, DayFor(load, lat, lon, off))
  {
    var fetch := DayFor(load, lat, lon, off);
    forall i | 0 <= i < |need|
      ensures fetch(need[i]).Ok? && fetch(need[i]).value.Some? && fetch(need[i]).value.value.WithColumns?
    {
      DataDaySpec(load, lat, lon, off, need[i]);
    }
  }

  /** A needed load that succeeds without records gives a frame without columns. */
  lemma FetchColumnless(load: DarkSky.Forecastio, lat: string, lon: string, off: int, need: seq<int>)
    requires exists i :: 0 <= i < |need| && load(lat, lon, need[i] - off).Ok? && load(lat, lon, need[i] - off).value == []
    ensures SomeColumnless(need, DayFor(load, lat, lon, off))
  {
    var fetch := DayFor(load, lat, lon, off);
    var i :| 0 <= i < |need| && load(lat, lon, need[i] - off).Ok? && load(lat, lon, need[i] - off).value == [];
    DataDaySpec(load, lat, lon, off, need[i]);
    assert fetch(need[i]).Ok? && fetch(need[i]).value.Some? && fetch(need[i]).value.value.Columnless?;
  }
}
