/**
 * The DarkSky provider (`DarkSky._get_historical_data_source`, `_get_data_day`): every gap is
 * widened to whole local days, each day is downloaded once with `forecastio.load_forecast`,
 * and the hourly records are concatenated, sorted, stamped with the location and
 * de-duplicated.
 */
module DarkSky {
  import opened Wrappers
  import opened Text
  import opened Calendar
  import opened Records
  import opened Historical

  /**
   * `forecastio.load_forecast(api_key, lat, lon, time=day, units="si").hourly().data` for a
   * day given as an instant: the hourly records (their `time` and their other fields), or the
   * exception raised.
   */
  type Forecastio = (string, string, int) -> Result<seq<Record>>

  // ---- one day ----

  /**
   * `_get_data_day`: the hourly records with `time` renamed to `ts`; a day without records
   * gives a frame without a `time` column, and the rename raises.
   */
  function DataDay(load: Forecastio, lat: string, lon: string, day: int): Result<seq<Row>> {
    var got := load(lat, lon, day);
    if got.Err? then Err(got.error)
    else if got.value == [] then Err("KeyError: 'time'")
    else Ok(TsFromTime(got.value))
  }

  /** A day succeeds exactly when the download does and has records; the rows are those records, `ts` taken from `time`. */
  lemma DataDaySpec(load: Forecastio, lat: string, lon: string, day: int)
    ensures var d := DataDay(load, lat, lon, day);
      var got := load(lat, lon, day);
      && (d.Ok? <==> got.Ok? && got.value != [])
      && (d.Ok? ==> |d.value| == |got.value| > 0
                    && forall i :: 0 <= i < |d.value| ==> d.value[i].ts == got.value[i].time && d.value[i].cols == got.value[i].cols)
  {
  }

  /** `_get_data_day` for one location. */
  function DayFor(load: Forecastio, lat: string, lon: string): int -> Result<seq<Row>> {
    day => DataDay(load, lat, lon, day)
  }

  /** `_get_data_day`: the hourly list built by appending each record, then renamed. */
  method GetDataDay(load: Forecastio, lat: string, lon: string, day: int) returns (r: Result<seq<Row>>)
    ensures r == DataDay(load, lat, lon, day)
  {
    var got := load(lat, lon, day);
    if got.Err? {
      return Err(got.error);
    }
    var items := got.value;
    var hourly: seq<Record> := [];
    var i := 0;
    while i < |items|
      invariant 0 <= i <= |items|
      invariant hourly == items[..i]
    {
      hourly := hourly + [items[i]];
      i := i + 1;
    }
    assert hourly == items;
    if hourly == [] {
      return Err("KeyError: 'time'");
    }
    r := Ok(TsFromTime(hourly));
  }

  // ---- the days of the gaps ----

  /** The days of one gap: each local midnight from the start's through the end's. */
  function GapDays(g: Gap, off: int): seq<int> {
    DayRange(LocalMidnight(g.ini, off), LocalMidnight(g.end, off))
  }

  /** The day downloads of all gaps, gap after gap. */
  function AllDays(gaps: seq<Gap>, off: int): seq<int>
    decreases |gaps|
  {
    if gaps == [] then [] else GapDays(gaps[0], off) + AllDays(gaps[1..], off)
  }

  /**
   * A gap downloads one day per local date from its start's through its end's, in order,
   * each at that date's local midnight.
   */
  lemma GapDaysSpec(g: Gap, off: int)
    ensures var days := GapDays(g, off);
      var first := LocalDay(g.ini, off);
      && |days| == (if first <= LocalDay(g.end, off) then LocalDay(g.end, off) - first + 1 else 0)
      && forall k :: 0 <= k < |days| ==> days[k] == LocalMidnight(g.ini, off) + k * Day && LocalDay(days[k], off) == first + k
  {
    var m0 := LocalMidnight(g.ini, off);
    var m1 := LocalMidnight(g.end, off);
    DayRangeSpec(m0, m1);
    assert m1 - m0 == (LocalDay(g.end, off) - LocalDay(g.ini, off)) * Day;
    var days := GapDays(g, off);
    forall k | 0 <= k < |days| ensures LocalDay(days[k], off) == LocalDay(g.ini, off) + k {
      assert days[k] + off == (LocalDay(g.ini, off) + k) * Day;
    }
  }

  /** Every hour of a gap has its local day downloaded. */
  lemma GapDaysCover(g: Gap, off: int, t: int)
    requires g.ini <= t <= g.end
    ensures LocalMidnight(t, off) in GapDays(g, off)
  {
    GapDaysSpec(g, off);
    var k := LocalDay(t, off) - LocalDay(g.ini, off);
    assert LocalDay(g.ini, off) <= LocalDay(t, off) <= LocalDay(g.end, off);
    assert GapDays(g, off)[k] == LocalMidnight(t, off);
  }

  /** A day is downloaded exactly when it is among some gap's days. */
  lemma {:induction false} AllDaysMember(gaps: seq<Gap>, off: int, d: int)
    ensures d in AllDays(gaps, off) <==> exists i :: 0 <= i < |gaps| && d in GapDays(gaps[i], off)
    decreases |gaps|
  {
    if gaps != [] {
      AllDaysMember(gaps[1..], off, d);
      if d in AllDays(gaps[1..], off) {
        var i :| 0 <= i < |gaps[1..]| && d in GapDays(gaps[1..][i], off);
        assert gaps[i + 1] == gaps[1..][i];
      }
      if exists i :: 0 <= i < |gaps| && d in GapDays(gaps[i], off) {
        var i :| 0 <= i < |gaps| && d in GapDays(gaps[i], off);
        if i > 0 {
          assert gaps[1..][i - 1] == gaps[i];
        }
      }
    }
  }

  /** Every hour of every gap has its local day among the downloads. */
  lemma AllDaysCover(gaps: seq<Gap>, off: int, i: int, t: int)
    requires 0 <= i < |gaps| && gaps[i].ini <= t <= gaps[i].end
    ensures LocalMidnight(t, off) in AllDays(gaps, off)
  {
    GapDaysCover(gaps[i], off, t);
    AllDaysMember(gaps, off, LocalMidnight(t, off));
  }

  // ---- the download loop ----

  /** The day loop over `days`: each day's rows concatenated to `acc`; the first day that raises ends the call. */
  function Download(acc: Frame, days: seq<int>, fetch: int -> Result<seq<Row>>): Result<Frame>
    decreases |days|
  {
    if days == [] then Ok(acc)
    else
      var d := fetch(days[0]);
      if d.Err? then Err(d.error) else Download(Concat(acc, Rows(d.value)), days[1..], fetch)
  }

  /**
   * The loop succeeds exactly when every day does, and then has columns exactly when `acc`
   * had or some day was downloaded.
   */
  lemma {:induction false} DownloadSpec(acc: Frame, days: seq<int>, fetch: int -> Result<seq<Row>>)
    ensures var r := Download(acc, days, fetch);
      && (r.Ok? <==> forall k :: 0 <= k < |days| ==> fetch(days[k]).Ok?)
      && (r.Ok? ==> (r.value.NoColumns? <==> acc.NoColumns? && days == []))
    decreases |days|
  {
    if days != [] {
      var d := fetch(days[0]);
      if d.Ok? {
        DownloadSpec(Concat(acc, Rows(d.value)), days[1..], fetch);
        assert forall k :: 1 <= k < |days| ==> days[k] == days[1..][k - 1];
        assert forall k :: 0 <= k < |days[1..]| ==> days[1..][k] == days[k + 1];
      }
    }
  }

  /** A row of the result that `acc` did not hold comes from some day, found at `k`. */
  lemma {:induction false} DownloadFrom(acc: Frame, days: seq<int>, fetch: int -> Result<seq<Row>>, x: Row)
    returns (k: int)
    requires Download(acc, days, fetch).Ok? && x in RowsOf(Download(acc, days, fetch).value) && x !in RowsOf(acc)
    ensures 0 <= k < |days| && fetch(days[k]).Ok? && x in fetch(days[k]).value
    decreases |days|
  {
    var d := fetch(days[0]);
    var next := Concat(acc, Rows(d.value));
    if x in d.value {
      k := 0;
    } else {
      var j := DownloadFrom(next, days[1..], fetch, x);
      k := j + 1;
    }
  }

  /** The result keeps `acc`'s rows and every row of day `k`. */
  lemma {:induction false} DownloadKeeps(acc: Frame, days: seq<int>, fetch: int -> Result<seq<Row>>, x: Row, k: int)
    requires Download(acc, days, fetch).Ok?
    requires x in RowsOf(acc) || (0 <= k < |days| && fetch(days[k]).Ok? && x in fetch(days[k]).value)
    ensures x in RowsOf(Download(acc, days, fetch).value)
    decreases |days|
  {
    if days != [] {
      var d := fetch(days[0]);
      var next := Concat(acc, Rows(d.value));
      if x in RowsOf(acc) || k == 0 {
        DownloadKeeps(next, days[1..], fetch, x, -1);
      } else {
        assert days[1..][k - 1] == days[k];
        DownloadKeeps(next, days[1..], fetch, x, k - 1);
      }
    }
  }

  /** Downloading `a` and then `b` is downloading `a + b`. */
  lemma {:induction false} DownloadAppend(acc: Frame, a: seq<int>, b: seq<int>, fetch: int -> Result<seq<Row>>)
    ensures Download(acc, a + b, fetch)
         == (var r := Download(acc, a, fetch); if r.Err? then r else Download(r.value, b, fetch))
    decreases |a|
  {
    if a != [] {
      assert (a + b)[0] == a[0] && (a + b)[1..] == a[1..] + b;
      var d := fetch(a[0]);
      if d.Ok? {
        DownloadAppend(Concat(acc, Rows(d.value)), a[1..], b, fetch);
      }
    } else {
      assert a + b == b;
    }
  }

  /** The end of `_get_historical_data_source`: the downloaded rows sorted, stamped and de-duplicated. */
  function Finish(m: Result<Frame>, lat: string, lon: string): Result<Frame> {
    if m.Err? then Err(m.error)
    else if m.value.NoColumns? then Err("KeyError: 'ts'")
    else Ok(Rows(Tidy(m.value.rows, lat, lon)))
  }

  /**
   * After downloading `days`, the call answers exactly when there was a day and every day
   * succeeded; the answer is sorted by `ts` with one row per key, every row carries the
   * location and is a downloaded row, and every downloaded hour is in it.
   */
  lemma FinishSpec(days: seq<int>, fetch: int -> Result<seq<Row>>, lat: string, lon: string)
    ensures var r := Finish(Download(NoColumns, days, fetch), lat, lon);
      && (r.Ok? <==> days != [] && forall k :: 0 <= k < |days| ==> fetch(days[k]).Ok?)
      && (r.Ok? ==>
            && r.value.Rows?
            && SortedByTs(r.value.rows) && UniqueKeys(r.value.rows)
            && (forall y :: y in r.value.rows ==> y.lat == lat && y.lon == lon)
            && (forall y :: y in r.value.rows ==> exists k, x :: 0 <= k < |days| && x in fetch(days[k]).value && y == x.(lat := lat, lon := lon))
            && (forall k, x :: 0 <= k < |days| && x in fetch(days[k]).value ==> exists y :: y in r.value.rows && y.ts == x.ts))
  {
    DownloadSpec(NoColumns, days, fetch);
    var m := Download(NoColumns, days, fetch);
    if m.Ok? && m.value.Rows? {
      var rows := m.value.rows;
      TidySpec(rows, lat, lon);
      var r := Tidy(rows, lat, lon);
      forall y | y in r ensures exists k, x :: 0 <= k < |days| && x in fetch(days[k]).value && y == x.(lat := lat, lon := lon) {
        var k, x := FinishFrom(days, fetch, lat, lon, y);
      }
      forall k, x | 0 <= k < |days| && x in fetch(days[k]).value ensures exists y :: y in r && y.ts == x.ts {
        FinishKeeps(days, fetch, lat, lon, k, x);
      }
    }
  }

  /** A finished row is a downloaded row of day `k`, moved to the location. */
  lemma FinishFrom(days: seq<int>, fetch: int -> Result<seq<Row>>, lat: string, lon: string, y: Row)
    returns (k: int, x: Row)
    requires Download(NoColumns, days, fetch).Ok? && Download(NoColumns, days, fetch).value.Rows?
    requires y in Tidy(Download(NoColumns, days, fetch).value.rows, lat, lon)
    ensures 0 <= k < |days| && fetch(days[k]).Ok? && x in fetch(days[k]).value && y == x.(lat := lat, lon := lon)
  {
    var m := Download(NoColumns, days, fetch);
    x := TidyFrom(m.value.rows, lat, lon, y);
    assert RowsOf(m.value) == m.value.rows;
    k := DownloadFrom(NoColumns, days, fetch, x);
  }

  /** Every downloaded hour of day `k` has a finished row. */
  lemma FinishKeeps(days: seq<int>, fetch: int -> Result<seq<Row>>, lat: string, lon: string, k: int, x: Row)
    requires Download(NoColumns, days, fetch).Ok? && Download(NoColumns, days, fetch).value.Rows?
    requires 0 <= k < |days| && fetch(days[k]).Ok? && x in fetch(days[k]).value
    ensures exists y :: y in Tidy(Download(NoColumns, days, fetch).value.rows, lat, lon) && y.ts == x.ts
  {
    var m := Download(NoColumns, days, fetch);
    DownloadKeeps(NoColumns, days, fetch, x, k);
    assert RowsOf(m.value) == m.value.rows;
    TidySpec(m.value.rows, lat, lon);
  }

  /**
   * `_get_historical_data_source(latitude, longitude, gaps, tz)` for a zone of offset `off`: the
   * days of every gap downloaded, then finished. When no day at all is downloaded the frame
   * has no `ts` column to sort by.
   */
  function DarkSkySource(load: Forecastio, lat: string, lon: string, gaps: seq<Gap>, off: int): Result<Frame> {
    Finish(Download(NoColumns, AllDays(gaps, off), DayFor(load, lat, lon)), lat, lon)
  }

  /**
   * The provider answers exactly when some day is to be downloaded and every day's download
   * has records; the answer is as `FinishSpec` states for the days of all gaps.
   */
  lemma DarkSkySourceSpec(load: Forecastio, lat: string, lon: string, gaps: seq<Gap>, off: int)
    ensures var r := DarkSkySource(load, lat, lon, gaps, off);
      var days := AllDays(gaps, off);
      var fetch := DayFor(load, lat, lon);
      && (r.Ok? <==> days != [] && forall k :: 0 <= k < |days| ==> fetch(days[k]).Ok?)
      && (r.Ok? ==>
            && r.value.Rows?
            && SortedByTs(r.value.rows) && UniqueKeys(r.value.rows)
            && (forall y :: y in r.value.rows ==> y.lat == lat && y.lon == lon)
            && (forall y :: y in r.value.rows ==> exists k, x :: 0 <= k < |days| && x in fetch(days[k]).value && y == x.(lat := lat, lon := lon))
            && (forall k, x :: 0 <= k < |days| && x in fetch(days[k]).value ==> exists y :: y in r.value.rows && y.ts == x.ts))
  {
    FinishSpec(AllDays(gaps, off), DayFor(load, lat, lon), lat, lon);
  }

  /** A download onto `a + b` is the download onto `b`, placed after `a`. */
  lemma {:induction false} DownloadShift(a: Frame, b: Frame, days: seq<int>, fetch: int -> Result<seq<Row>>)
    ensures Download(Concat(a, b), days, fetch)
         == (var r := Download(b, days, fetch); if r.Err? then r else Ok(Concat(a, r.value)))
    decreases |days|
  {
    if days != [] {
      var d := fetch(days[0]);
      if d.Ok? {
        ConcatAssocFrames(a, b, Rows(d.value));
        DownloadShift(a, Concat(b, Rows(d.value)), days[1..], fetch);
      }
    }
  }

  /** The day loop of one gap: `data_period`, or the exception of the first day that raises. */
  method GetPeriod(load: Forecastio, lat: string, lon: string, g: Gap, off: int) returns (r: Result<Frame>)
    ensures r == Download(NoColumns, GapDays(g, off), DayFor(load, lat, lon))
  {
    ghost var fetch := DayFor(load, lat, lon);
    var days := GapDays(g, off);
    var dataPeriod := NoColumns;
    var j := 0;
    while j < |days|
      invariant 0 <= j <= |days|
      invariant Download(NoColumns, days, fetch) == Download(dataPeriod, days[j..], fetch)
    {
      assert days[j..][0] == days[j] && days[j..][1..] == days[j + 1..];
      var daily := GetDataDay(load, lat, lon, days[j]);
      assert daily == fetch(days[j]);
      if daily.Err? {
        return Err(daily.error);
      }
      dataPeriod := Concat(dataPeriod, Rows(daily.value));
      j := j + 1;
    }
    assert days[j..] == [];
    r := Ok(dataPeriod);
  }

  /** `_get_historical_data_source`: the gap loop around the day loop, concatenating as it goes. */
  method GetHistoricalDataSource(load: Forecastio, lat: string, lon: string, gaps: seq<Gap>, off: int)
    returns (r: Result<Frame>)
    ensures r == DarkSkySource(load, lat, lon, gaps, off)
  {
    ghost var fetch := DayFor(load, lat, lon);
    var missing := NoColumns;
    var k := 0;
    while k < |gaps|
      invariant 0 <= k <= |gaps|
      invariant Download(NoColumns, AllDays(gaps, off), fetch) == Download(missing, AllDays(gaps[k..], off), fetch)
    {
      assert gaps[k..][0] == gaps[k] && gaps[k..][1..] == gaps[k + 1..];
      DownloadAppend(missing, GapDays(gaps[k], off), AllDays(gaps[k + 1..], off), fetch);
      DownloadShift(missing, NoColumns, GapDays(gaps[k], off), fetch);
      assert Concat(missing, NoColumns) == missing;
      var dataPeriod := GetPeriod(load, lat, lon, gaps[k], off);
      if dataPeriod.Err? {
        return Err(dataPeriod.error);
      }
      missing := Concat(missing, dataPeriod.value);
      k := k + 1;
    }
    assert gaps[k..] == [];
    assert DarkSkySource(load, lat, lon, gaps, off) == Finish(Ok(missing), lat, lon);
    if missing.NoColumns? {
      return Err("KeyError: 'ts'");
    }
    r := Ok(Rows(Tidy(missing.rows, lat, lon)));
  }
}
