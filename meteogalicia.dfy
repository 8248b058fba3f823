/**
 * The MeteoGalicia provider: one download per local day from the WRF model's THREDDS
 * server, trying the model resolutions in order, with the operational files for the last
 * fourteen days and the historical archive before; the gaps widened to whole local days,
 * the forecast rows of the current day, and the downloaded hours finished like every
 * provider's.
 */
module MeteoGalicia {
  import opened Wrappers
  import opened Text
  import opened Calendar
  import opened Records
  import opened Historical

  /**
   * `requests.get(url)` read by `pd.read_csv(…, sep=",")` with its `date` column as UTC
   * instants: the lines, or the exception raised on the way.
   */
  type Get = string -> Result<seq<Record>>

  /** `(km, domain)` pairs, in the order they are tried. */
  const Resolutions: seq<(nat, nat)> := [(4, 2), (12, 2), (12, 1), (36, 2), (36, 1)]

  /** The model run of the operational files. */
  const Run: nat := 0

  /** The days back that the operational files cover. */
  const OperationalDays := 14

  /** The column renamed to `GHI`. */
  const Swflx := "swflx[unit=\"W m-2\"]"

  const Thredds := "http://mandeo.meteogalicia.es/thredds/ncss/grid/"
  const Operational := Thredds + "wrf_2d_"
  const Archive := Thredds + "modelos/WRF_HIST/"

  // ---- the URL of one day ----

  function Query(lat: string, lon: string): string {
    "var=swflx&point=true&accept=csv&longitude=" + lon + "&latitude=" + lat + "&temporal=all"
  }

  /** The operational file of `date` (`%Y%m%d`) at a resolution. */
  function OperationalUrl(res: (nat, nat), date: string, lat: string, lon: string): string {
    Operational + (Pad(res.0, 2) + "km/fmrc/files/" + date + "/wrf_arw_det_history_d0" + IntToString(res.1)
                   + "_" + date + "_" + Pad(Run, 2) + "00.nc4?" + Query(lat, lon))
  }

  /** The archived file of `date`, filed under its year and month; only run 00 is archived. */
  function ArchiveUrl(res: (nat, nat), year: string, month: string, date: string, lat: string, lon: string): string {
    Archive + ("d0" + IntToString(res.1) + "/" + year + "/" + month + "/wrf_arw_det_history_d0" + IntToString(res.1)
               + "_" + date + "_0000.nc4?" + Query(lat, lon))
  }

  /** `(now - day).days <= 14`, both seen in the local zone. */
  predicate Recent(day: int, now: int) {
    TimedeltaDays(now - day) <= OperationalDays
  }

  /**
   * The URL for `day`, an instant whose local wall clock (`day + off`) `strftime` formats;
   * outside the years 1 to 9999 formatting raises.
   */
  function Url(res: (nat, nat), day: int, off: int, now: int, lat: string, lon: string): Result<string> {
    var wall := day + off;
    if !InDatetimeRange(wall) then Err("ValueError: year is out of range")
    else if Recent(day, now) then Ok(OperationalUrl(res, CompactDateString(wall), lat, lon))
    else Ok(ArchiveUrl(res, YearString(wall), MonthString(wall), CompactDateString(wall), lat, lon))
  }

  lemma NotPrefix<T>(a: seq<T>, x: seq<T>, y: seq<T>, t: seq<T>)
    requires |x| > 0 && |y| > 0 && x[0] != y[0]
    ensures !(a + x <= (a + y) + t)
  {
    assert (a + x)[|a|] == x[0] && ((a + y) + t)[|a|] == y[0];
  }

  /**
   * A day at most fourteen days back is fetched from the operational files and any older
   * day from the archive: each URL lies under exactly one of the two trees.
   */
  lemma UrlChoice(res: (nat, nat), day: int, off: int, now: int, lat: string, lon: string)
    requires InDatetimeRange(day + off)
    ensures var u := Url(res, day, off, now, lat, lon).value;
      && (Operational <= u <==> Recent(day, now))
      && (Archive <= u <==> !Recent(day, now))
  {
    var wall := day + off;
    var u := Url(res, day, off, now, lat, lon).value;
    if Recent(day, now) {
      var rest := u[|Operational|..];
      assert u == Operational + rest;
      NotPrefix(Thredds, "modelos/WRF_HIST/", "wrf_2d_", rest);
    } else {
      var rest := u[|Archive|..];
      assert u == Archive + rest;
      NotPrefix(Thredds, "wrf_2d_", "modelos/WRF_HIST/", rest);
    }
  }

  // ---- one day: the resolutions in order ----

  predicate HasSwflx(lines: seq<Record>) {
    forall i :: 0 <= i < |lines| ==> Swflx in lines[i].cols
  }

  /** `solar_data[["ts", "GHI"]]` after the rename: the rows' only column is `GHI`. */
  function GhiRows(lines: seq<Record>): (rows: seq<Row>)
    requires HasSwflx(lines)
    ensures |rows| == |lines|
    ensures forall i :: 0 <= i < |lines| ==> rows[i].ts == lines[i].time && rows[i].cols == map["GHI" := lines[i].cols[Swflx]]
  {
    seq(|lines|, i requires 0 <= i < |lines| => Row("", "", lines[i].time, map["GHI" := lines[i].cols[Swflx]]))
  }

  /**
   * One try inside the `try` block: the URL, the download, an empty table raised as out of
   * the bounding box, and a table without the irradiance column failing at the selection.
   */
  function Attempt(get: Get, lat: string, lon: string, day: int, off: int, now: int, res: (nat, nat)): Result<seq<Row>> {
    var url := Url(res, day, off, now, lat, lon);
    if url.Err? then Err(url.error)
    else
      var got := get(url.value);
      if got.Err? then Err(got.error)
      else if |got.value| == 0 then Err("Location out of the bounding box, trying with another resolution...")
      else if !HasSwflx(got.value) then Err("KeyError: \"['GHI'] not in index\"")
      else Ok(GhiRows(got.value))
  }

  function AttemptFor(get: Get, lat: string, lon: string, day: int, off: int, now: int): ((nat, nat)) -> Result<seq<Row>> {
    res => Attempt(get, lat, lon, day, off, now, res)
  }

  /** A try that succeeds yields rows, each holding only the `GHI` column. */
  lemma AttemptSpec(get: Get, lat: string, lon: string, day: int, off: int, now: int, res: (nat, nat))
    ensures var a := Attempt(get, lat, lon, day, off, now, res);
      a.Ok? ==> |a.value| > 0 && forall i :: 0 <= i < |a.value| ==> a.value[i].cols.Keys == {"GHI"}
  {
  }

  /** `_get_historic_data_day`: the first resolution that yields rows, or `pd.DataFrame({})`. */
  function DayData(get: Get, lat: string, lon: string, day: int, off: int, now: int): Frame {
    var found := FirstOk(Resolutions, AttemptFor(get, lat, lon, day, off, now));
    if found.Some? then Rows(found.value) else NoColumns
  }

  /**
   * A day has data exactly when some resolution's download has lines with the irradiance
   * column; the data is then that of the first such resolution, every earlier one having
   * failed, and it is never empty.
   */
  lemma DayDataSpec(get: Get, lat: string, lon: string, day: int, off: int, now: int)
    ensures var d := DayData(get, lat, lon, day, off, now);
      var a := AttemptFor(get, lat, lon, day, off, now);
      && (d.Rows? <==> exists k :: 0 <= k < |Resolutions| && a(Resolutions[k]).Ok?)
      && (d.Rows? ==>
            |d.rows| > 0 && (forall i :: 0 <= i < |d.rows| ==> d.rows[i].cols.Keys == {"GHI"})
                   && exists k :: 0 <= k < |Resolutions| && a(Resolutions[k]) == Ok(d.rows)
                                              && forall j :: 0 <= j < k ==> a(Resolutions[j]).Err?)
  {
    var a := AttemptFor(get, lat, lon, day, off, now);
    FirstOkSpec(Resolutions, a);
    var d := DayData(get, lat, lon, day, off, now);
    if d.Rows? {
      var k :| 0 <= k < |Resolutions| && a(Resolutions[k]) == Ok(d.rows) && forall j :: 0 <= j < k ==> a(Resolutions[j]).Err?;
      AttemptSpec(get, lat, lon, day, off, now, Resolutions[k]);
    }
  }

  /** The resolution loop, returning at the first resolution with data. */
  method GetHistoricDataDay(get: Get, lat: string, lon: string, day: int, off: int, now: int) returns (f: Frame)
    ensures f == DayData(get, lat, lon, day, off, now)
  {
    ghost var a := AttemptFor(get, lat, lon, day, off, now);
    var k := 0;
    while k < |Resolutions|
      invariant 0 <= k <= |Resolutions|
      invariant FirstOk(Resolutions, a) == FirstOk(Resolutions[k..], a)
    {
      assert Resolutions[k..][0] == Resolutions[k] && Resolutions[k..][1..] == Resolutions[k + 1..];
      var solar := Attempt(get, lat, lon, day, off, now, Resolutions[k]);
      assert solar == a(Resolutions[k]);
      if solar.Ok? {
        return Rows(solar.value);
      }
      k := k + 1;
    }
    return NoColumns;
  }

  // ---- _collect_forecasting ----

  /** A forecast row: `ts` renamed `timestamp`, the location and the time of the forecast added. */
  datatype Forecast = Forecast(lat: string, lon: string, timestamp: int, forecastingTimestamp: int,
                               cols: map<string, string>)

  function ToForecast(r: Row, lat: string, lon: string, now: int): Forecast {
    Forecast(lat, lon, r.ts, now, r.cols)
  }

  /** `query("timestamp >= now")` of the renamed and stamped rows, in order. */
  function Forecasts(rows: seq<Row>, lat: string, lon: string, now: int): seq<Forecast>
    decreases |rows|
  {
    if rows == [] then []
    else (if rows[0].ts >= now then [ToForecast(rows[0], lat, lon, now)] else []) + Forecasts(rows[1..], lat, lon, now)
  }

  /**
   * `_collect_forecasting` at instant `now`: today's download. A day without data has no
   * `timestamp` column, and the query raises.
   */
  function CollectForecasting(get: Get, lat: string, lon: string, now: int, off: int): Result<seq<Forecast>> {
    var data := DayData(get, lat, lon, now, off, now);
    if data.NoColumns? then Err("UndefinedVariableError: name 'timestamp' is not defined")
    else Ok(Forecasts(data.rows, lat, lon, now))
  }

  /** The forecast rows are exactly the day's rows from `now` on, each stamped with the location and `now`. */
  lemma {:induction false} ForecastsSpec(rows: seq<Row>, lat: string, lon: string, now: int)
    ensures forall f :: f in Forecasts(rows, lat, lon, now) <==> exists r :: r in rows && r.ts >= now && f == ToForecast(r, lat, lon, now)
    decreases |rows|
  {
    if rows != [] {
      ForecastsSpec(rows[1..], lat, lon, now);
      assert rows == [rows[0]] + rows[1..];
      forall f ensures f in Forecasts(rows, lat, lon, now) <==> exists r :: r in rows && r.ts >= now && f == ToForecast(r, lat, lon, now) {
        if f in Forecasts(rows[1..], lat, lon, now) {
          var r :| r in rows[1..] && r.ts >= now && f == ToForecast(r, lat, lon, now);
          assert r in rows;
        }
      }
    }
  }

  /**
   * Every forecast row is of the location, made at `now`, for an hour not before `now`; and
   * every hour of today's download from `now` on is there.
   */
  lemma CollectForecastingSpec(get: Get, lat: string, lon: string, now: int, off: int)
    ensures var r := CollectForecasting(get, lat, lon, now, off);
      var data := DayData(get, lat, lon, now, off, now);
      && (r.Err? <==> data.NoColumns?)
      && (r.Ok? ==>
            && (forall f :: f in r.value ==> f.lat == lat && f.lon == lon && f.forecastingTimestamp == now && f.timestamp >= now)
            && (forall x :: x in data.rows && x.ts >= now ==> ToForecast(x, lat, lon, now) in r.value))
  {
    var data := DayData(get, lat, lon, now, off, now);
    if data.Rows? {
      ForecastsSpec(data.rows, lat, lon, now);
    }
  }

  // ---- _get_historical_data_source ----

  /**
   * The first day downloaded for a gap starting at local midnight `ini`: MeteoGalicia's day
   * begins at 01:00 UTC, so the day before is needed when 01:00 UTC of `ini`'s date comes
   * after `ini`.
   */
  function LoopStart(ini: int, off: int): int {
    var mgStart := LocalDay(ini, off) * Day + Hour;
    if mgStart > ini then ini - Day else ini
  }

  /** The download starts a day early exactly in the zones whose offset is above `-01:00`. */
  lemma LoopStartSpec(t: int, off: int)
    ensures var ini := LocalMidnight(t, off);
      LoopStart(ini, off) == if off > -Hour then ini - Day else ini
  {
  }

  /** `_get_historic_data_day` of each day, for one location and zone. */
  function DayFetch(get: Get, lat: string, lon: string, off: int, now: int): int -> Frame {
    day => DayData(get, lat, lon, day, off, now)
  }

  /** The day loop: each day's download concatenated to `acc`. */
  function ConcatDays(acc: Frame, days: seq<int>, fetch: int -> Frame): Frame
    decreases |days|
  {
    if days == [] then acc
    else ConcatDays(Concat(acc, fetch(days[0])), days[1..], fetch)
  }

  /** The rows of each day's download, day after day. */
  function DaysRows(days: seq<int>, fetch: int -> Frame): seq<Row>
    decreases |days|
  {
    if days == [] then [] else RowsOf(fetch(days[0])) + DaysRows(days[1..], fetch)
  }

  /** Whether some day's download has columns. */
  predicate SomeDayHasColumns(days: seq<int>, fetch: int -> Frame)
    decreases |days|
  {
    days != [] && (fetch(days[0]).Rows? || SomeDayHasColumns(days[1..], fetch))
  }

  /** The fold appends the days' rows to `acc`'s, and has columns when `acc` or some day does. */
  lemma {:induction false} ConcatDaysFold(acc: Frame, days: seq<int>, fetch: int -> Frame)
    ensures RowsOf(ConcatDays(acc, days, fetch)) == RowsOf(acc) + DaysRows(days, fetch)
    ensures ConcatDays(acc, days, fetch).Rows? <==> acc.Rows? || SomeDayHasColumns(days, fetch)
    decreases |days|
  {
    if days != [] {
      var next := Concat(acc, fetch(days[0]));
      ConcatDaysFold(next, days[1..], fetch);
      ConcatAssoc(RowsOf(acc), RowsOf(fetch(days[0])), DaysRows(days[1..], fetch));
    }
  }

  /** Some day has columns exactly when one of them, by index, does. */
  lemma {:induction false} SomeDayHasColumnsSpec(days: seq<int>, fetch: int -> Frame)
    ensures SomeDayHasColumns(days, fetch) <==> exists k :: 0 <= k < |days| && fetch(days[k]).Rows?
    decreases |days|
  {
    if days != [] {
      SomeDayHasColumnsSpec(days[1..], fetch);
      if SomeDayHasColumns(days[1..], fetch) {
        var k :| 0 <= k < |days[1..]| && fetch(days[1..][k]).Rows?;
        assert days[k + 1] == days[1..][k];
      }
      if exists k :: 0 <= k < |days| && fetch(days[k]).Rows? {
        var k :| 0 <= k < |days| && fetch(days[k]).Rows?;
        if k > 0 {
          assert days[1..][k - 1] == days[k];
        }
      }
    }
  }

  /** A row is among the days' rows exactly when it is among one day's rows. */
  lemma {:induction false} DaysRowsMember(days: seq<int>, fetch: int -> Frame, x: Row)
    ensures x in DaysRows(days, fetch) <==> exists k :: 0 <= k < |days| && x in RowsOf(fetch(days[k]))
    decreases |days|
  {
    if days != [] {
      DaysRowsMember(days[1..], fetch, x);
      if x in DaysRows(days[1..], fetch) {
        var k :| 0 <= k < |days[1..]| && x in RowsOf(fetch(days[1..][k]));
        assert days[k + 1] == days[1..][k];
      }
      if exists k :: 0 <= k < |days| && x in RowsOf(fetch(days[k])) {
        var k :| 0 <= k < |days| && x in RowsOf(fetch(days[k]));
        if k > 0 {
          assert days[1..][k - 1] == days[k];
        }
      }
    }
  }

  /** The period has columns exactly when the start did or some day has data, and it holds the days' rows after `acc`'s. */
  lemma ConcatDaysSpec(acc: Frame, days: seq<int>, fetch: int -> Frame)
    ensures var f := ConcatDays(acc, days, fetch);
      && (f.Rows? <==> acc.Rows? || exists k :: 0 <= k < |days| && fetch(days[k]).Rows?)
      && (forall x :: x in RowsOf(f) <==> x in RowsOf(acc) || exists k :: 0 <= k < |days| && x in RowsOf(fetch(days[k])))
  {
    ConcatDaysFold(acc, days, fetch);
    SomeDayHasColumnsSpec(days, fetch);
    forall x
      ensures x in RowsOf(ConcatDays(acc, days, fetch)) <==> x in RowsOf(acc) || exists k :: 0 <= k < |days| && x in RowsOf(fetch(days[k]))
    {
      DaysRowsMember(days, fetch, x);
    }
  }

  /**
   * One gap: both bounds floored to local midnight, the days from the (possibly earlier)
   * start through the end's midnight downloaded, and their rows sorted and kept from the
   * start's midnight to 23:00 of the end's day.
   */
  function GapPeriod(get: Get, lat: string, lon: string, g: Gap, off: int, now: int): Result<seq<Row>> {
    var ini := LocalMidnight(g.ini, off);
    var end := LocalMidnight(g.end, off);
    Window(ConcatDays(NoColumns, DayRange(LoopStart(ini, off), end), DayFetch(get, lat, lon, off, now)), ini, end)
  }

  /** The sort by `ts` and the query from `ini` to 23:00 of `end`'s day, on the concatenated days. */
  function Window(data: Frame, ini: int, end: int): Result<seq<Row>> {
    if data.NoColumns? then Err("KeyError: 'ts'")
    else Ok(Within(SortByTs(data.rows), ini, end + 23 * Hour))
  }

  /** The window fails exactly on a frame without columns; otherwise it is sorted and keeps exactly the rows in range. */
  lemma WindowSpec(data: Frame, ini: int, end: int)
    ensures var w := Window(data, ini, end);
      && (w.Ok? <==> data.Rows?)
      && (w.Ok? ==> SortedByTs(w.value) && forall x :: x in w.value <==> ini <= x.ts <= end + 23 * Hour && x in data.rows)
  {
    if data.Rows? {
      var sorted := SortByTs(data.rows);
      SortByTsSpec(data.rows);
      SortByTsMembers(data.rows);
      WithinSorted(sorted, ini, end + 23 * Hour);
    }
  }

  /**
   * A gap fails exactly when none of its days has data; otherwise its rows are ordered by
   * `ts` and are exactly the downloaded rows from the start's midnight to 23:00 of the end's day.
   */
  lemma GapPeriodSpec(get: Get, lat: string, lon: string, g: Gap, off: int, now: int)
    ensures var ini := LocalMidnight(g.ini, off);
      var end := LocalMidnight(g.end, off);
      var days := DayRange(LoopStart(ini, off), end);
      var p := GapPeriod(get, lat, lon, g, off, now);
      var fetch := DayFetch(get, lat, lon, off, now);
      && (p.Ok? <==> exists k :: 0 <= k < |days| && fetch(days[k]).Rows?)
      && (p.Ok? ==>
            && SortedByTs(p.value)
            && forall x :: x in p.value <==>
                 ini <= x.ts <= end + 23 * Hour && exists k :: 0 <= k < |days| && x in RowsOf(fetch(days[k])))
  {
    var ini := LocalMidnight(g.ini, off);
    var end := LocalMidnight(g.end, off);
    var days := DayRange(LoopStart(ini, off), end);
    var fetch := DayFetch(get, lat, lon, off, now);
    ConcatDaysSpec(NoColumns, days, fetch);
    WindowSpec(ConcatDays(NoColumns, days, fetch), ini, end);
  }

  /** The gap loop: each gap's rows appended to `acc`; the first failing gap fails the call. */
  function CollectGaps(acc: seq<Row>, gaps: seq<Gap>, get: Get, lat: string, lon: string, off: int, now: int)
    : Result<seq<Row>>
    decreases |gaps|
  {
    if gaps == [] then Ok(acc)
    else
      var p := GapPeriod(get, lat, lon, gaps[0], off, now);
      if p.Err? then Err(p.error) else CollectGaps(acc + p.value, gaps[1..], get, lat, lon, off, now)
  }

  /** The loop succeeds exactly when every gap does, and then holds every gap's rows after `acc`. */
  lemma {:induction false} CollectGapsSpec(acc: seq<Row>, gaps: seq<Gap>, get: Get, lat: string, lon: string, off: int, now: int)
    ensures var c := CollectGaps(acc, gaps, get, lat, lon, off, now);
      && (c.Ok? <==> forall i :: 0 <= i < |gaps| ==> GapPeriod(get, lat, lon, gaps[i], off, now).Ok?)
      && (c.Ok? ==> forall x :: x in c.value <==>
            x in acc || exists i :: 0 <= i < |gaps| && x in GapPeriod(get, lat, lon, gaps[i], off, now).value)
    decreases |gaps|
  {
    if gaps != [] {
      var p := GapPeriod(get, lat, lon, gaps[0], off, now);
      if p.Ok? {
        CollectGapsSpec(acc + p.value, gaps[1..], get, lat, lon, off, now);
        assert forall i :: 1 <= i < |gaps| ==> gaps[i] == gaps[1..][i - 1];
        assert forall i :: 0 <= i < |gaps[1..]| ==> gaps[1..][i] == gaps[i + 1];
      }
    }
  }

  /**
   * `_get_historical_data_source(latitude, longitude, gaps, tz)` for a zone of offset `off`:
   * the gaps' rows sorted, stamped with the location and de-duplicated. No gaps leave a
   * frame without a `ts` column to sort by.
   */
  function MeteoGaliciaSource(get: Get, lat: string, lon: string, gaps: seq<Gap>, off: int, now: int): Result<Frame> {
    if gaps == [] then Err("KeyError: 'ts'")
    else
      var c := CollectGaps([], gaps, get, lat, lon, off, now);
      if c.Err? then Err(c.error) else Ok(Rows(Tidy(c.value, lat, lon)))
  }

  /**
   * The provider answers exactly when there are gaps and each has a day with data; the answer
   * is the gaps' rows, finished.
   */
  lemma MeteoGaliciaSourceSpec(get: Get, lat: string, lon: string, gaps: seq<Gap>, off: int, now: int)
    ensures var r := MeteoGaliciaSource(get, lat, lon, gaps, off, now);
      var c := CollectGaps([], gaps, get, lat, lon, off, now);
      && (r.Ok? <==> gaps != [] && forall i :: 0 <= i < |gaps| ==> GapPeriod(get, lat, lon, gaps[i], off, now).Ok?)
      && (r.Ok? ==> r == Ok(Rows(Tidy(c.value, lat, lon))))
  {
    CollectGapsSpec([], gaps, get, lat, lon, off, now);
  }

  /** The day loop of one gap. */
  method GetPeriod(get: Get, lat: string, lon: string, g: Gap, off: int, now: int) returns (p: Result<seq<Row>>)
    ensures p == GapPeriod(get, lat, lon, g, off, now)
  {
    var ini := LocalMidnight(g.ini, off);
    var end := LocalMidnight(g.end, off);
    var days := DayRange(LoopStart(ini, off), end);
    ghost var fetch := DayFetch(get, lat, lon, off, now);
    var dataPeriod := NoColumns;
    var k := 0;
    while k < |days|
      invariant 0 <= k <= |days|
      invariant ConcatDays(NoColumns, days, fetch) == ConcatDays(dataPeriod, days[k..], fetch)
    {
      assert days[k..][0] == days[k] && days[k..][1..] == days[k + 1..];
      var daily := GetHistoricDataDay(get, lat, lon, days[k], off, now);
      assert daily == fetch(days[k]);
      dataPeriod := Concat(dataPeriod, daily);
      k := k + 1;
    }
    assert days[k..] == [];
    assert GapPeriod(get, lat, lon, g, off, now) == Window(dataPeriod, ini, end);
    if dataPeriod.NoColumns? {
      return Err("KeyError: 'ts'");
    }
    p := Ok(Within(SortByTs(dataPeriod.rows), ini, end + 23 * Hour));
  }

  /** `_get_historical_data_source`: the gap loop around the day loop. */
  method GetHistoricalDataSource(get: Get, lat: string, lon: string, gaps: seq<Gap>, off: int, now: int)
    returns (r: Result<Frame>)
    ensures r == MeteoGaliciaSource(get, lat, lon, gaps, off, now)
  {
    if gaps == [] {
      return Err("KeyError: 'ts'");
    }
    var missing: seq<Row> := [];
    var k := 0;
    while k < |gaps|
      invariant 0 <= k <= |gaps|
      invariant CollectGaps([], gaps, get, lat, lon, off, now) == CollectGaps(missing, gaps[k..], get, lat, lon, off, now)
    {
      assert gaps[k..][0] == gaps[k] && gaps[k..][1..] == gaps[k + 1..];
      var period := GetPeriod(get, lat, lon, gaps[k], off, now);
      if period.Err? {
        return Err(period.error);
      }
      missing := missing + period.value;
      k := k + 1;
    }
    r := Ok(Rows(Tidy(missing, lat, lon)));
  }
}
