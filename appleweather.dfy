/**
 * The WeatherKit client (`appleweather.py`): the `%Y-%m-%dT%H:%M:%SZ` format of the API and its
 * parse, the retention cut-off, the split of `[start, day_to + 1 day]` into requests of at most
 * ten days, and the parse of each answer.
 */
module AppleWeather {
  import opened Wrappers
  import opened Text
  import opened Calendar
  import opened Web

  const Weather := "https://weatherkit.apple.com/api/v1/weather/en_US/"

  /** The zone the API is told to cut daily forecasts in. */
  const Timezone := "Europe/Madrid"

  const CurrentWeather := "currentWeather"

  /** 2021-08-01, the first day the API keeps, as days since 1970-01-01. */
  const RetentionDay := 18840

  /** The longest request. */
  const MaxWindow := 10 * Day

  // ---- _datetime_to_api / _api_to_datetime ----

  /** `strftime("%Y-%m-%dT%H:%M:%SZ")` of a datetime whose reading is `t` epoch seconds. */
  function ApiString(t: int): string
    requires InDatetimeRange(t)
  {
    var c := ToCivil(t);
    Pad(c.date.year, 4) + "-" + Pad(c.date.month, 2) + "-" + Pad(c.date.day, 2) + "T"
    + Pad(c.hour, 2) + ":" + Pad(c.minute, 2) + ":" + Pad(c.second, 2) + "Z"
  }

  /** Whether `s` has the shape `DDDD-DD-DDTDD:DD:DDZ`. */
  predicate ApiShape(s: string) {
    && |s| == 20 && s[4] == '-' && s[7] == '-' && s[10] == 'T' && s[13] == ':' && s[16] == ':' && s[19] == 'Z'
    && AllDigits(s[..4]) && AllDigits(s[5..7]) && AllDigits(s[8..10])
    && AllDigits(s[11..13]) && AllDigits(s[14..16]) && AllDigits(s[17..19])
  }

  /**
   * `datetime.strptime(s, "%Y-%m-%dT%H:%M:%SZ")` on fixed-width fields: the reading of the
   * naive datetime, or `None` for the `ValueError` raised on any other text or an impossible
   * date or time.
   */
  function ParseApi(s: string): Option<int> {
    if ApiShape(s) then
      var c := DateTime(Date(Value(s[..4]), Value(s[5..7]), Value(s[8..10])),
                        Value(s[11..13]), Value(s[14..16]), Value(s[17..19]));
      if ValidDateTime(c) then Some(FromCivil(c)) else None
    else None
  }

  /** Six fields of widths 4, 2, 2, 2, 2, 2 joined by the format's separators sit at fixed places. */
  lemma FieldPlaces(y: string, mo: string, d: string, h: string, mi: string, s: string)
    requires |y| == 4 && |mo| == 2 && |d| == 2 && |h| == 2 && |mi| == 2 && |s| == 2
    ensures var t := y + "-" + mo + "-" + d + "T" + h + ":" + mi + ":" + s + "Z";
      && |t| == 20 && t[4] == '-' && t[7] == '-' && t[10] == 'T' && t[13] == ':' && t[16] == ':' && t[19] == 'Z'
      && t[..4] == y && t[5..7] == mo && t[8..10] == d && t[11..13] == h && t[14..16] == mi && t[17..19] == s
  {
    var t := y + "-" + mo + "-" + d + "T" + h + ":" + mi + ":" + s + "Z";
    assert forall i :: 0 <= i < 4 ==> t[i] == y[i];
    assert t[..4] == y;
    assert t[5] == mo[0] && t[6] == mo[1];
    assert t[5..7] == mo;
    assert t[8] == d[0] && t[9] == d[1];
    assert t[8..10] == d;
    assert t[11] == h[0] && t[12] == h[1];
    assert t[11..13] == h;
    assert t[14] == mi[0] && t[15] == mi[1];
    assert t[14..16] == mi;
    assert t[17] == s[0] && t[18] == s[1];
    assert t[17..19] == s;
  }

  /** The format has fixed width, and each field sits where the parse reads it. */
  lemma ApiStringFields(t: int)
    requires InDatetimeRange(t)
    ensures var s := ApiString(t);
      var c := ToCivil(t);
      && |s| == 20 && s[4] == '-' && s[7] == '-' && s[10] == 'T' && s[13] == ':' && s[16] == ':' && s[19] == 'Z'
      && s[..4] == Pad(c.date.year, 4) && s[5..7] == Pad(c.date.month, 2) && s[8..10] == Pad(c.date.day, 2)
      && s[11..13] == Pad(c.hour, 2) && s[14..16] == Pad(c.minute, 2) && s[17..19] == Pad(c.second, 2)
  {
    var c := ToCivil(t);
    PadWidths(c);
    FieldPlaces(Pad(c.date.year, 4), Pad(c.date.month, 2), Pad(c.date.day, 2), Pad(c.hour, 2), Pad(c.minute, 2), Pad(c.second, 2));
  }

  /** `_api_to_datetime(_datetime_to_api(d)) == d` for every naive datetime `d` of second precision. */
  lemma ApiRoundTrip(t: int)
    requires InDatetimeRange(t)
    ensures ParseApi(ApiString(t)) == Some(t)
  {
    var c := ToCivil(t);
    var s := ApiString(t);
    ApiStringFields(t);
    ValueOfPad(c.date.year, 4);
    ValueOfPad(c.date.month, 2);
    ValueOfPad(c.date.day, 2);
    ValueOfPad(c.hour, 2);
    ValueOfPad(c.minute, 2);
    ValueOfPad(c.second, 2);
    assert ApiShape(s);
    FromCivilToCivil(t);
  }

  /** Distinct readings have distinct API strings. */
  lemma ApiStringInjective(a: int, b: int)
    requires InDatetimeRange(a) && InDatetimeRange(b) && ApiString(a) == ApiString(b)
    ensures a == b
  {
    ApiRoundTrip(a);
    ApiRoundTrip(b);
  }

  // ---- windows of at most ten days ----

  /**
   * The `while` loop and the request after it: ten-day windows while more than nine whole
   * days remain, then one last window to `end` when at least one whole day remains.
   */
  function Windows(cursor: int, end: int): seq<(int, int)>
    decreases end - cursor
  {
    if TimedeltaDays(end - cursor) > 9 then [(cursor, cursor + MaxWindow)] + Windows(cursor + MaxWindow, end)
    else if TimedeltaDays(end - cursor) >= 1 then [(cursor, end)]
    else []
  }

  /** There are no windows exactly when less than a day remains; the first starts at `cursor`. */
  lemma WindowsFirst(cursor: int, end: int)
    ensures var w := Windows(cursor, end);
      && (w == [] <==> end - cursor < Day)
      && (w != [] ==> w[0].0 == cursor)
  {
  }

  /** The last window ends less than a day before `end`. */
  lemma {:induction false} WindowsLast(cursor: int, end: int)
    requires end - cursor >= Day
    ensures var w := Windows(cursor, end); w != [] && end - Day < w[|w| - 1].1 <= end
    decreases end - cursor
  {
    if TimedeltaDays(end - cursor) > 9 {
      var rest := Windows(cursor + MaxWindow, end);
      if end - cursor - MaxWindow >= Day {
        WindowsLast(cursor + MaxWindow, end);
      } else {
        assert rest == [];
      }
    }
  }

  /** Every window is at least a day and at most ten days long. */
  lemma {:induction false} WindowsLengths(cursor: int, end: int)
    ensures forall i :: 0 <= i < |Windows(cursor, end)| ==>
      Day <= Windows(cursor, end)[i].1 - Windows(cursor, end)[i].0 <= MaxWindow
    decreases end - cursor
  {
    if TimedeltaDays(end - cursor) > 9 {
      var next := cursor + MaxWindow;
      var rest := Windows(next, end);
      WindowsLengths(next, end);
      var w := Windows(cursor, end);
      assert w == [(cursor, cursor + MaxWindow)] + rest;
      forall i | 0 <= i < |w| ensures Day <= w[i].1 - w[i].0 <= MaxWindow {
        if i > 0 {
          assert w[i] == rest[i - 1];
        }
      }
    } else {
      var n := TimedeltaDays(end - cursor);
      assert end - cursor < (n + 1) * Day <= 10 * Day;
    }
  }

  /** Each window but the last is ten days long and ends where the next starts. */
  lemma {:induction false} WindowsContiguous(cursor: int, end: int)
    ensures var w := Windows(cursor, end);
      forall i :: 0 <= i < |w| - 1 ==> w[i].1 == w[i + 1].0 && w[i].1 - w[i].0 == MaxWindow
    decreases end - cursor
  {
    if TimedeltaDays(end - cursor) > 9 {
      var rest := Windows(cursor + MaxWindow, end);
      WindowsContiguous(cursor + MaxWindow, end);
      WindowsFirst(cursor + MaxWindow, end);
      var w := Windows(cursor, end);
      forall i | 0 <= i < |w| - 1 ensures w[i].1 == w[i + 1].0 && w[i].1 - w[i].0 == MaxWindow {
        assert w[i + 1] == rest[i];
        if i > 0 {
          assert w[i] == rest[i - 1];
        }
      }
    }
  }

  /**
   * The windows are contiguous from `cursor`, each at least a day and at most ten days long,
   * every one but the last exactly ten; there are none exactly when less than a day remains,
   * and the last ends less than a day before `end`.
   */
  lemma WindowsSpec(cursor: int, end: int)
    ensures var w := Windows(cursor, end);
      && (w == [] <==> end - cursor < Day)
      && (w != [] ==> w[0].0 == cursor && end - Day < w[|w| - 1].1 <= end)
      && (forall i :: 0 <= i < |w| ==> Day <= w[i].1 - w[i].0 <= MaxWindow)
      && (forall i :: 0 <= i < |w| - 1 ==> w[i].1 == w[i + 1].0 && w[i].1 - w[i].0 == MaxWindow)
  {
    WindowsFirst(cursor, end);
    if end - cursor >= Day {
      WindowsLast(cursor, end);
    }
    WindowsLengths(cursor, end);
    WindowsContiguous(cursor, end);
  }

  /**
   * For a whole number `n` of days the windows tile `[cursor, end]` exactly, and there are
   * `ceil(n / 10)` of them.
   */
  lemma {:induction false} WindowsWholeDays(cursor: int, end: int, n: nat)
    requires end - cursor == n * Day
    ensures var w := Windows(cursor, end);
      && |w| == (n + 9) / 10
      && (w != [] ==> w[|w| - 1].1 == end)
    decreases n
  {
    assert TimedeltaDays(end - cursor) == n;
    if n > 9 {
      WindowsWholeDays(cursor + MaxWindow, end, n - 10);
    }
  }

  // ---- _parse_request ----

  /** A parsed JSON value; objects keep their keys in order. */
  datatype Json = Str(s: string) | Scalar(text: string) | Arr(items: seq<Json>) | Obj(fields: seq<(string, Json)>)

  /** `json.loads`: the value, or the exception raised. */
  type Loads = string -> Result<Json>

  /** `obj[k]`. */
  function Get(fields: seq<(string, Json)>, k: string): Option<Json>
    decreases |fields|
  {
    if fields == [] then None
    else if fields[0].0 == k then Some(fields[0].1)
    else Get(fields[1..], k)
  }

  /** `del obj[k]`. */
  function Without(fields: seq<(string, Json)>, k: string): (r: seq<(string, Json)>)
    decreases |fields|
  {
    if fields == [] then []
    else if fields[0].0 == k then Without(fields[1..], k)
    else [fields[0]] + Without(fields[1..], k)
  }

  /** After `del obj[k]` there is no `k`, and every other entry is still there. */
  lemma {:induction false} WithoutSpec(fields: seq<(string, Json)>, k: string)
    ensures Get(Without(fields, k), k) == None
    ensures forall j :: j != k ==> Get(Without(fields, k), j) == Get(fields, j)
    decreases |fields|
  {
    if fields != [] {
      WithoutSpec(fields[1..], k);
    }
  }

  /**
   * `_parse_request` on the loaded answer: the value of its first key, without `name` and
   * `metadata`; its `hours`, or the whole value in a one-element list for `currentWeather`.
   * `next(iter(data))` raises `StopIteration` on an empty object, list or string; a scalar
   * cannot be iterated, and a non-empty list or string cannot be indexed by its first item.
   */
  function ParseRequest(doc: Json): Result<seq<Json>> {
    if (doc.Obj? && doc.fields == []) || (doc.Arr? && doc.items == []) || (doc.Str? && doc.s == "") then
      Err("StopIteration")
    else if !doc.Obj? then Err("TypeError")
    else
      var service := doc.fields[0].0;
      var data := doc.fields[0].1;
      if !data.Obj? then Err("TypeError")
      else if Get(data.fields, "name").None? then Err("KeyError: 'name'")
      else if Get(data.fields, "metadata").None? then Err("KeyError: 'metadata'")
      else
        var rest := Without(Without(data.fields, "name"), "metadata");
        if service == CurrentWeather then Ok([Obj(rest)])
        else
          var hours := Get(rest, "hours");
          if hours.None? then Err("KeyError: 'hours'")
          else if !hours.value.Arr? then Err("TypeError")
          else Ok(hours.value.items)
  }

  /**
   * The answer is parsed when its first value is an object with `name` and `metadata` (and
   * `hours`, a list, unless it is `currentWeather`): a `currentWeather` answer is that object
   * with no `name` and no `metadata` left and every other entry kept, any other the list of hours.
   */
  lemma ParseRequestSpec(doc: Json)
    ensures var r := ParseRequest(doc);
      && (r.Ok? <==>
            doc.Obj? && doc.fields != [] && doc.fields[0].1.Obj?
            && Get(doc.fields[0].1.fields, "name").Some? && Get(doc.fields[0].1.fields, "metadata").Some?
            && (doc.fields[0].0 != CurrentWeather ==>
                  var hours := Get(doc.fields[0].1.fields, "hours");
                  hours.Some? && hours.value.Arr?))
      && (r.Ok? && doc.fields[0].0 == CurrentWeather ==>
            && |r.value| == 1 && r.value[0].Obj?
            && Get(r.value[0].fields, "name") == None && Get(r.value[0].fields, "metadata") == None
            && forall j :: j != "name" && j != "metadata" ==> Get(r.value[0].fields, j) == Get(doc.fields[0].1.fields, j))
      && (r.Ok? && doc.fields[0].0 != CurrentWeather ==>
            r.value == Get(doc.fields[0].1.fields, "hours").value.items)
      && (r == Err("StopIteration") <==>
            (doc.Obj? && doc.fields == []) || (doc.Arr? && doc.items == []) || (doc.Str? && doc.s == ""))
      && (!doc.Obj? ==> r.Err?)
  {
    if doc.Obj? && doc.fields != [] && doc.fields[0].1.Obj? {
      var data := doc.fields[0].1.fields;
      var once := Without(data, "name");
      WithoutSpec(data, "name");
      WithoutSpec(once, "metadata");
    }
  }

  // ---- forecastStart / asOf ----

  /** A value of a returned record: as loaded, or parsed to a naive datetime (its reading). */
  datatype Cell = Raw(j: Json) | When(wall: int)

  /** The keys whose values are parsed. */
  predicate IsTimeKey(k: string) { k == "forecastStart" || k == "asOf" }

  /** One entry of `d.update(...)`: a time key's value parsed, any other kept. */
  function ConvertField(f: (string, Json)): Result<(string, Cell)> {
    if !IsTimeKey(f.0) then Ok((f.0, Raw(f.1)))
    else if !f.1.Str? then Err("TypeError")
    else
      var t := ParseApi(f.1.s);
      if t.None? then Err("ValueError") else Ok((f.0, When(t.value)))
  }

  /** `d.update((k, _api_to_datetime(v)) for k, v in d.items() if ...)` on one record. */
  function ConvertRecord(fields: seq<(string, Json)>): Result<seq<(string, Cell)>>
    decreases |fields|
  {
    if fields == [] then Ok([])
    else
      var f := ConvertField(fields[0]);
      var rest := ConvertRecord(fields[1..]);
      if f.Err? then Err(f.error) else if rest.Err? then Err(rest.error) else Ok([f.value] + rest.value)
  }

  /**
   * Converting a record keeps its keys in order and its other values as they are; a time key
   * written by `_datetime_to_api(d)` comes back as `d`.
   */
  lemma {:induction false} ConvertRecordSpec(fields: seq<(string, Json)>)
    ensures var r := ConvertRecord(fields);
      && (r.Ok? <==> forall i :: 0 <= i < |fields| ==> ConvertField(fields[i]).Ok?)
      && (r.Ok? ==> |r.value| == |fields|
                    && forall i :: 0 <= i < |fields| ==> r.value[i] == ConvertField(fields[i]).value)
    decreases |fields|
  {
    if fields != [] {
      ConvertRecordSpec(fields[1..]);
      assert forall i :: 1 <= i < |fields| ==> fields[i] == fields[1..][i - 1];
    }
  }

  /** A time key written by the API format comes back as the reading it was written from; other keys are kept. */
  lemma ConvertFieldSpec(k: string, v: Json, t: int)
    requires InDatetimeRange(t)
    ensures IsTimeKey(k) ==> ConvertField((k, Str(ApiString(t)))) == Ok((k, When(t)))
    ensures !IsTimeKey(k) ==> ConvertField((k, v)) == Ok((k, Raw(v)))
  {
    ApiRoundTrip(t);
  }

  /** The record after the update; anything but an object has no `items` to update. */
  function ConvertEntry(d: Json): Result<seq<(string, Cell)>> {
    if d.Obj? then ConvertRecord(d.fields) else Err("AttributeError: 'items'")
  }

  /** The `for d in data_list` loop: each record converted after those in `acc`; the first that raises ends it. */
  function ConvertAll(acc: seq<seq<(string, Cell)>>, data: seq<Json>): Result<seq<seq<(string, Cell)>>>
    decreases |data|
  {
    if data == [] then Ok(acc)
    else
      var d := ConvertEntry(data[0]);
      if d.Err? then Err(d.error) else ConvertAll(acc + [d.value], data[1..])
  }

  /** The loop succeeds exactly when every record converts, and then holds their conversions in order. */
  lemma {:induction false} ConvertAllSpec(acc: seq<seq<(string, Cell)>>, data: seq<Json>)
    ensures var r := ConvertAll(acc, data);
      && (r.Ok? <==> forall i :: 0 <= i < |data| ==> ConvertEntry(data[i]).Ok?)
      && (r.Ok? ==> |r.value| == |acc| + |data| && r.value[..|acc|] == acc
                    && forall i :: 0 <= i < |data| ==> r.value[|acc| + i] == ConvertEntry(data[i]).value)
    decreases |data|
  {
    if data != [] {
      var d := ConvertEntry(data[0]);
      if d.Ok? {
        ConvertAllSpec(acc + [d.value], data[1..]);
        assert forall i :: 1 <= i < |data| ==> data[i] == data[1..][i - 1];
        var r := ConvertAll(acc, data);
        if r.Ok? {
          assert r.value[..|acc| + 1] == acc + [d.value];
          assert r.value[..|acc|] == (acc + [d.value])[..|acc|];
          forall i | 1 <= i < |data| ensures r.value[|acc| + i] == ConvertEntry(data[i]).value {
            assert r.value[|acc + [d.value]| + (i - 1)] == ConvertEntry(data[1..][i - 1]).value;
          }
        }
      }
    }
  }

  // ---- _request_server ----

  /** `WEATHER + str(lat) + '/' + str(long)`. */
  function Url(lat: string, lon: string): string { Weather + lat + "/" + lon }

  /** The payload of one request. */
  function Payload(service: string, hourlyStart: string, hourlyEnd: string): seq<(string, string)> {
    [("dataSets", service), ("hourlyStart", hourlyStart), ("hourlyEnd", hourlyEnd), ("timezone", Timezone)]
  }

  /** `requests.get(url, headers=headers, params=payload)`: the response, or the exception raised. */
  type Http = (string, seq<(string, string)>) -> Result<Response>

  /** One request of a window: a status other than 200 raises, otherwise the parsed answer. */
  function Ask(http: Http, loads: Loads, lat: string, lon: string, service: string, w: (int, int)): Result<seq<Json>> {
    if !InDatetimeRange(w.0) || !InDatetimeRange(w.1) then Err("OverflowError: date value out of range")
    else
      var got := http(Url(lat, lon), Payload(service, ApiString(w.0), ApiString(w.1)));
      if got.Err? then Err(got.error)
      else if got.value.status != 200 then Err("Exception")
      else
        var doc := loads(got.value.text);
        if doc.Err? then Err(doc.error) else ParseRequest(doc.value)
  }

  /** `Ask` for one location and service. */
  function AskFor(http: Http, loads: Loads, lat: string, lon: string, service: string): ((int, int)) -> Result<seq<Json>> {
    w => Ask(http, loads, lat, lon, service, w)
  }

  /** The requests of the windows, in order, their records after `acc`; the first that raises ends the call. */
  function Collect(acc: seq<Json>, windows: seq<(int, int)>, ask: ((int, int)) -> Result<seq<Json>>): Result<seq<Json>>
    decreases |windows|
  {
    if windows == [] then Ok(acc)
    else
      var got := ask(windows[0]);
      if got.Err? then Err(got.error) else Collect(acc + got.value, windows[1..], ask)
  }

  /** 2021-08-01 00:00 on the machine's clock, `off` seconds ahead of UTC, as an instant. */
  function RetentionStart(off: int): int { RetentionDay * Day - off }

  /** Where the windows start: `day_to` for `currentWeather`, `day_from` otherwise. */
  function Cursor(service: string, from: int, to: int): int {
    if service == CurrentWeather then to else from
  }

  /**
   * `_request_server(lat, long, service, day_from, day_to)` on datetimes already parsed, on a
   * machine whose zone is `off` seconds ahead of UTC: the records of every window with their
   * times parsed.
   */
  function RequestServerSpec(ask: ((int, int)) -> Result<seq<Json>>, service: string,
                             dayFrom: PyDateTime, dayTo: PyDateTime, off: int): Result<seq<seq<(string, Cell)>>>
  {
    var from := ToTz(dayFrom, off);
    var to := ToTz(dayTo, off);
    if from < RetentionStart(off) then Err("NotImplementedError")
    else if !InDatetimeRange(to + Day) then Err("OverflowError: date value out of range")
    else
      Parsed(Collect([], Windows(Cursor(service, from, to), to + Day), ask))
  }

  /** The times of the collected records parsed, unless a request raised. */
  function Parsed(data: Result<seq<Json>>): Result<seq<seq<(string, Cell)>>> {
    if data.Err? then Err(data.error) else ConvertAll([], data.value)
  }

  /**
   * A start before 2021-08-01 raises; otherwise the windows start at the cursor and end less
   * than a day before `day_to + 1 day`, and `currentWeather` is a single one-day request.
   */
  lemma RequestServerWindows(ask: ((int, int)) -> Result<seq<Json>>, service: string,
                             dayFrom: PyDateTime, dayTo: PyDateTime, off: int)
    ensures var from := ToTz(dayFrom, off);
      var to := ToTz(dayTo, off);
      var w := Windows(Cursor(service, from, to), to + Day);
      && (from < RetentionStart(off) ==> RequestServerSpec(ask, service, dayFrom, dayTo, off) == Err("NotImplementedError"))
      && (RequestServerSpec(ask, service, dayFrom, dayTo, off).Ok? ==> from >= RetentionStart(off))
      && (service == CurrentWeather ==> w == [(to, to + Day)])
      && (w != [] ==> w[0].0 == Cursor(service, from, to) && to < w[|w| - 1].1 <= to + Day)
  {
    var from := ToTz(dayFrom, off);
    var to := ToTz(dayTo, off);
    WindowsSpec(Cursor(service, from, to), to + Day);
    if service == CurrentWeather {
      assert TimedeltaDays(to + Day - to) == 1;
    }
  }

  /**
   * The request loop succeeds exactly when every window's request does, and then holds the
   * records of every window in order after `acc`.
   */
  lemma {:induction false} CollectSpec(acc: seq<Json>, windows: seq<(int, int)>, ask: ((int, int)) -> Result<seq<Json>>)
    ensures var r := Collect(acc, windows, ask);
      && (r.Ok? <==> forall i :: 0 <= i < |windows| ==> ask(windows[i]).Ok?)
      && (r.Ok? && windows != [] ==> r == Collect(acc + ask(windows[0]).value, windows[1..], ask))
      && (r.Ok? ==> acc <= r.value)
    decreases |windows|
  {
    if windows != [] {
      var got := ask(windows[0]);
      if got.Ok? {
        CollectSpec(acc + got.value, windows[1..], ask);
        assert forall i :: 1 <= i < |windows| ==> windows[i] == windows[1..][i - 1];
      }
    }
  }

  /** The `for d in data_list` loop. */
  method ConvertTimes(data: seq<Json>) returns (r: Result<seq<seq<(string, Cell)>>>)
    ensures r == ConvertAll([], data)
  {
    var done: seq<seq<(string, Cell)>> := [];
    var i := 0;
    while i < |data|
      invariant 0 <= i <= |data|
      invariant ConvertAll([], data) == ConvertAll(done, data[i..])
    {
      assert data[i..][0] == data[i] && data[i..][1..] == data[i + 1..];
      var d := ConvertEntry(data[i]);
      if d.Err? {
        return Err(d.error);
      }
      done := done + [d.value];
      i := i + 1;
    }
    assert data[i..] == [];
    r := Ok(done);
  }

  /**
   * The request part of `_request_server`: the ten-day requests while more than nine whole
   * days remain, then the last request when at least one whole day remains.
   */
  method CollectWindows(ask: ((int, int)) -> Result<seq<Json>>, cursor: int, end: int) returns (r: Result<seq<Json>>)
    ensures r == Collect([], Windows(cursor, end), ask)
  {
    var dayAux := cursor;
    var dataList: seq<Json> := [];
    while TimedeltaDays(end - dayAux) > 9
      invariant Collect([], Windows(cursor, end), ask) == Collect(dataList, Windows(dayAux, end), ask)
      decreases end - dayAux
    {
      var w := (dayAux, dayAux + MaxWindow);
      ghost var rest := Windows(dayAux + MaxWindow, end);
      assert Windows(dayAux, end) == [w] + rest;
      assert ([w] + rest)[0] == w && ([w] + rest)[1..] == rest;
      dayAux := dayAux + MaxWindow;
      var answer := ask(w);
      if answer.Err? {
        return Err(answer.error);
      }
      dataList := dataList + answer.value;
    }
    if TimedeltaDays(end - dayAux) >= 1 {
      var answer := ask((dayAux, end));
      assert Windows(dayAux, end) == [(dayAux, end)];
      assert [(dayAux, end)][1..] == [];
      if answer.Err? {
        return Err(answer.error);
      }
      dataList := dataList + answer.value;
    } else {
      assert Windows(dayAux, end) == [];
    }
    r := Ok(dataList);
  }

  /** `_request_server` with the request of one window given: the checks, the requests, then the times parsed. */
  method Requests(ask: ((int, int)) -> Result<seq<Json>>, service: string, dayFrom: PyDateTime, dayTo: PyDateTime, off: int)
    returns (r: Result<seq<seq<(string, Cell)>>>)
    ensures r == RequestServerSpec(ask, service, dayFrom, dayTo, off)
  {
    var from := ToTz(dayFrom, off);
    var to := ToTz(dayTo, off);
    if from < RetentionStart(off) {
      return Err("NotImplementedError");
    }
    var dayAux := if service == CurrentWeather then to else from;
    if !InDatetimeRange(to + Day) {
      return Err("OverflowError: date value out of range");
    }
    var dataList := CollectWindows(ask, dayAux, to + Day);
    assert RequestServerSpec(ask, service, dayFrom, dayTo, off) == Parsed(dataList);
    if dataList.Err? {
      return Err(dataList.error);
    }
    r := ConvertTimes(dataList.value);
  }

  /** `_request_server`: the requests go to the Weather API for the location and service. */
  method RequestServer(http: Http, loads: Loads, lat: string, lon: string, service: string,
                       dayFrom: PyDateTime, dayTo: PyDateTime, off: int) returns (r: Result<seq<seq<(string, Cell)>>>)
    ensures r == RequestServerSpec(AskFor(http, loads, lat, lon, service), service, dayFrom, dayTo, off)
  {
    r := Requests(AskFor(http, loads, lat, lon, service), service, dayFrom, dayTo, off);
  }
}
