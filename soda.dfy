/**
 * The SODA web-service client that both CAMS classes carry (`_request_server`, `_request`,
 * `_parse_request`): the query string of a `get_cams_radiation` call, the fallback from the
 * main server to the mirror, and the CSV part of the answer. The two classes differ only in
 * the datetimes they hand over, so each passes the wall-clock reading that `strftime` formats.
 */
module Soda {
  import opened Wrappers
  import opened Text
  import opened Calendar
  import opened Records
  import opened Web

  const Version := "1.0.0"
  const Service := "http://www.soda-is.com/service/wps"
  const MirrorService := "http://pro.soda-is.com/service/wps"

  /** The servers `_request` tries, in order. */
  const Servers: seq<string> := [Service, MirrorService]

  /** The keyword defaults of `_request`. */
  const DefaultAltitude := -999
  const DefaultTimeRef := "UT"
  const DefaultSummarization := "PT01H"

  /** `requests.get(server, params=params)`: the response, or the exception it raises. */
  type Http = (string, string) -> Result<Response>

  /**
   * `pd.read_csv(StringIO(text), delimiter=";")` followed by the conversion of the
   * `" Observation period"` column to UTC instants: the records, or the exception raised.
   */
  type Csv = string -> Result<seq<Record>>

  // ---- the query string ----

  /**
   * `strftime(d, "%Y-%m-%d %H:%M:%S")[:10]` of a datetime whose wall-clock reading is
   * `wall` epoch seconds; outside the years 1 to 9999 no such datetime exists.
   */
  function DatePart(wall: int): Result<string> {
    if InDatetimeRange(wall) then
      DateTimeStringPrefix(wall);
      Ok(DateTimeString(wall)[..10])
    else Err("OverflowError: date value out of range")
  }

  /** The date part is the `YYYY-MM-DD` date of the wall-clock reading. */
  lemma DatePartSpec(wall: int)
    ensures DatePart(wall).Ok? <==> InDatetimeRange(wall)
    ensures InDatetimeRange(wall) ==> DatePart(wall) == Ok(DateString(wall)) && |DateString(wall)| == 10
  {
    if InDatetimeRange(wall) {
      DateTimeStringPrefix(wall);
    }
  }

  /** The eight `name=value` fields of the `DataInputs` template, in its order. */
  function Fields(lat: string, lon: string, altitude: string, dateBegin: string, dateEnd: string,
                  timeRef: string, summarization: string, username: string): (r: seq<string>)
    ensures |r| == 8
  {
    ["latitude=" + lat, "longitude=" + lon, "altitude=" + altitude, "date_begin=" + dateBegin,
     "date_end=" + dateEnd, "time_ref=" + timeRef, "summarization=" + summarization, "username=" + username]
  }

  /**
   * The `DataInputs` value: the template `latitude={};longitude={};…;username={}` filled in,
   * that is its fields joined by `;`; every `@` of the user name is sent as `%2540`.
   */
  function DataInputs(lat: string, lon: string, altitude: int, dateBegin: string, dateEnd: string,
                      timeRef: string, summarization: string, username: string): string {
    Join(Fields(lat, lon, IntToString(altitude), dateBegin, dateEnd, timeRef, summarization,
                ReplaceChar(username, '@', "%2540")), ';')
  }

  /** The payload dictionary, in insertion order. */
  function Payload(lat: string, lon: string, altitude: int, dateBegin: string, dateEnd: string,
                   timeRef: string, summarization: string, username: string): seq<(string, string)> {
    [("Service", "WPS"), ("Request", "Execute"), ("Identifier", "get_cams_radiation"), ("version", Version),
     ("DataInputs", DataInputs(lat, lon, altitude, dateBegin, dateEnd, timeRef, summarization, username)),
     ("RawDataOutput", "irradiation")]
  }

  /** `"%s=%s" % (k, v)` for each entry. */
  function Pairs(payload: seq<(string, string)>): (r: seq<string>)
    ensures |r| == |payload| && forall i :: 0 <= i < |payload| ==> r[i] == payload[i].0 + "=" + payload[i].1
  {
    seq(|payload|, i requires 0 <= i < |payload| => payload[i].0 + "=" + payload[i].1)
  }

  /** `"&".join(...)` of the pairs. */
  function Params(payload: seq<(string, string)>): string {
    Join(Pairs(payload), '&')
  }

  /** A query string whose keys and values hold no `&` splits back into its `k=v` pairs, in order. */
  lemma ParamsSplit(payload: seq<(string, string)>)
    requires |payload| >= 1
    requires forall i :: 0 <= i < |payload| ==> '&' !in payload[i].0 && '&' !in payload[i].1
    ensures Split(Params(payload), '&') == Pairs(payload)
  {
    var ps := Pairs(payload);
    forall k | 0 <= k < |ps| ensures '&' !in ps[k] {
      assert ps[k] == payload[k].0 + "=" + payload[k].1;
    }
    SplitJoin(ps, '&');
  }

  /**
   * The sent user name holds no `@`, and a name without one is sent as it is. When no value
   * holds a `;`, the `DataInputs` value splits at `;` into its eight `name=value` fields, in
   * order, carrying the location, the altitude, the two dates as given and the sent name.
   */
  lemma DataInputsSpec(lat: string, lon: string, altitude: int, dateBegin: string, dateEnd: string,
                       timeRef: string, summarization: string, username: string)
    ensures var sent := ReplaceChar(username, '@', "%2540");
      && '@' !in sent
      && ('@' !in username ==> sent == username)
      && (';' !in lat && ';' !in lon && ';' !in dateBegin && ';' !in dateEnd && ';' !in timeRef
          && ';' !in summarization && ';' !in username ==>
            Split(DataInputs(lat, lon, altitude, dateBegin, dateEnd, timeRef, summarization, username), ';')
            == Fields(lat, lon, IntToString(altitude), dateBegin, dateEnd, timeRef, summarization, sent))
  {
    ReplaceCharSpec(username, '@', "%2540");
    if ';' !in lat && ';' !in lon && ';' !in dateBegin && ';' !in dateEnd && ';' !in timeRef
       && ';' !in summarization && ';' !in username {
      DataInputsFields(lat, lon, altitude, dateBegin, dateEnd, timeRef, summarization, username);
    }
  }

  /** A `name=value` field holds no `;` when neither part does. */
  lemma FieldNoSemicolon(name: string, value: string)
    requires ';' !in name && ';' !in value
    ensures ';' !in name + value
  {
    forall i | 0 <= i < |name + value| ensures (name + value)[i] != ';' {
      if i >= |name| { assert (name + value)[i] == value[i - |name|]; }
    }
  }

  /** `str(i)` holds no `;`. */
  lemma NoSemicolonInInt(i: int)
    ensures ';' !in IntToString(i)
  {
    if i < 0 {
      var d := Digits(-i);
      assert IntToString(i) == "-" + d;
      forall k | 0 <= k < |d| + 1 ensures IntToString(i)[k] != ';' {
        if k > 0 { assert IntToString(i)[k] == d[k - 1]; }
      }
    }
  }

  /** The `;`-split of `DataInputs` when no value holds a `;`. */
  lemma DataInputsFields(lat: string, lon: string, altitude: int, dateBegin: string, dateEnd: string,
                         timeRef: string, summarization: string, username: string)
    requires ';' !in lat && ';' !in lon && ';' !in dateBegin && ';' !in dateEnd && ';' !in timeRef
    requires ';' !in summarization && ';' !in username
    ensures Split(DataInputs(lat, lon, altitude, dateBegin, dateEnd, timeRef, summarization, username), ';')
         == Fields(lat, lon, IntToString(altitude), dateBegin, dateEnd, timeRef, summarization,
                   ReplaceChar(username, '@', "%2540"))
  {
    SentValues(username, altitude);
    FieldsSplit(lat, lon, IntToString(altitude), dateBegin, dateEnd, timeRef, summarization,
                ReplaceChar(username, '@', "%2540"));
  }

  /** The sent user name and altitude hold no `;` when the user name holds none. */
  lemma SentValues(username: string, altitude: int)
    requires ';' !in username
    ensures ';' !in ReplaceChar(username, '@', "%2540") && ';' !in IntToString(altitude)
  {
    ReplaceCharAbsent(username, '@', "%2540", ';');
    NoSemicolonInInt(altitude);
  }

  /** The eight fields, filled with values free of `;`, split back out of their join. */
  lemma FieldsSplit(a: string, b: string, c: string, d: string, e: string, f: string, g: string, h: string)
    requires ';' !in a && ';' !in b && ';' !in c && ';' !in d && ';' !in e && ';' !in f && ';' !in g && ';' !in h
    ensures Split(Join(Fields(a, b, c, d, e, f, g, h), ';'), ';') == Fields(a, b, c, d, e, f, g, h)
  {
    FieldNoSemicolon("latitude=", a);
    FieldNoSemicolon("longitude=", b);
    FieldNoSemicolon("altitude=", c);
    FieldNoSemicolon("date_begin=", d);
    FieldNoSemicolon("date_end=", e);
    FieldNoSemicolon("time_ref=", f);
    FieldNoSemicolon("summarization=", g);
    FieldNoSemicolon("username=", h);
    SplitJoin(Fields(a, b, c, d, e, f, g, h), ';');
  }

  /** The query string splits back into the six payload pairs, `DataInputs` fifth. */
  lemma ParamsOfPayload(lat: string, lon: string, altitude: int, dateBegin: string, dateEnd: string,
                        timeRef: string, summarization: string, username: string)
    requires '&' !in DataInputs(lat, lon, altitude, dateBegin, dateEnd, timeRef, summarization, username)
    ensures var p := Payload(lat, lon, altitude, dateBegin, dateEnd, timeRef, summarization, username);
      && Split(Params(p), '&') == Pairs(p)
      && |Pairs(p)| == 6
      && Pairs(p)[4] == "DataInputs=" + DataInputs(lat, lon, altitude, dateBegin, dateEnd, timeRef, summarization, username)
  {
    var p := Payload(lat, lon, altitude, dateBegin, dateEnd, timeRef, summarization, username);
    ParamsSplit(p);
  }

  // ---- one server, then the mirror ----

  /** `_parse_request`: only the text after the last `#` is read as CSV. */
  function ParseRequest(csv: Csv, text: string): Result<seq<Record>> {
    csv(AfterLast(text, '#'))
  }

  /** The `#`-prefixed header of an answer is never parsed; an answer without `#` is parsed whole. */
  lemma ParseRequestSpec(csv: Csv, header: string, body: string)
    requires '#' !in body
    ensures ParseRequest(csv, header + "#" + body) == csv(body)
    ensures ParseRequest(csv, body) == csv(body)
  {
    AfterLastAppend(header, body, '#');
    assert header + "#" + body == header + ['#'] + body;
    AfterLastSpec(body, '#');
  }

  /**
   * `_request_server`: the GET of the payload's query string; a status other than 200
   * raises, otherwise the parsed answer. `beginWall` and `endWall` are the wall-clock
   * readings of the two datetimes.
   */
  function RequestServer(http: Http, csv: Csv, server: string, username: string, lat: string, lon: string,
                         beginWall: int, endWall: int, altitude: int, timeRef: string, summarization: string)
    : Result<seq<Record>>
  {
    var dateBegin := DatePart(beginWall);
    var dateEnd := DatePart(endWall);
    if dateBegin.Err? then Err(dateBegin.error)
    else if dateEnd.Err? then Err(dateEnd.error)
    else
      var params := Params(Payload(lat, lon, altitude, dateBegin.value, dateEnd.value, timeRef, summarization, username));
      var got := http(server, params);
      if got.Err? then Err(got.error)
      else if got.value.status != 200 then Err("Exception")
      else ParseRequest(csv, got.value.text)
  }

  /**
   * A server that answers 200 has its text parsed; any other status, a datetime outside the
   * years 1 to 9999, or a raising GET makes the request raise.
   */
  lemma RequestServerSpec(http: Http, csv: Csv, server: string, username: string, lat: string, lon: string,
                          beginWall: int, endWall: int, altitude: int, timeRef: string, summarization: string)
    ensures var r := RequestServer(http, csv, server, username, lat, lon, beginWall, endWall, altitude, timeRef, summarization);
      && (!InDatetimeRange(beginWall) || !InDatetimeRange(endWall) ==> r.Err?)
      && (InDatetimeRange(beginWall) && InDatetimeRange(endWall) ==>
            var got := http(server, Params(Payload(lat, lon, altitude, DateString(beginWall), DateString(endWall),
                                                   timeRef, summarization, username)));
            && (got.Err? ==> r == Err(got.error))
            && (got.Ok? && got.value.status != 200 ==> r.Err?)
            && (got.Ok? && got.value.status == 200 ==> r == csv(AfterLast(got.value.text, '#'))))
  {
    DatePartSpec(beginWall);
    DatePartSpec(endWall);
  }

  /** `_request_server` on one server with the default keywords. */
  function AskServer(http: Http, csv: Csv, username: string, lat: string, lon: string, beginWall: int, endWall: int)
    : string -> Result<seq<Record>>
  {
    server => RequestServer(http, csv, server, username, lat, lon, beginWall, endWall,
                            DefaultAltitude, DefaultTimeRef, DefaultSummarization)
  }

  /** The answer of the first server in `servers` that does not raise, or `None`. */
  function FirstAnswer(servers: seq<string>, http: Http, csv: Csv, username: string, lat: string, lon: string,
                       beginWall: int, endWall: int): Option<seq<Record>>
  {
    FirstOk(servers, AskServer(http, csv, username, lat, lon, beginWall, endWall))
  }

  /**
   * There is an answer exactly when some server answers, and it is the answer of a server
   * that every earlier server failed before.
   */
  lemma FirstAnswerSpec(servers: seq<string>, http: Http, csv: Csv, username: string,
                        lat: string, lon: string, beginWall: int, endWall: int)
    ensures var r := FirstAnswer(servers, http, csv, username, lat, lon, beginWall, endWall);
      var ask := AskServer(http, csv, username, lat, lon, beginWall, endWall);
      && (r.Some? <==> exists k :: 0 <= k < |servers| && ask(servers[k]).Ok?)
      && (r.Some? ==> exists k :: 0 <= k < |servers| && ask(servers[k]) == Ok(r.value)
                                 && forall j :: 0 <= j < k ==> ask(servers[j]).Err?)
  {
    FirstOkSpec(servers, AskServer(http, csv, username, lat, lon, beginWall, endWall));
  }

  /**
   * `_request`: the servers in order, returning the first answer; a server that raises is
   * passed over, and when both raise the result is `None`.
   */
  method Request(http: Http, csv: Csv, username: string, lat: string, lon: string, beginWall: int, endWall: int)
    returns (r: Option<seq<Record>>)
    ensures r == FirstAnswer(Servers, http, csv, username, lat, lon, beginWall, endWall)
  {
    var k := 0;
    while k < |Servers|
      invariant 0 <= k <= |Servers|
      invariant FirstAnswer(Servers, http, csv, username, lat, lon, beginWall, endWall)
             == FirstAnswer(Servers[k..], http, csv, username, lat, lon, beginWall, endWall)
    {
      var answer := RequestServer(http, csv, Servers[k], username, lat, lon, beginWall, endWall,
                                  DefaultAltitude, DefaultTimeRef, DefaultSummarization);
      assert answer == AskServer(http, csv, username, lat, lon, beginWall, endWall)(Servers[k]);
      assert Servers[k..][0] == Servers[k] && Servers[k..][1..] == Servers[k + 1..];
      if answer.Ok? {
        return Some(answer.value);
      }
      k := k + 1;
    }
    return None;
  }
}
