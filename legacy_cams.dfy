/**
 * The older CAMS provider (`beemeteo.sources.cams.CAMS`): `_get_data` runs the shared day
 * loop with `_get_data_day`, which asks the SODA service for the day `[day, day + 1 day - 1 s]`
 * with the first registered mail. Its `_request`, `_request_server` and `_parse_request` are
 * those of the `Soda` module.
 */
module LegacyCams {
  import opened Wrappers
  import opened Calendar
  import opened Records
  import opened LegacyDays
  import Soda

  /**
   * `_to_tz(day, timezone)` and `_to_tz(day + 1 day - 1 s, timezone)` of a naive `day`: both
   * localized, so their wall-clock readings are those of the day's first and last second.
   */
  function Window(day: int): (int, int) {
    (day, day + Day - 1)
  }

  /** A parsed CSV answer as a frame: it always has the header's columns. */
  function Framed(answer: Option<seq<Record>>): Option<DayFrame> {
    if answer.None? then None else Some(WithColumns(answer.value))
  }

  /**
   * `_get_data_day`: the `_request` of the first mail. `_request` never raises, so the loop
   * over the mails returns on its first turn; with no mail it gives `None`.
   */
  function DataDay(http: Soda.Http, csv: Soda.Csv, mails: seq<string>, lat: string, lon: string, day: int)
    : Option<DayFrame>
  {
    if mails == [] then None
    else Framed(Soda.FirstAnswer(Soda.Servers, http, csv, mails[0], lat, lon, Window(day).0, Window(day).1))
  }

  /**
   * Only the first mail is ever used, and the day has data exactly when one of the two
   * servers answers for it.
   */
  lemma DataDaySpec(http: Soda.Http, csv: Soda.Csv, mails: seq<string>, lat: string, lon: string, day: int)
    ensures mails != [] ==> DataDay(http, csv, mails, lat, lon, day) == DataDay(http, csv, [mails[0]], lat, lon, day)
    ensures mails == [] ==> DataDay(http, csv, mails, lat, lon, day) == None
    ensures mails != [] ==>
      var ask := Soda.AskServer(http, csv, mails[0], lat, lon, day, day + Day - 1);
      (DataDay(http, csv, mails, lat, lon, day).Some? <==> ask(Soda.Service).Ok? || ask(Soda.MirrorService).Ok?)
  {
    if mails != [] {
      var ask := Soda.AskServer(http, csv, mails[0], lat, lon, day, day + Day - 1);
      Soda.FirstAnswerSpec(Soda.Servers, http, csv, mails[0], lat, lon, day, day + Day - 1);
      assert Soda.Servers[0] == Soda.Service && Soda.Servers[1] == Soda.MirrorService;
    }
  }

  /** A day that starts at midnight asks for one date: its first and last second fall on the same date. */
  lemma WindowOneDate(day: int)
    requires day % Day == 0 && InDatetimeRange(day)
    ensures InDatetimeRange(day + Day - 1) && DateString(day) == DateString(day + Day - 1)
  {
    assert (day + Day - 1) / Day == day / Day;
    assert ToCivil(day + Day - 1).date == ToCivil(day).date;
  }

  /**
   * `_get_data_day`: the loop over the mails returns the first mail's `_request` answer;
   * as `_request` never raises, the loop body runs at most once and is written as an `if`.
   */
  method GetDataDay(http: Soda.Http, csv: Soda.Csv, mails: seq<string>, lat: string, lon: string, day: int)
    returns (r: Option<DayFrame>)
    ensures r == DataDay(http, csv, mails, lat, lon, day)
  {
    var (dateBegin, dateEnd) := Window(day);
    if mails != [] {
      var answer := Soda.Request(http, csv, mails[0], lat, lon, dateBegin, dateEnd);
      r := Framed(answer);
    } else {
      r := None;
    }
  }

  /** `_get_data_day` for one location and list of mails. */
  function DayFor(http: Soda.Http, csv: Soda.Csv, mails: seq<string>, lat: string, lon: string): int -> Daily {
    day => Ok(DataDay(http, csv, mails, lat, lon, day))
  }

  /** `_get_data`: the shared day loop with this provider's day download. */
  method GetData(http: Soda.Http, csv: Soda.Csv, mails: seq<string>, cached: int -> nat, lat: string, lon: string,
                 dateFrom: int, dateTo: int) returns (r: Result<Option<DayFrame>>)
    ensures r == Fill(None, Days(dateFrom, dateTo), cached, DayFor(http, csv, mails, lat, lon))
  {
    r := LegacyDays.GetData(cached, DayFor(http, csv, mails, lat, lon), dateFrom, dateTo);
  }

  /**
   * The result is `None` exactly when every day with fewer than 24 cached rows got no answer
   * (in particular when there is no such day); when every such day got one, it is a frame
   * with their records in day order.
   */
  lemma GetDataSpec(http: Soda.Http, csv: Soda.Csv, mails: seq<string>, cached: int -> nat, lat: string, lon: string,
                    dateFrom: int, dateTo: int)
    ensures var need := Needed(Days(dateFrom, dateTo), cached);
      var fetch := DayFor(http, csv, mails, lat, lon);
      var r := Fill(None, Days(dateFrom, dateTo), cached, fetch);
      && (r == Ok(None) <==> forall i :: 0 <= i < |need| ==> DataDay(http, csv, mails, lat, lon, need[i]).None?)
      && ((forall i :: 0 <= i < |need| ==> DataDay(http, csv, mails, lat, lon, need[i]).Some?) && need != [] ==>
            AllColumns(need, fetch) && r == Ok(Some(WithColumns(Downloads(need, fetch)))))
  {
    var need := Needed(Days(dateFrom, dateTo), cached);
    var fetch := DayFor(http, csv, mails, lat, lon);
    LegacyDays.GetDataSpec(dateFrom, dateTo, cached, fetch);
    GatherNone(need, fetch);
    assert forall i :: 0 <= i < |need| ==> (fetch(need[i]) == Ok(None) <==> DataDay(http, csv, mails, lat, lon, need[i]).None?);
  }
}
