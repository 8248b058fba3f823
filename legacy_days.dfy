/**
 * The day loop that the older `DarkSky._get_data` and `CAMS._get_data` share: the days from
 * `date_from` through the day before `date_to`, each downloaded only when the cache holds
 * fewer than 24 rows for it, the downloads merged in day order. The cache read and the day
 * download are given as functions of the day.
 */
module LegacyDays {
  import opened Wrappers
  import opened Calendar
  import opened Records

  /** The rows of a complete day. */
  const FullDay := 24

  /**
   * A day's pandas frame: `Columnless` is a frame without columns, as
   * `DataFrame.from_dict([])` builds; `WithColumns` holds its records.
   */
  datatype DayFrame = Columnless | WithColumns(records: seq<Record>)

  /** What a day download gives: a frame, `None`, or the exception raised. */
  type Daily = Result<Option<DayFrame>>

  // ---- the days ----

  /** `pd.date_range(date_from, date_to - timedelta(days=1), freq="d")` on wall-clock readings. */
  function Days(dateFrom: int, dateTo: int): seq<int> {
    DayRange(dateFrom, dateTo - Day)
  }

  /**
   * The days are `date_from` plus every whole number of days that still ends by `date_to`,
   * in order: `date_to`'s own day is never among them.
   */
  lemma DaysSpec(dateFrom: int, dateTo: int)
    ensures var d := Days(dateFrom, dateTo);
      && |d| == (if dateTo - dateFrom >= Day then (dateTo - dateFrom) / Day else 0)
      && (forall k :: 0 <= k < |d| ==> d[k] == dateFrom + k * Day && d[k] + Day <= dateTo)
  {
    DayRangeSpec(dateFrom, dateTo - Day);
    var d := Days(dateFrom, dateTo);
    if dateTo - dateFrom >= Day {
      assert (dateTo - Day - dateFrom) / Day + 1 == (dateTo - dateFrom) / Day;
      forall k | 0 <= k < |d| ensures d[k] + Day <= dateTo {
        assert k * Day <= (dateTo - dateFrom) / Day * Day - Day;
      }
    }
  }

  // ---- merging ----

  /**
   * `pd.merge(data, daily_data, how="outer") if data is not None else daily_data`. Merging
   * with `None` raises `TypeError`; with no `on`, the merge joins on the shared columns, so a
   * frame without columns raises `MergeError`. Two frames with columns share `time`, and the
   * records of different days differ in it, so the outer merge keeps both days' records.
   */
  function Merge(data: Option<DayFrame>, daily: Option<DayFrame>): Result<Option<DayFrame>> {
    if data.None? then Ok(daily)
    else if daily.None? then Err("TypeError")
    else if data.value.Columnless? || daily.value.Columnless? then Err("MergeError")
    else Ok(Some(WithColumns(data.value.records + daily.value.records)))
  }

  /** The records a frame holds; `None` and a frame without columns hold none. */
  function RecordsOf(data: Option<DayFrame>): seq<Record> {
    if data.Some? && data.value.WithColumns? then data.value.records else []
  }

  // ---- the loop ----

  /** The `for day in days` loop after `data`: a day with a full cache is passed over, any other downloaded and merged. */
  function Fill(data: Option<DayFrame>, days: seq<int>, cached: int -> nat, fetch: int -> Daily)
    : Result<Option<DayFrame>>
    decreases |days|
  {
    if days == [] then Ok(data)
    else if cached(days[0]) >= FullDay then Fill(data, days[1..], cached, fetch)
    else
      var daily := fetch(days[0]);
      if daily.Err? then Err(daily.error)
      else
        var merged := Merge(data, daily.value);
        if merged.Err? then Err(merged.error) else Fill(merged.value, days[1..], cached, fetch)
  }

  /** The days whose cache holds fewer than 24 rows, in order. */
  function Needed(days: seq<int>, cached: int -> nat): (r: seq<int>)
    ensures |r| <= |days|
    ensures forall d :: d in r <==> d in days && cached(d) < FullDay
    decreases |days|
  {
    if days == [] then []
    else if cached(days[0]) < FullDay then [days[0]] + Needed(days[1..], cached)
    else
      assert forall d :: d in days <==> d == days[0] || d in days[1..];
      Needed(days[1..], cached)
  }

  /** Every needed day downloaded and merged in order after `data`. */
  function Gather(data: Option<DayFrame>, need: seq<int>, fetch: int -> Daily): Result<Option<DayFrame>>
    decreases |need|
  {
    if need == [] then Ok(data)
    else
      var daily := fetch(need[0]);
      if daily.Err? then Err(daily.error)
      else
        var merged := Merge(data, daily.value);
        if merged.Err? then Err(merged.error) else Gather(merged.value, need[1..], fetch)
  }

  /** The loop downloads exactly the days with fewer than 24 cached rows, in order; the others play no part. */
  lemma {:induction false} FillNeeded(data: Option<DayFrame>, days: seq<int>, cached: int -> nat, fetch: int -> Daily)
    ensures Fill(data, days, cached, fetch) == Gather(data, Needed(days, cached), fetch)
    decreases |days|
  {
    if days != [] {
      var rest := Needed(days[1..], cached);
      if cached(days[0]) < FullDay {
        var need := Needed(days, cached);
        assert need == [days[0]] + rest;
        assert need[0] == days[0] && need[1..] == rest;
        var daily := fetch(days[0]);
        if daily.Ok? && Merge(data, daily.value).Ok? {
          FillNeeded(Merge(data, daily.value).value, days[1..], cached, fetch);
        }
      } else {
        FillNeeded(data, days[1..], cached, fetch);
      }
    }
  }

  /** Every needed day downloads to a frame. */
  predicate AllFrames(need: seq<int>, fetch: int -> Daily) {
    forall i :: 0 <= i < |need| ==> fetch(need[i]).Ok? && fetch(need[i]).value.Some?
  }

  /** Every needed day downloads to a frame with columns. */
  predicate AllColumns(need: seq<int>, fetch: int -> Daily) {
    forall i :: 0 <= i < |need| ==>
      fetch(need[i]).Ok? && fetch(need[i]).value.Some? && fetch(need[i]).value.value.WithColumns?
  }

  /** Some needed day downloads to a frame without columns. */
  predicate SomeColumnless(need: seq<int>, fetch: int -> Daily) {
    exists i :: 0 <= i < |need| &&
      fetch(need[i]).Ok? && fetch(need[i]).value.Some? && fetch(need[i]).value.value.Columnless?
  }

  /** The records of the needed days' frames, in day order. */
  function Downloads(need: seq<int>, fetch: int -> Daily): seq<Record>
    requires AllColumns(need, fetch)
    decreases |need|
  {
    if need == [] then [] else fetch(need[0]).value.value.records + Downloads(need[1..], fetch)
  }

  /** The needed days after the first keep their downloads. */
  lemma AllColumnsTail(need: seq<int>, fetch: int -> Daily)
    requires need != [] && AllColumns(need, fetch)
    ensures AllColumns(need[1..], fetch)
  {
    forall i | 0 <= i < |need[1..]|
      ensures fetch(need[1..][i]).Ok? && fetch(need[1..][i]).value.Some? && fetch(need[1..][i]).value.value.WithColumns?
    {
      assert need[1..][i] == need[i + 1];
    }
  }

  /**
   * When every needed day downloads to a frame with columns, and so does `data` if there is
   * one, the result is `None` exactly when nothing was downloaded, and otherwise a frame with
   * the records of `data` followed by those of every downloaded day.
   */
  lemma {:induction false} GatherFrames(data: Option<DayFrame>, need: seq<int>, fetch: int -> Daily)
    requires AllColumns(need, fetch)
    requires data.None? || data.value.WithColumns?
    ensures Gather(data, need, fetch)
         == Ok(if data.None? && need == [] then None else Some(WithColumns(RecordsOf(data) + Downloads(need, fetch))))
    decreases |need|
  {
    if need != [] {
      assert fetch(need[0]).Ok? && fetch(need[0]).value.Some? && fetch(need[0]).value.value.WithColumns?;
      var got := fetch(need[0]).value.value.records;
      var next := Some(WithColumns(RecordsOf(data) + got));
      assert data.None? ==> RecordsOf(data) + got == got;
      AllColumnsTail(need, fetch);
      assert Merge(data, fetch(need[0]).value) == Ok(next);
      GatherFrames(next, need[1..], fetch);
      assert RecordsOf(next) == RecordsOf(data) + got;
      assert Gather(data, need, fetch) == Gather(next, need[1..], fetch);
      assert Downloads(need, fetch) == got + Downloads(need[1..], fetch);
      assert RecordsOf(data) + got + Downloads(need[1..], fetch) == RecordsOf(data) + (got + Downloads(need[1..], fetch));
    } else {
      if data.Some? {
        assert data.value.records + [] == data.value.records;
      }
    }
  }

  /**
   * Once a frame is held and every needed day downloads to a frame, the merge raises
   * `MergeError` when the held frame has no columns and a day follows, or when some needed
   * day's frame has no columns.
   */
  lemma {:induction false} GatherMergeError(data: DayFrame, need: seq<int>, fetch: int -> Daily)
    requires AllFrames(need, fetch)
    requires (data.Columnless? && need != []) || SomeColumnless(need, fetch)
    ensures Gather(Some(data), need, fetch) == Err("MergeError")
    decreases |need|
  {
    assert need != [];
    var daily := fetch(need[0]);
    assert daily.Ok? && daily.value.Some?;
    if !data.Columnless? && !daily.value.value.Columnless? {
      var i :| 0 <= i < |need| &&
        fetch(need[i]).Ok? && fetch(need[i]).value.Some? && fetch(need[i]).value.value.Columnless?;
      assert i != 0 && need[1..][i - 1] == need[i];
      assert SomeColumnless(need[1..], fetch);
      assert AllFrames(need[1..], fetch) by {
        forall k | 0 <= k < |need[1..]| ensures fetch(need[1..][k]).Ok? && fetch(need[1..][k]).value.Some? {
          assert need[1..][k] == need[k + 1];
        }
      }
      GatherMergeError(WithColumns(data.records + daily.value.value.records), need[1..], fetch);
    }
  }

  /** Once a frame has been merged the result is never `None`. */
  lemma {:induction false} GatherKeepsFrame(data: DayFrame, need: seq<int>, fetch: int -> Daily)
    ensures Gather(Some(data), need, fetch) != Ok(None)
    decreases |need|
  {
    if need != [] {
      var daily := fetch(need[0]);
      if daily.Ok? {
        var merged := Merge(Some(data), daily.value);
        if merged.Ok? {
          GatherKeepsFrame(merged.value.value, need[1..], fetch);
        }
      }
    }
  }

  /** Starting from `None`, the result is `None` exactly when every needed day's download gave `None`. */
  lemma {:induction false} GatherNone(need: seq<int>, fetch: int -> Daily)
    ensures Gather(None, need, fetch) == Ok(None) <==> forall i :: 0 <= i < |need| ==> fetch(need[i]) == Ok(None)
    decreases |need|
  {
    if need != [] {
      var daily := fetch(need[0]);
      GatherNone(need[1..], fetch);
      assert forall i :: 1 <= i < |need| ==> need[i] == need[1..][i - 1];
      if daily.Ok? && daily.value.Some? {
        GatherKeepsFrame(daily.value.value, need[1..], fetch);
      }
    }
  }

  /**
   * `_get_data` on the days from `date_from` to `date_to`: `None` when no day needed a
   * download; one needed day gives its own frame; when every download gives a frame with
   * columns, the records of the days with fewer than 24 cached rows, in day order, and
   * nothing of the others; and with two needed days or more, a frame without columns among
   * them raises `MergeError`.
   */
  lemma GetDataSpec(dateFrom: int, dateTo: int, cached: int -> nat, fetch: int -> Daily)
    ensures var need := Needed(Days(dateFrom, dateTo), cached);
      var r := Fill(None, Days(dateFrom, dateTo), cached, fetch);
      && r == Gather(None, need, fetch)
      && (need == [] ==> r == Ok(None))
      && (|need| == 1 && fetch(need[0]).Ok? ==> r == Ok(fetch(need[0]).value))
      && (AllColumns(need, fetch) && need != [] ==> r == Ok(Some(WithColumns(Downloads(need, fetch)))))
      && (AllFrames(need, fetch) && |need| >= 2 && SomeColumnless(need, fetch) ==> r == Err("MergeError"))
  {
    var need := Needed(Days(dateFrom, dateTo), cached);
    FillNeeded(None, Days(dateFrom, dateTo), cached, fetch);
    if AllColumns(need, fetch) {
      GatherFrames(None, need, fetch);
      assert RecordsOf(None) + Downloads(need, fetch) == Downloads(need, fetch);
    }
    if AllFrames(need, fetch) && |need| >= 2 && SomeColumnless(need, fetch) {
      GatherFromNoneMergeError(need, fetch);
    }
  }

  /** From `None`, two needed days or more, one of them without columns, raise `MergeError`. */
  lemma GatherFromNoneMergeError(need: seq<int>, fetch: int -> Daily)
    requires AllFrames(need, fetch) && |need| >= 2 && SomeColumnless(need, fetch)
    ensures Gather(None, need, fetch) == Err("MergeError")
  {
    var first := fetch(need[0]).value.value;
    assert Gather(None, need, fetch) == Gather(Some(first), need[1..], fetch);
    assert AllFrames(need[1..], fetch) by {
      forall k | 0 <= k < |need[1..]| ensures fetch(need[1..][k]).Ok? && fetch(need[1..][k]).value.Some? {
        assert need[1..][k] == need[k + 1];
      }
    }
    if !first.Columnless? {
      var i :| 0 <= i < |need| &&
        fetch(need[i]).Ok? && fetch(need[i]).value.Some? && fetch(need[i]).value.value.Columnless?;
      assert i != 0 && need[1..][i - 1] == need[i];
    }
    GatherMergeError(first, need[1..], fetch);
  }

  /** `_get_data`: the day loop, reading the cache for each day and downloading the incomplete ones. */
  method GetData(cached: int -> nat, fetch: int -> Daily, dateFrom: int, dateTo: int)
    returns (r: Result<Option<DayFrame>>)
    ensures r == Fill(None, Days(dateFrom, dateTo), cached, fetch)
  {
    var days := Days(dateFrom, dateTo);
    var data: Option<DayFrame> := None;
    var i := 0;
    while i < |days|
      invariant 0 <= i <= |days|
      invariant Fill(None, days, cached, fetch) == Fill(data, days[i..], cached, fetch)
    {
      assert days[i..][0] == days[i] && days[i..][1..] == days[i + 1..];
      var count := cached(days[i]);
      if count < FullDay {
        var daily := fetch(days[i]);
        if daily.Err? {
          return Err(daily.error);
        }
        var merged := Merge(data, daily.value);
        if merged.Err? {
          return Err(merged.error);
        }
        data := merged.value;
      }
      i := i + 1;
    }
    assert days[i..] == [];
    r := Ok(data);
  }
}
