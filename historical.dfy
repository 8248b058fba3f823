/**
 * The cache-then-fill pipeline shared by every weather source (`Source` in
 * src/beemeteo/sources/__init__.py): read the cached hours of a location from the table,
 * find the gaps in them, ask the source for the gaps, write the new hours back and return
 * the requested window sorted and without repeated hours.
 */
module Historical {
  import opened Wrappers
  import opened Text
  import opened Utf8
  import opened Lex
  import opened Keys
  import opened Calendar
  import opened Records
  import opened Store
  import opened Save

  /** A stretch of time without cached hours, handed to the source: `(ini, end)` as instants. */
  datatype Gap = Gap(ini: int, end: int)

  function MinOf(a: int, b: int): int { if a <= b then a else b }

  /** `series.min()`. */
  function SeqMin(s: seq<int>): (m: int)
    requires |s| > 0
    ensures m in s && forall x :: x in s ==> m <= x
  {
    if |s| == 1 then s[0]
    else
      var r := SeqMin(s[1..]);
      assert forall x :: x in s ==> x == s[0] || x in s[1..];
      if s[0] <= r then s[0] else r
  }

  /** `series.max()`. */
  function SeqMax(s: seq<int>): (m: int)
    requires |s| > 0
    ensures m in s && forall x :: x in s ==> x <= m
  {
    if |s| == 1 then s[0]
    else
      var r := SeqMax(s[1..]);
      assert forall x :: x in s ==> x == s[0] || x in s[1..];
      if s[0] >= r then s[0] else r
  }

  // ---- gap detection (get_historical_data) ----

  /** A step between consecutive cached rows that leaves at least one hour out. */
  predicate LongStep(ts: seq<int>, i: nat)
    requires i + 1 < |ts|
  {
    ts[i + 1] - ts[i] > Hour
  }

  /**
   * `deltas = ts.diff()[1:]; for i in deltas[deltas > 1h]: gaps.append((ts[i-1], ts[i]))`:
   * one gap per long step, in row order.
   */
  function InteriorGaps(ts: seq<int>): seq<Gap>
    decreases |ts|
  {
    if |ts| < 2 then []
    else
      var n := |ts|;
      InteriorGaps(ts[..n - 1]) + (if LongStep(ts, n - 2) then [Gap(ts[n - 2], ts[n - 1])] else [])
  }

  /**
   * The gaps of the cache for a request from `from` to `to` at time `now`, `ts` being the
   * cached timestamps in row order: the whole request when nothing is cached; otherwise a
   * leading gap, a trailing gap up to `min(to, now)` and the interior gaps, in that order.
   */
  function Gaps(ts: seq<int>, from: int, to: int, now: int): seq<Gap> {
    if ts == [] then [Gap(from, to)]
    else
      var lo, hi, upto := SeqMin(ts), SeqMax(ts), MinOf(to, now);
      (if from < lo then [Gap(from, lo)] else [])
      + (if upto - Hour > hi then [Gap(hi, upto)] else [])
      + InteriorGaps(ts)
  }

  /** Appending one more cached row adds at most the gap before it, at the end. */
  lemma InteriorGapsSnoc(ts: seq<int>, i: nat)
    requires i + 1 < |ts|
    ensures InteriorGaps(ts[..i + 2])
         == InteriorGaps(ts[..i + 1]) + (if LongStep(ts, i) then [Gap(ts[i], ts[i + 1])] else [])
  {
    assert ts[..i + 2][..i + 1] == ts[..i + 1];
  }

  /** Every interior gap is a long step between two consecutive cached rows. */
  lemma {:induction false} InteriorGapsSound(ts: seq<int>)
    ensures forall g :: g in InteriorGaps(ts) ==>
      exists i: nat :: i + 1 < |ts| && LongStep(ts, i) && g == Gap(ts[i], ts[i + 1])
    decreases |ts|
  {
    if |ts| >= 2 {
      var n := |ts|;
      var p := ts[..n - 1];
      InteriorGapsSound(p);
      forall g | g in InteriorGaps(ts)
        ensures exists i: nat :: i + 1 < |ts| && LongStep(ts, i) && g == Gap(ts[i], ts[i + 1])
      {
        if g in InteriorGaps(p) {
          var i: nat :| i + 1 < |p| && LongStep(p, i) && g == Gap(p[i], p[i + 1]);
          assert p[i] == ts[i] && p[i + 1] == ts[i + 1];
          assert LongStep(ts, i);
        } else {
          assert LongStep(ts, n - 2) && g == Gap(ts[n - 2], ts[n - 1]);
        }
      }
    }
  }

  /** Both ends of an interior gap are cached hours, more than an hour apart. */
  lemma {:induction false} InteriorGapsBounds(ts: seq<int>)
    ensures forall g :: g in InteriorGaps(ts) ==> g.ini in ts && g.end in ts && g.ini + Hour < g.end
    decreases |ts|
  {
    if |ts| >= 2 {
      var n := |ts|;
      var p := ts[..n - 1];
      InteriorGapsBounds(p);
      assert forall x :: x in p ==> x in ts;
      assert ts[n - 2] in ts && ts[n - 1] in ts;
    }
  }

  /** Every long step between two consecutive cached rows is an interior gap. */
  lemma {:induction false} InteriorGapsComplete(ts: seq<int>, i: nat)
    requires i + 1 < |ts| && LongStep(ts, i)
    ensures Gap(ts[i], ts[i + 1]) in InteriorGaps(ts)
    decreases |ts|
  {
    var n := |ts|;
    if i + 2 < n {
      var p := ts[..n - 1];
      assert p[i] == ts[i] && p[i + 1] == ts[i + 1];
      InteriorGapsComplete(p, i);
    }
  }

  /** Rows exactly one hour apart (or closer) leave no interior gap. */
  lemma {:induction false} HourlyNoInteriorGap(ts: seq<int>)
    requires forall i :: 0 <= i < |ts| - 1 ==> ts[i + 1] - ts[i] <= Hour
    ensures InteriorGaps(ts) == []
    decreases |ts|
  {
    if |ts| >= 2 {
      var n := |ts|;
      var p := ts[..n - 1];
      assert forall i :: 0 <= i < |p| - 1 ==> p[i + 1] - p[i] == ts[i + 1] - ts[i];
      HourlyNoInteriorGap(p);
      assert !LongStep(ts, n - 2);
    }
  }

  /**
   * With rows cached: the leading gap `(from, min ts)` is there exactly when `from` is before
   * the earliest cached hour, and then it comes first.
   */
  lemma LeadingGap(ts: seq<int>, from: int, to: int, now: int)
    requires ts != []
    ensures Gap(from, SeqMin(ts)) in Gaps(ts, from, to, now) <==> from < SeqMin(ts)
    ensures from < SeqMin(ts) ==> Gaps(ts, from, to, now)[0] == Gap(from, SeqMin(ts))
  {
    InteriorGapsBounds(ts);
  }

  /**
   * With rows cached: the trailing gap `(max ts, min(to, now))` is there exactly when
   * `min(to, now)` is more than an hour after the latest cached hour; it never ends after `now`.
   */
  lemma TrailingGap(ts: seq<int>, from: int, to: int, now: int)
    requires ts != []
    ensures Gap(SeqMax(ts), MinOf(to, now)) in Gaps(ts, from, to, now) <==> MinOf(to, now) - Hour > SeqMax(ts)
    ensures MinOf(to, now) <= now
  {
    InteriorGapsBounds(ts);
  }

  /** With rows cached, every gap starts before it ends. */
  lemma GapsNonEmpty(ts: seq<int>, from: int, to: int, now: int)
    requires ts != []
    ensures forall g :: g in Gaps(ts, from, to, now) ==> g.ini < g.end
  {
    InteriorGapsBounds(ts);
  }

  /** The gaps are not sorted: a leading, a trailing and an interior gap come in that order. */
  lemma GapsOrder()
    ensures Gaps([0, 7200], -3600, 20000, 30000) == [Gap(-3600, 0), Gap(7200, 20000), Gap(0, 7200)]
  {
    assert [0, 7200][..1] == [0];
    assert SeqMin([0, 7200]) == 0 && SeqMax([0, 7200]) == 7200;
  }

  /**
   * Rows cached at 10:00, 11:00 and 14:00 for a request from 09:00 to 15:00 give the gaps
   * `(09:00, 10:00)` and `(11:00, 14:00)`: the trailing gap needs `15:00 - 1h` to be after
   * 14:00, which it is not.
   */
  lemma GapsExample(now: int)
    requires now >= 15 * Hour
    ensures Gaps([10 * Hour, 11 * Hour, 14 * Hour], 9 * Hour, 15 * Hour, now)
         == [Gap(9 * Hour, 10 * Hour), Gap(11 * Hour, 14 * Hour)]
  {
    var ts := [10 * Hour, 11 * Hour, 14 * Hour];
    assert ts[..2] == [10 * Hour, 11 * Hour] && ts[..2][..1] == [10 * Hour];
    assert SeqMin(ts) == 10 * Hour && SeqMax(ts) == 14 * Hour;
    assert InteriorGaps(ts[..2][..1]) == [];
    assert !LongStep(ts[..2], 0) && InteriorGaps(ts[..2]) == [];
    assert LongStep(ts, 1) && InteriorGaps(ts) == [Gap(11 * Hour, 14 * Hour)];
  }

  /** The loop over the steps between consecutive cached rows. */
  method CollectInterior(ts: seq<int>) returns (gaps: seq<Gap>)
    ensures gaps == InteriorGaps(ts)
  {
    gaps := [];
    if |ts| < 2 {
      return;
    }
    var i := 1;
    assert ts[..1] == [ts[0]];
    while i < |ts|
      invariant 1 <= i <= |ts|
      invariant gaps == InteriorGaps(ts[..i])
    {
      InteriorGapsSnoc(ts, i - 1);
      if ts[i] - ts[i - 1] > Hour {
        gaps := gaps + [Gap(ts[i - 1], ts[i])];
      }
      i := i + 1;
    }
    assert ts[..|ts|] == ts;
  }

  /** The gap-finding code: branches on an empty cache, then appends leading, trailing, interior. */
  method FindGaps(ts: seq<int>, from: int, to: int, now: int) returns (gaps: seq<Gap>)
    ensures gaps == Gaps(ts, from, to, now)
  {
    gaps := [];
    if ts == [] {
      gaps := [Gap(from, to)];
      return;
    }
    var lo, hi := SeqMin(ts), SeqMax(ts);
    var upto := MinOf(to, now);
    if from < lo {
      gaps := gaps + [Gap(from, lo)];
    }
    if upto - Hour > hi {
      gaps := gaps + [Gap(hi, upto)];
    }
    var interior := CollectInterior(ts);
    gaps := gaps + interior;
  }

  // ---- reading the cache (_get_from_hbase) ----

  /** The key columns a decoded row gets from the query instead of from its cells. */
  const KeyNames: set<string> := {"latitude", "longitude", "ts"}

  /** A row's cells in column order, as name/value pairs. */
  function Cells(cols: Columns): (cells: seq<(Bytes, Bytes)>)
    ensures |cells| == |cols|
  {
    var ks := SortedKeys(cols.Keys);
    assert |cols.Keys| == |cols|;
    seq(|ks|, i requires 0 <= i < |ks| => (ks[i], cols[ks[i]]))
  }

  /**
   * The column loop over a row's cells: each name is decoded as UTF-8 with every `"info:"`
   * removed, each value decoded as UTF-8, a later name replacing an earlier one; `None` is
   * the `UnicodeDecodeError` that aborts the read.
   */
  function DecodeColumnsFrom(acc: map<string, string>, cells: seq<(Bytes, Bytes)>): Option<map<string, string>>
    decreases |cells|
  {
    if cells == [] then Some(acc)
    else
      match (Decode(cells[0].0), Decode(cells[0].1))
      case (Some(name), Some(v)) => DecodeColumnsFrom(acc[RemoveAll(name, "info:") := v], cells[1..])
      case _ => None
  }

  /** All cells of a row, in column order. */
  function DecodeColumns(cols: Columns): Option<map<string, string>> {
    DecodeColumnsFrom(map[], Cells(cols))
  }

  /** `int(row_key.decode("UTF-8").split("~")[2])`; `None` when that raises. */
  function KeyTs(key: Bytes): Option<int> {
    match Decode(key)
    case None => None
    case Some(s) =>
      var parts := Split(s, '~');
      if |parts| < 3 then None else ParseInt(parts[2])
  }

  /** One scanned row as a series row of the queried location, or `None` if decoding raises. */
  function DecodeEntry(e: Entry, lat: string, lon: string): Option<Row> {
    match (DecodeColumns(e.cols), KeyTs(e.key))
    case (Some(cols), Some(ts)) => Some(Row(lat, lon, ts, cols - KeyNames))
    case _ => None
  }

  /** All values when none is missing, after those in `acc`; `None` at the first missing one. */
  function CollectAll<T>(acc: seq<T>, os: seq<Option<T>>): Option<seq<T>>
    decreases |os|
  {
    if os == [] then Some(acc)
    else
      match os[0]
      case None => None
      case Some(x) => CollectAll(acc + [x], os[1..])
  }

  /** `f` applied to each element. */
  function MapSeq<A, B>(f: A -> B, s: seq<A>): (r: seq<B>)
    ensures |r| == |s| && forall i :: 0 <= i < |s| ==> r[i] == f(s[i])
  {
    seq(|s|, i requires 0 <= i < |s| => f(s[i]))
  }

  /** The rows loop: every scanned row decoded after those in `acc`, or `None` once one raises. */
  function DecodeFrom(acc: seq<Row>, es: seq<Entry>, lat: string, lon: string): Option<seq<Row>> {
    CollectAll(acc, MapSeq(e => DecodeEntry(e, lat, lon), es))
  }

  /**
   * What `_get_from_hbase` returns for the yielded pages: `pd.DataFrame(measures)`, which has
   * no columns when there are no measures, or `pd.DataFrame({})` when decoding raised.
   */
  function Decoded(pages: seq<seq<Entry>>, lat: string, lon: string): Frame {
    match DecodeFrom([], Flatten(pages), lat, lon)
    case None => NoColumns
    case Some(rows) => if rows == [] then NoColumns else Rows(rows)
  }

  /** The scan bounds `"lat~lon~ts_ini"` and `"lat~lon~ts_end"`, encoded. */
  function ReadStart(lat: string, lon: string, tsIni: int): Bytes { Encode(RowKey(lat, lon, tsIni)) }
  function ReadStop(lat: string, lon: string, tsEnd: int): Bytes { Encode(RowKey(lat, lon, tsEnd)) }

  /** The batch size `get_hbase_data_batch` uses by default. */
  const DefaultBatch := 100000

  /** The pages `get_hbase_data_batch` yields with the default batch size and no limit. */
  function ReadPages(rows: map<Bytes, Columns>, lat: string, lon: string, tsIni: int, tsEnd: int): seq<seq<Entry>>
    requires forall k :: k in rows ==> |k| > 0
  {
    EntriesNonEmpty(rows);
    PagesFrom(EntriesOf(rows), ReadStart(lat, lon, tsIni), Some(ReadStop(lat, lon, tsEnd)), DefaultBatch, 0, [])
  }

  /** Collecting splits at any point into the values before it and those after. */
  lemma {:induction false} CollectAllAppend<T>(acc: seq<T>, a: seq<Option<T>>, b: seq<Option<T>>)
    ensures CollectAll(acc, a + b)
         == match CollectAll(acc, a)
            case None => None
            case Some(m) => CollectAll(m, b)
    decreases |a|
  {
    if a != [] {
      assert (a + b)[0] == a[0] && (a + b)[1..] == a[1..] + b;
      match a[0]
      case None =>
        assert CollectAll(acc, a + b) == None && CollectAll(acc, a) == None;
      case Some(x) =>
        assert CollectAll(acc, a) == CollectAll(acc + [x], a[1..]);
        CollectAllAppend(acc + [x], a[1..], b);
        assert CollectAll(acc, a + b) == CollectAll(acc + [x], a[1..] + b);
    } else {
      assert a + b == b;
    }
  }

  /** Collecting succeeds exactly when no value is missing, and then appends them all in order. */
  lemma {:induction false} CollectAllSpec<T>(acc: seq<T>, os: seq<Option<T>>)
    ensures CollectAll(acc, os).Some? <==> forall i :: 0 <= i < |os| ==> os[i].Some?
    ensures CollectAll(acc, os).Some? ==>
      var m := CollectAll(acc, os).value;
      && |m| == |acc| + |os| && m[..|acc|] == acc
      && forall i :: 0 <= i < |os| ==> Some(m[|acc| + i]) == os[i]
    decreases |os|
  {
    if os != [] {
      match os[0]
      case None =>
      case Some(x) =>
        CollectAllSpec(acc + [x], os[1..]);
        assert forall i :: 1 <= i < |os| ==> os[i] == os[1..][i - 1];
        if CollectAll(acc, os).Some? {
          var m := CollectAll(acc, os).value;
          assert m[..|acc| + 1][..|acc|] == m[..|acc|];
        }
    }
  }

  lemma MapSeqAppend<A, B>(f: A -> B, a: seq<A>, b: seq<A>)
    ensures MapSeq(f, a + b) == MapSeq(f, a) + MapSeq(f, b)
  {
  }

  /** Decoding splits at any point into the rows before it and those after. */
  lemma DecodeFromAppend(acc: seq<Row>, a: seq<Entry>, b: seq<Entry>, lat: string, lon: string)
    ensures DecodeFrom(acc, a + b, lat, lon)
         == match DecodeFrom(acc, a, lat, lon)
            case None => None
            case Some(m) => DecodeFrom(m, b, lat, lon)
  {
    var f := e => DecodeEntry(e, lat, lon);
    MapSeqAppend(f, a, b);
    CollectAllAppend(acc, MapSeq(f, a), MapSeq(f, b));
  }

  /**
   * Decoding succeeds exactly when every row decodes, and then yields one row per scanned
   * row, in scan order, after those already there.
   */
  lemma DecodeFromSpec(acc: seq<Row>, es: seq<Entry>, lat: string, lon: string)
    ensures DecodeFrom(acc, es, lat, lon).Some? <==> forall i :: 0 <= i < |es| ==> DecodeEntry(es[i], lat, lon).Some?
    ensures DecodeFrom(acc, es, lat, lon).Some? ==>
      var m := DecodeFrom(acc, es, lat, lon).value;
      && |m| == |acc| + |es| && m[..|acc|] == acc
      && forall i :: 0 <= i < |es| ==> Some(m[|acc| + i]) == DecodeEntry(es[i], lat, lon)
  {
    CollectAllSpec(acc, MapSeq(e => DecodeEntry(e, lat, lon), es));
  }

  /** A decoded row carries the queried location, the key's timestamp and no key column among its cells. */
  lemma DecodeEntrySpec(e: Entry, lat: string, lon: string)
    requires DecodeEntry(e, lat, lon).Some?
    ensures var r := DecodeEntry(e, lat, lon).value;
      && r.lat == lat && r.lon == lon && KeyTs(e.key) == Some(r.ts) && WellFormed(r)
  {
  }

  /** Decoding a non-empty run of rows first decodes its head. */
  lemma DecodeFromCons(acc: seq<Row>, es: seq<Entry>, lat: string, lon: string)
    requires es != []
    ensures DecodeFrom(acc, es, lat, lon)
         == match DecodeEntry(es[0], lat, lon)
            case None => None
            case Some(r) => DecodeFrom(acc + [r], es[1..], lat, lon)
  {
    var f := e => DecodeEntry(e, lat, lon);
    assert MapSeq(f, es)[0] == DecodeEntry(es[0], lat, lon);
    assert MapSeq(f, es)[1..] == MapSeq(f, es[1..]);
  }

  lemma FlattenConcat(a: seq<seq<Entry>>, b: seq<seq<Entry>>)
    ensures Flatten(a + b) == Flatten(a) + Flatten(b)
    decreases |b|
  {
    if b != [] {
      var n := |b|;
      assert (a + b)[..|a + b| - 1] == a + b[..n - 1];
      FlattenConcat(a, b[..n - 1]);
    } else {
      assert a + b == a;
    }
  }

  lemma FlattenCons(pages: seq<seq<Entry>>)
    requires pages != []
    ensures Flatten(pages) == pages[0] + Flatten(pages[1..])
  {
    FlattenConcat([pages[0]], pages[1..]);
    assert [pages[0]] + pages[1..] == pages;
    assert Flatten([pages[0]]) == Flatten([]) + pages[0];
  }

  /** One step of the column loop, for the decoded name and value of the first cell. */
  lemma DecodeColumnsStep(acc: map<string, string>, cells: seq<(Bytes, Bytes)>, name: Option<string>, value: Option<string>)
    requires cells != [] && name == Decode(cells[0].0) && value == Decode(cells[0].1)
    ensures name.None? || value.None? ==> DecodeColumnsFrom(acc, cells) == None
    ensures name.Some? && value.Some? ==>
      DecodeColumnsFrom(acc, cells) == DecodeColumnsFrom(acc[RemoveAll(name.value, "info:") := value.value], cells[1..])
  {
  }

  /** The column loop: every cell of the row, in column order. */
  method DecodeCells(cols: Columns) returns (r: Option<map<string, string>>)
    ensures r == DecodeColumns(cols)
  {
    var cells := Cells(cols);
    var m := map[];
    var j := 0;
    while j < |cells|
      invariant 0 <= j <= |cells|
      invariant DecodeColumnsFrom(map[], cells) == DecodeColumnsFrom(m, cells[j..])
    {
      var (k, v) := cells[j];
      assert cells[j..][0] == (k, v) && cells[j..][1..] == cells[j + 1..];
      var name, value := Decode(k), Decode(v);
      DecodeColumnsStep(m, cells[j..], name, value);
      if name.None? || value.None? {
        return None;
      }
      m := m[RemoveAll(name.value, "info:") := value.value];
      j := j + 1;
    }
    assert cells[|cells|..] == [];
    return Some(m);
  }

  /** One scanned row: its cells, then the query's location and the key's timestamp over them. */
  method DecodeRow(e: Entry, lat: string, lon: string) returns (r: Option<Row>)
    ensures r == DecodeEntry(e, lat, lon)
  {
    var cols := DecodeCells(e.cols);
    if cols.None? {
      return None;
    }
    var key := Decode(e.key);
    if key.None? {
      return None;
    }
    var parts := Split(key.value, '~');
    if |parts| < 3 {
      return None;
    }
    var ts := ParseInt(parts[2]);
    if ts.None? {
      return None;
    }
    return Some(Row(lat, lon, ts.value, cols.value - KeyNames));
  }

  /** The rows loop of one page, appending to the measures so far. */
  method DecodePage(page: seq<Entry>, lat: string, lon: string, acc: seq<Row>) returns (r: Option<seq<Row>>)
    ensures r == DecodeFrom(acc, page, lat, lon)
  {
    var measures := acc;
    var j := 0;
    while j < |page|
      invariant 0 <= j <= |page|
      invariant DecodeFrom(acc, page, lat, lon) == DecodeFrom(measures, page[j..], lat, lon)
    {
      DecodeFromCons(measures, page[j..], lat, lon);
      assert page[j..][0] == page[j] && page[j..][1..] == page[j + 1..];
      var row := DecodeRow(page[j], lat, lon);
      if row.None? {
        return None;
      }
      measures := measures + [row.value];
      j := j + 1;
    }
    assert page[|page|..] == [];
    return Some(measures);
  }

  /**
   * `_get_from_hbase`: scan `"lat~lon~ts_ini"` up to `"lat~lon~ts_end"` and decode every
   * row, an empty frame standing for any failure.
   */
  method GetFromHBase(table: Table, lat: string, lon: string, tsIni: int, tsEnd: int) returns (f: Frame)
    requires table.Valid()
    ensures f == Decoded(ReadPages(table.rows, lat, lon, tsIni, tsEnd), lat, lon)
  {
    var r := GetDataBatch(table, ReadStart(lat, lon, tsIni), Some(ReadStop(lat, lon, tsEnd)), [], DefaultBatch, 0);
    assert r.Ok?;
    var pages := r.value;
    var measures := [];
    var i := 0;
    while i < |pages|
      invariant 0 <= i <= |pages|
      invariant DecodeFrom([], Flatten(pages), lat, lon) == DecodeFrom(measures, Flatten(pages[i..]), lat, lon)
    {
      FlattenCons(pages[i..]);
      assert pages[i..][0] == pages[i] && pages[i..][1..] == pages[i + 1..];
      DecodeFromAppend(measures, pages[i], Flatten(pages[i + 1..]), lat, lon);
      var next := DecodePage(pages[i], lat, lon, measures);
      if next.None? {
        return NoColumns;
      }
      measures := next.value;
      i := i + 1;
    }
    assert pages[|pages|..] == [];
    if measures == [] {
      return NoColumns;
    }
    return Rows(measures);
  }

  // ---- reading back what was saved ----

  /** No column name holds `"info:"`, so removing it from a stored name gives the column back. */
  predicate PlainNames(cols: map<string, string>) {
    forall c :: c in cols ==> !Contains(c, "info:")
  }

  /** The `info` cells of a row's columns, as the table stores them. */
  function StoredCells(cols: map<string, string>): Columns {
    EncodeCells(InfoCells(cols))
  }

  /** Each column `c` is the `info` cell `"info:" + c`. */
  lemma InfoCellsHas(cols: map<string, string>, c: string)
    requires c in cols
    ensures "info:" + c in InfoCells(cols) && InfoCells(cols)["info:" + c] == cols[c]
  {
    PrefixInjective("info:");
  }

  /** Every `info` cell is `"info:"` followed by a column. */
  lemma InfoCellsOnly(cols: map<string, string>, name: string) returns (c: string)
    requires name in InfoCells(cols)
    ensures c in cols && name == "info:" + c
  {
    c :| c in cols && name == "info:" + c;
  }

  /** A stored cell is the encoded name and value of one cell. */
  lemma StoredOf(cells: map<string, string>, k: Bytes) returns (name: string)
    requires k in EncodeCells(cells)
    ensures name in cells && k == Encode(name) && EncodeCells(cells)[k] == Encode(cells[name])
  {
    EncodeCellsSpec(cells);
    name :| name in cells && k == Encode(name);
  }

  /** A stored cell name is `"info:"` and a column, its value that column's value. */
  lemma StoredCell(cols: map<string, string>, k: Bytes) returns (c: string)
    requires k in StoredCells(cols)
    ensures c in cols && k == Encode("info:" + c) && StoredCells(cols)[k] == Encode(cols[c])
  {
    var name := StoredOf(InfoCells(cols), k);
    c := InfoCellsOnly(cols, name);
    InfoCellsHas(cols, c);
  }

  /** Each cell is stored under its encoded name with its encoded value. */
  lemma StoredHas(cells: map<string, string>, name: string)
    requires name in cells
    ensures Encode(name) in EncodeCells(cells) && EncodeCells(cells)[Encode(name)] == Encode(cells[name])
  {
    EncodeCellsSpec(cells);
  }

  /** Every column is stored under its `info:` name. */
  lemma StoredColumn(cols: map<string, string>, c: string)
    requires c in cols
    ensures Encode("info:" + c) in StoredCells(cols) && StoredCells(cols)[Encode("info:" + c)] == Encode(cols[c])
  {
    InfoCellsHas(cols, c);
    StoredHas(InfoCells(cols), "info:" + c);
  }

  /** The columns whose stored cell is among `cells`. */
  function InfoTarget(cols: map<string, string>, cells: seq<(Bytes, Bytes)>): map<string, string> {
    map c | c in cols && (Encode("info:" + c), Encode(cols[c])) in cells :: cols[c]
  }

  lemma MergeEmpty<K, V>(m: map<K, V>)
    ensures map[] + m == m && m + map[] == m
  {
  }

  lemma MergeUpdate<K, V>(acc: map<K, V>, t: map<K, V>, k: K, v: V)
    requires k in t ==> t[k] == v
    ensures acc[k := v] + t == acc + t[k := v]
  {
  }

  /** A stored name decodes to its column and a stored value to the column's value. */
  lemma DecodeStored(cols: map<string, string>, c: string)
    requires c in cols && PlainNames(cols)
    ensures Decode(Encode("info:" + c)) == Some("info:" + c) && RemoveAll("info:" + c, "info:") == c
    ensures Decode(Encode(cols[c])) == Some(cols[c])
  {
    DecodeEncode("info:" + c);
    DecodeEncode(cols[c]);
    RemoveAllLeading("info:", c);
    RemoveAllAbsent(c, "info:");
  }

  /** The stored cell of column `c0` at the head of `cells` adds `c0` to the target. */
  lemma InfoTargetCons(cols: map<string, string>, cells: seq<(Bytes, Bytes)>, c0: string)
    requires cells != [] && c0 in cols && cells[0] == (Encode("info:" + c0), Encode(cols[c0]))
    ensures InfoTarget(cols, cells) == InfoTarget(cols, cells[1..])[c0 := cols[c0]]
  {
    var t, t' := InfoTarget(cols, cells), InfoTarget(cols, cells[1..])[c0 := cols[c0]];
    forall c | c in cols ensures c in t <==> c in t' {
      var p := (Encode("info:" + c), Encode(cols[c]));
      assert p in cells <==> p == cells[0] || p in cells[1..] by {
        assert cells == [cells[0]] + cells[1..];
      }
      if p == cells[0] {
        EncodeInjective("info:" + c, "info:" + c0);
        assert c == ("info:" + c)[5..] == ("info:" + c0)[5..] == c0;
      }
    }
    assert t.Keys == t'.Keys;
  }

  /** Decoding stored cells gives back the columns they store, after those in `acc`. */
  lemma {:induction false} DecodeInfoFrom(acc: map<string, string>, cells: seq<(Bytes, Bytes)>, cols: map<string, string>)
    requires PlainNames(cols)
    requires forall i :: 0 <= i < |cells| ==> cells[i].0 in StoredCells(cols) && cells[i].1 == StoredCells(cols)[cells[i].0]
    ensures DecodeColumnsFrom(acc, cells) == Some(acc + InfoTarget(cols, cells))
    decreases |cells|
  {
    if cells == [] {
      assert InfoTarget(cols, cells) == map[];
      MergeEmpty(acc);
    } else {
      var c0 := StoredCell(cols, cells[0].0);
      DecodeStored(cols, c0);
      DecodeColumnsStep(acc, cells, Decode(cells[0].0), Decode(cells[0].1));
      DecodeInfoFrom(acc[c0 := cols[c0]], cells[1..], cols);
      InfoTargetCons(cols, cells, c0);
      MergeUpdate(acc, InfoTarget(cols, cells[1..]), c0, cols[c0]);
    }
  }

  /** Each cell of a row is one of its stored columns with its value. */
  lemma CellsValid(e: Columns)
    ensures forall i :: 0 <= i < |Cells(e)| ==> Cells(e)[i].0 in e && Cells(e)[i].1 == e[Cells(e)[i].0]
  {
    var ks := SortedKeys(e.Keys);
    assert forall i :: 0 <= i < |ks| ==> ks[i] in ks;
  }

  /** Each stored column of a row is among its cells. */
  lemma CellsHas(e: Columns, k: Bytes)
    requires k in e
    ensures (k, e[k]) in Cells(e)
  {
    var ks := SortedKeys(e.Keys);
    var i :| 0 <= i < |ks| && ks[i] == k;
    assert Cells(e)[i] == (k, e[k]);
  }

  /** All of a row's stored columns are among its cells. */
  lemma InfoTargetAll(cols: map<string, string>)
    ensures InfoTarget(cols, Cells(StoredCells(cols))) == cols
  {
    var e := StoredCells(cols);
    forall c | c in cols ensures (Encode("info:" + c), Encode(cols[c])) in Cells(e) {
      StoredColumn(cols, c);
      CellsHas(e, Encode("info:" + c));
    }
  }

  /** The cells of a row's stored columns decode to those columns. */
  lemma ColumnsRoundTrip(cols: map<string, string>)
    requires PlainNames(cols)
    ensures DecodeColumns(StoredCells(cols)) == Some(cols)
  {
    CellsValid(StoredCells(cols));
    DecodeInfoFrom(map[], Cells(StoredCells(cols)), cols);
    InfoTargetAll(cols);
    MergeEmpty(cols);
  }

  lemma NoTildeInInt(i: int)
    ensures '~' !in IntToString(i)
  {
    var s := Digits(if i < 0 then -i else i);
    assert forall j :: 0 <= j < |s| ==> IsDigit(s[j]);
  }

  /** The timestamp read from a `"lat~lon~ts"` key is `ts` when the coordinates hold no `~`. */
  lemma KeyTsRoundTrip(lat: string, lon: string, ts: int)
    requires '~' !in lat && '~' !in lon
    ensures KeyTs(Encode(RowKey(lat, lon, ts))) == Some(ts)
  {
    var parts := [lat, lon, IntToString(ts)];
    NoTildeInInt(ts);
    DecodeEncode(RowKey(lat, lon, ts));
    SplitJoin(parts, '~');
    ParseIntRoundTrip(ts);
  }

  /** A well-formed row has no key column among its other columns. */
  lemma KeyNamesAbsent(r: Row)
    requires WellFormed(r)
    ensures r.cols - KeyNames == r.cols
  {
  }

  /** The stored form of a row, its key and its `info` cells, decodes to the row. */
  lemma StoredRowReadsBack(r: Row)
    requires WellFormed(r) && '~' !in r.lat && '~' !in r.lon && PlainNames(r.cols)
    ensures DecodeEntry(Entry(Encode(RowKey(r.lat, r.lon, r.ts)), StoredCells(r.cols)), r.lat, r.lon) == Some(r)
  {
    ColumnsRoundTrip(r.cols);
    KeyTsRoundTrip(r.lat, r.lon, r.ts);
    KeyNamesAbsent(r);
  }

  /**
   * A series row written by `save_to_hbase` with `[("info", "all")]` and row fields
   * `latitude, longitude, ts` reads back as the same row, for a location without `~` and
   * column names without `"info:"`.
   */
  lemma SavedRowReadsBack(r: Row, uid: string, n: nat)
    requires WellFormed(r) && '~' !in r.lat && '~' !in r.lon && PlainNames(r.cols)
    ensures var m := SaveMutation(ToDocument(r), [Family("info", All)], KeyColumns, uid, n);
      DecodeEntry(Entry(m.row, m.values), r.lat, r.lon) == Some(r)
  {
    SaveSeriesRow(r, uid, n);
    StoredRowReadsBack(r);
  }

  // ---- what a read returns ----

  /** Within one location, a stored key is in the read's range exactly when its timestamp is. */
  lemma ReadWindow(lat: string, lon: string, tsIni: nat, tsEnd: nat, t: nat)
    requires |Digits(t)| == |Digits(tsIni)| == |Digits(tsEnd)|
    ensures var k := Encode(RowKey(lat, lon, t));
      !Less(k, ReadStart(lat, lon, tsIni)) && Less(k, ReadStop(lat, lon, tsEnd)) <==> tsIni <= t < tsEnd
  {
    RowKeyOrder(lat, lon, t, tsIni);
    RowKeyOrder(lat, lon, t, tsEnd);
  }

  /**
   * The rows a read scans are rows of the table, in key order, inside the bounds; on a
   * table whose keys are prefix-free they are all the rows inside the bounds.
   */
  lemma ReadScan(rows: map<Bytes, Columns>, lat: string, lon: string, tsIni: int, tsEnd: int)
    requires forall k :: k in rows ==> |k| > 0
    ensures var es := Flatten(ReadPages(rows, lat, lon, tsIni, tsEnd));
      && Sorted(es)
      && (forall i :: 0 <= i < |es| ==>
            && es[i].key in rows && es[i].cols == rows[es[i].key]
            && !Less(es[i].key, ReadStart(lat, lon, tsIni)) && Less(es[i].key, ReadStop(lat, lon, tsEnd)))
      && (PrefixFree(EntriesOf(rows)) ==>
            es == InRange(EntriesOf(rows), ReadStart(lat, lon, tsIni), Some(ReadStop(lat, lon, tsEnd))))
  {
    var t := EntriesOf(rows);
    EntriesNonEmpty(rows);
    PagesFromFinal(t, ReadStart(lat, lon, tsIni), Some(ReadStop(lat, lon, tsEnd)), DefaultBatch, 0);
    var es := Flatten(ReadPages(rows, lat, lon, tsIni, tsEnd));
    forall i | 0 <= i < |es| ensures es[i].key in rows && es[i].cols == rows[es[i].key] {
      EntryOfRows(rows, es[i]);
    }
  }

  lemma EntryOfRows(rows: map<Bytes, Columns>, e: Entry)
    requires e in EntriesOf(rows)
    ensures e.key in rows && e.cols == rows[e.key]
  {
    EntriesOfSpec(rows);
  }

  /** Collecting from nothing yields exactly the values, one per element. */
  lemma CollectAllFresh<T>(os: seq<Option<T>>)
    ensures CollectAll([], os).Some? <==> forall i :: 0 <= i < |os| ==> os[i].Some?
    ensures CollectAll([], os).Some? ==>
      var m := CollectAll([], os).value;
      |m| == |os| && forall i :: 0 <= i < |os| ==> Some(m[i]) == os[i]
  {
    var none: seq<T> := [];
    CollectAllSpec(none, os);
    if CollectAll(none, os).Some? {
      var m := CollectAll(none, os).value;
      assert forall i :: 0 <= i < |os| ==> m[i] == m[|none| + i];
    }
  }

  /**
   * A read gives a frame without columns exactly when nothing was scanned or some row fails
   * to decode; otherwise one row per scanned row, in scan order.
   */
  lemma DecodedSpec(pages: seq<seq<Entry>>, lat: string, lon: string)
    ensures var es, f := Flatten(pages), Decoded(pages, lat, lon);
      && (f.NoColumns? <==> es == [] || exists i :: 0 <= i < |es| && DecodeEntry(es[i], lat, lon).None?)
      && (f.Rows? ==> |f.rows| == |es| && forall i :: 0 <= i < |es| ==> Some(f.rows[i]) == DecodeEntry(es[i], lat, lon))
  {
    var es := Flatten(pages);
    var os := MapSeq(e => DecodeEntry(e, lat, lon), es);
    CollectAllFresh(os);
  }

  // ---- get_historical_data ----

  /**
   * `_get_historical_data_source(latitude, longitude, gaps, tz)` for a zone of offset `off`:
   * the provider's rows for the gaps, or the exception it raises.
   */
  type Source = (string, string, seq<Gap>, int) -> Result<Frame>

  /** What a request returns, and the fetched rows it writes to the table. */
  datatype Outcome = Outcome(result: Result<seq<Row>>, saved: seq<Row>)

  /** The `[("info", "all")]` mapping the fetched rows are saved with. */
  const Series: seq<Family> := [Family("info", All)]

  function Documents(rows: seq<Row>): seq<Document> {
    MapSeq(ToDocument, rows)
  }

  function TsOf(rows: seq<Row>): (ts: seq<int>)
    ensures |ts| == |rows| && forall i :: 0 <= i < |rows| ==> ts[i] == rows[i].ts
  {
    MapSeq((r: Row) => r.ts, rows)
  }

  /** `query("ts >= lo and ts <= hi").sort_values(by=["ts"]).drop_duplicates(key)`. */
  function Window(rows: seq<Row>, lo: int, hi: int): seq<Row> {
    Dedup(SortByTs(Within(rows, lo, hi)))
  }

  /** The last hour a request returns: `min(now, ts_end + 23h)`. */
  function LastHour(tsEnd: int, now: int): int { MinOf(now, tsEnd + 23 * Hour) }

  /** The cached rows of a location read for a request from `tsIni` to `tsEnd`, the end day fully included. */
  function Cached(rows: map<Bytes, Columns>, lat: string, lon: string, tsIni: int, tsEnd: int): seq<Row>
    requires forall k :: k in rows ==> |k| > 0
  {
    RowsOf(Decoded(ReadPages(rows, lat, lon, tsIni, tsEnd + Day), lat, lon))
  }

  /**
   * What a request does once the cached rows `cached` of the location are read: find their
   * gaps, fetch the gaps, keep the fetched hours up to `now` to be saved, then take the
   * requested window. A frame from the source without columns makes the `ts` query raise.
   */
  function Respond(cached: seq<Row>, source: Source, lat: string, lon: string, tsIni: int, tsEnd: int,
                   off: int, now: int): Outcome {
    var gaps := Gaps(TsOf(cached), tsIni, tsEnd, now);
    if gaps == [] then Outcome(Ok(Window(cached, tsIni, LastHour(tsEnd, now))), [])
    else
      var fetched := source(lat, lon, gaps, off);
      if fetched.Err? then Outcome(Err(fetched.error), [])
      else if fetched.value.NoColumns? then Outcome(Err("name 'ts' is not defined"), [])
      else
        var kept := SortByTs(UpTo(fetched.value.rows, now));
        Outcome(Ok(Window(cached + kept, tsIni, LastHour(tsEnd, now))), kept)
  }

  /**
   * `get_historical_data` on a table holding `rows`: the request bounds in the location's
   * zone, the coordinates with three decimals, and the response to the cached rows.
   */
  function Historical(rows: map<Bytes, Columns>, source: Source, latM: int, lonM: int,
                      dateFrom: PyDateTime, dateTo: PyDateTime, off: int, now: int): Outcome
    requires forall k :: k in rows ==> |k| > 0
  {
    var tsIni := ToTz(dateFrom, off);
    var tsEnd := ToTz(dateTo, off);
    var lat := Format3(latM);
    var lon := Format3(lonM);
    Respond(Cached(rows, lat, lon, tsIni, tsEnd), source, lat, lon, tsIni, tsEnd, off, now)
  }

  lemma SaveNothing(uid: string)
    ensures SaveMutations(Documents([]), Series, KeyColumns, uid) == []
  {
  }

  /** The steps after the read: the source called only when there are gaps, the kept rows saved. */
  method FetchAndSave(table: Table, cached: seq<Row>, source: Source, lat: string, lon: string,
                      tsIni: int, tsEnd: int, off: int, now: int, uid: string)
    returns (result: Result<seq<Row>>)
    requires table.Valid()
    modifies table
    ensures table.Valid()
    ensures var o := Respond(cached, source, lat, lon, tsIni, tsEnd, off, now);
      && result == o.result
      && table.rows == ApplyAll(old(table.rows), SaveMutations(Documents(o.saved), Series, KeyColumns, uid))
  {
    SaveNothing(uid);
    var gaps := FindGaps(TsOf(cached), tsIni, tsEnd, now);
    if gaps == [] {
      return Ok(Window(cached, tsIni, LastHour(tsEnd, now)));
    }
    var fetched := source(lat, lon, gaps, off);
    if fetched.Err? {
      return Err(fetched.error);
    }
    if fetched.value.NoColumns? {
      return Err("name 'ts' is not defined");
    }
    var kept := SortByTs(UpTo(fetched.value.rows, now));
    SaveKeysGiven(Documents(kept), Series, KeyColumns, uid);
    var saved := SaveToHBase(table, Documents(kept), Series, KeyColumns, uid);
    result := Ok(Window(cached + kept, tsIni, LastHour(tsEnd, now)));
  }

  /**
   * The request, on `table`: read the cached rows of the location (the end day fully
   * included), then fetch and save what is missing and return the window.
   */
  method GetHistoricalData(table: Table, source: Source, latM: int, lonM: int,
                           dateFrom: PyDateTime, dateTo: PyDateTime, off: int, now: int, uid: string)
    returns (result: Result<seq<Row>>)
    requires table.Valid()
    modifies table
    ensures table.Valid()
    ensures var o := Historical(old(table.rows), source, latM, lonM, dateFrom, dateTo, off, now);
      && result == o.result
      && table.rows == ApplyAll(old(table.rows), SaveMutations(Documents(o.saved), Series, KeyColumns, uid))
  {
    var tsIni := ToTz(dateFrom, off);
    var tsEnd := ToTz(dateTo, off);
    var lat := Format3(latM);
    var lon := Format3(lonM);
    var data := GetFromHBase(table, lat, lon, tsIni, tsEnd + Day);
    assert RowsOf(data) == Cached(table.rows, lat, lon, tsIni, tsEnd);
    assert Historical(table.rows, source, latM, lonM, dateFrom, dateTo, off, now)
        == Respond(RowsOf(data), source, lat, lon, tsIni, tsEnd, off, now);
    result := FetchAndSave(table, RowsOf(data), source, lat, lon, tsIni, tsEnd, off, now, uid);
  }

  // ---- what a request returns ----

  lemma {:induction false} LongStepCounted(ts: seq<int>, i: nat)
    requires i + 1 < |ts|
    ensures LongStep(ts, i) ==> |InteriorGaps(ts)| > 0
    decreases |ts|
  {
    var n := |ts|;
    if i + 2 < n {
      var p := ts[..n - 1];
      assert p[i] == ts[i] && p[i + 1] == ts[i + 1];
      LongStepCounted(p, i);
    }
  }

  /**
   * Nothing is fetched exactly when the cache covers the request: rows are cached, the first
   * at or before the start, the last within an hour of `min(to, now)`, and no step between
   * consecutive rows longer than an hour.
   */
  lemma NoGaps(ts: seq<int>, from: int, to: int, now: int)
    ensures Gaps(ts, from, to, now) == [] <==>
      && ts != [] && SeqMin(ts) <= from && MinOf(to, now) - Hour <= SeqMax(ts)
      && forall i :: 0 <= i < |ts| - 1 ==> ts[i + 1] - ts[i] <= Hour
  {
    if Gaps(ts, from, to, now) == [] {
      assert ts != [];
      assert InteriorGaps(ts) == [];
      forall i | 0 <= i < |ts| - 1 ensures ts[i + 1] - ts[i] <= Hour {
        LongStepCounted(ts, i);
      }
    }
    if forall i :: 0 <= i < |ts| - 1 ==> ts[i + 1] - ts[i] <= Hour {
      HourlyNoInteriorGap(ts);
    }
  }

  /**
   * The returned window: rows between the bounds, ordered by `ts`, one per key, each one of
   * the input rows, and every key of an input row between the bounds still present.
   */
  lemma WindowSpec(rows: seq<Row>, lo: int, hi: int)
    ensures var w := Window(rows, lo, hi);
      && SortedByTs(w) && UniqueKeys(w)
      && (forall x :: x in w ==> x in rows && lo <= x.ts <= hi)
      && (forall x :: x in rows && lo <= x.ts <= hi ==> exists y :: y in w && Key(y) == Key(x))
  {
    var inside := Within(rows, lo, hi);
    SortByTsSpec(inside);
    SortByTsMembers(inside);
    DedupSpec(SortByTs(inside));
  }

  /** Every cached row belongs to the location, with a timestamp read from its key. */
  lemma CachedSpec(rows: map<Bytes, Columns>, lat: string, lon: string, tsIni: int, tsEnd: int)
    requires forall k :: k in rows ==> |k| > 0
    ensures forall x :: x in Cached(rows, lat, lon, tsIni, tsEnd) ==> x.lat == lat && x.lon == lon && WellFormed(x)
  {
    var pages := ReadPages(rows, lat, lon, tsIni, tsEnd + Day);
    var es := Flatten(pages);
    DecodedSpec(pages, lat, lon);
    forall x | x in Cached(rows, lat, lon, tsIni, tsEnd) ensures x.lat == lat && x.lon == lon && WellFormed(x) {
      var i :| 0 <= i < |Cached(rows, lat, lon, tsIni, tsEnd)| && Cached(rows, lat, lon, tsIni, tsEnd)[i] == x;
      DecodeEntrySpec(es[i], lat, lon);
    }
  }

  /**
   * A request fails exactly when there are gaps and the source raises or gives a frame
   * without columns; then nothing is saved. Without gaps nothing is fetched or saved.
   */
  lemma HistoricalError(cached: seq<Row>, source: Source, lat: string, lon: string, tsIni: int, tsEnd: int,
                        off: int, now: int)
    ensures var gaps := Gaps(TsOf(cached), tsIni, tsEnd, now);
      var o := Respond(cached, source, lat, lon, tsIni, tsEnd, off, now);
      && (o.result.Err? <==> gaps != [] && (source(lat, lon, gaps, off).Err? || source(lat, lon, gaps, off).value.NoColumns?))
      && (o.result.Err? || gaps == [] ==> o.saved == [])
  {
  }

  /**
   * What is saved is exactly the fetched rows up to `now`, ordered by `ts`: no hour later
   * than the current time is written to the cache.
   */
  lemma HistoricalSaved(cached: seq<Row>, source: Source, lat: string, lon: string, tsIni: int, tsEnd: int,
                        off: int, now: int)
    ensures var gaps := Gaps(TsOf(cached), tsIni, tsEnd, now);
      var o := Respond(cached, source, lat, lon, tsIni, tsEnd, off, now);
      && SortedByTs(o.saved)
      && (o.saved != [] ==> gaps != [])
      && (o.result.Ok? && gaps != [] ==>
            forall x :: x in o.saved <==> x in RowsOf(source(lat, lon, gaps, off).value) && x.ts <= now)
  {
    var gaps := Gaps(TsOf(cached), tsIni, tsEnd, now);
    var f := source(lat, lon, gaps, off);
    if f.Ok? {
      SortByTsSpec(UpTo(RowsOf(f.value), now));
      SortByTsMembers(UpTo(RowsOf(f.value), now));
    }
  }

  /**
   * A successful request returns the hours from the start to `min(now, end + 23h)`, ordered
   * by `ts`, one row per key, each a cached row or a saved one; and no key of a cached or
   * saved row in that window is missing.
   */
  lemma HistoricalResult(cached: seq<Row>, source: Source, lat: string, lon: string, tsIni: int, tsEnd: int,
                         off: int, now: int)
    ensures var o := Respond(cached, source, lat, lon, tsIni, tsEnd, off, now);
      o.result.Ok? ==>
        var w := o.result.value;
        && SortedByTs(w) && UniqueKeys(w)
        && (forall x :: x in w ==> (x in cached || x in o.saved) && tsIni <= x.ts <= LastHour(tsEnd, now) && x.ts <= now)
        && (forall x :: (x in cached || x in o.saved) && tsIni <= x.ts <= LastHour(tsEnd, now) ==>
              exists y :: y in w && Key(y) == Key(x))
  {
    var o := Respond(cached, source, lat, lon, tsIni, tsEnd, off, now);
    RespondWindow(cached, source, lat, lon, tsIni, tsEnd, off, now);
    WindowOfBoth(cached, o.saved, tsIni, LastHour(tsEnd, now));
    assert LastHour(tsEnd, now) <= now;
  }

  /** The window over the cached rows followed by the saved ones, stated over the two parts. */
  lemma WindowOfBoth(cached: seq<Row>, saved: seq<Row>, lo: int, hi: int)
    ensures var w := Window(cached + saved, lo, hi);
      && SortedByTs(w) && UniqueKeys(w)
      && (forall x :: x in w ==> (x in cached || x in saved) && lo <= x.ts <= hi)
      && (forall x :: (x in cached || x in saved) && lo <= x.ts <= hi ==> exists y :: y in w && Key(y) == Key(x))
  {
    WindowSpec(cached + saved, lo, hi);
  }

  /** A successful request returns the window of the cached rows and the saved rows together. */
  lemma RespondWindow(cached: seq<Row>, source: Source, lat: string, lon: string, tsIni: int, tsEnd: int,
                      off: int, now: int)
    ensures var o := Respond(cached, source, lat, lon, tsIni, tsEnd, off, now);
      o.result.Ok? ==> o.result == Ok(Window(cached + o.saved, tsIni, LastHour(tsEnd, now)))
  {
    var o := Respond(cached, source, lat, lon, tsIni, tsEnd, off, now);
    if o.saved == [] {
      assert cached + o.saved == cached;
    }
  }
}
