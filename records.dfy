/**
 * The rows the weather code moves around: documents as string-keyed dictionaries, series
 * rows keyed by `(latitude, longitude, ts)`, and the frame operations applied to them
 * (`pd.concat`, `query` on `ts`, `sort_values(by=["ts"])`, `drop_duplicates` on the key).
 */
module Records {
  import opened Wrappers
  import opened Text
  import opened Sorting

  /** A value in a document: text (the `'.3f'` coordinates, measurements) or an integer (`ts`). */
  datatype Value = Str(s: string) | Int(i: int)

  /** `str(v)`. */
  function Show(v: Value): string {
    match v
    case Str(s) => s
    case Int(i) => IntToString(i)
  }

  /** A document as `to_dict(orient="records")` gives it. */
  type Document = map<string, Value>

  /** The key columns of every weather series. */
  const KeyColumns: seq<string> := ["latitude", "longitude", "ts"]

  /** A line of a provider's table: its time column as a UTC instant and its other columns. */
  datatype Record = Record(time: int, cols: map<string, string>)

  /** A row of a weather series: its location, its UTC timestamp and its other columns as text. */
  datatype Row = Row(lat: string, lon: string, ts: int, cols: map<string, string>)

  /** The other columns never reuse a key column's name. */
  predicate WellFormed(r: Row) {
    forall c :: c in r.cols ==> c !in KeyColumns
  }

  function Key(r: Row): (string, string, int) { (r.lat, r.lon, r.ts) }

  /** The document of a row: its columns with the three key columns added. */
  function ToDocument(r: Row): Document {
    map k | k in r.cols.Keys + {"latitude", "longitude", "ts"} ::
      if k == "latitude" then Str(r.lat) else if k == "longitude" then Str(r.lon)
      else if k == "ts" then Int(r.ts) else Str(r.cols[k])
  }

  /**
   * A data frame: `pd.DataFrame()` without any column, or rows that all carry the key
   * columns (possibly none of them).
   */
  datatype Frame = NoColumns | Rows(rows: seq<Row>)

  function RowsOf(f: Frame): seq<Row> {
    if f.Rows? then f.rows else []
  }

  /** `frame.empty`. */
  predicate IsEmpty(f: Frame) { RowsOf(f) == [] }

  /** `data["ts"] = data["time"]`, then `time` dropped: rows not yet stamped with a location. */
  function TsFromTime(records: seq<Record>): (rows: seq<Row>)
    ensures |rows| == |records|
    ensures forall i :: 0 <= i < |records| ==> rows[i].ts == records[i].time && rows[i].cols == records[i].cols
  {
    seq(|records|, i requires 0 <= i < |records| => Row("", "", records[i].time, records[i].cols))
  }

  /** `pd.concat([a, b])`: a frame without columns adds nothing. */
  function Concat(a: Frame, b: Frame): (r: Frame)
    ensures RowsOf(r) == RowsOf(a) + RowsOf(b)
    ensures r.NoColumns? <==> a.NoColumns? && b.NoColumns?
  {
    if a.NoColumns? then b
    else if b.NoColumns? then a
    else Rows(a.rows + b.rows)
  }

  /** Concatenation of frames is associative. */
  lemma ConcatAssocFrames(a: Frame, b: Frame, c: Frame)
    ensures Concat(Concat(a, b), c) == Concat(a, Concat(b, c))
  {
    if a.Rows? && b.Rows? && c.Rows? {
      ConcatAssoc(a.rows, b.rows, c.rows);
    }
  }

  // ---- query("ts <= …"), query("ts >= … and ts <= …") ----

  /** The rows with `ts <= hi`, in order. */
  function UpTo(rows: seq<Row>, hi: int): (r: seq<Row>)
    ensures forall x :: x in r <==> x in rows && x.ts <= hi
    ensures |r| <= |rows|
  {
    if rows == [] then []
    else (if rows[0].ts <= hi then [rows[0]] else []) + UpTo(rows[1..], hi)
  }

  /** The rows with `lo <= ts <= hi`, in order. */
  function Within(rows: seq<Row>, lo: int, hi: int): (r: seq<Row>)
    ensures forall x :: x in r <==> x in rows && lo <= x.ts <= hi
    ensures |r| <= |rows|
  {
    if rows == [] then []
    else (if lo <= rows[0].ts <= hi then [rows[0]] else []) + Within(rows[1..], lo, hi)
  }

  /** Filtering keeps rows ordered by `ts` ordered. */
  lemma {:induction false} WithinSorted(rows: seq<Row>, lo: int, hi: int)
    requires SortedByTs(rows)
    ensures SortedByTs(Within(rows, lo, hi))
    decreases |rows|
  {
    if rows != [] {
      var tail := Within(rows[1..], lo, hi);
      WithinSorted(rows[1..], lo, hi);
      if lo <= rows[0].ts <= hi {
        var w := [rows[0]] + tail;
        forall i, j | 0 <= i < j < |w| ensures w[i].ts <= w[j].ts {
          assert w[j] == tail[j - 1] && w[j] in tail;
          var m :| 0 <= m < |rows[1..]| && rows[1..][m] == w[j];
          assert rows[m + 1] == w[j];
          if i > 0 {
            assert w[i] == tail[i - 1];
          }
        }
      }
    }
  }

  // ---- sort_values(by=["ts"]) ----

  function RowTs(r: Row): int { r.ts }

  predicate SortedByTs(rows: seq<Row>) {
    forall i, j :: 0 <= i < j < |rows| ==> rows[i].ts <= rows[j].ts
  }

  lemma SortedByTsIsSortedBy(rows: seq<Row>)
    ensures SortedByTs(rows) <==> SortedBy(RowTs, rows)
  {
  }

  /** The rows ordered by `ts`. */
  function SortByTs(rows: seq<Row>): seq<Row> {
    SortBy(RowTs, rows)
  }

  /** Sorting by `ts` orders the rows and keeps exactly the same rows. */
  lemma SortByTsSpec(rows: seq<Row>)
    ensures SortedByTs(SortByTs(rows))
    ensures multiset(SortByTs(rows)) == multiset(rows)
  {
    SortBySpec(RowTs, rows);
    SortedByTsIsSortedBy(SortByTs(rows));
  }

  lemma SortByTsMembers(rows: seq<Row>)
    ensures |SortByTs(rows)| == |rows|
    ensures forall x :: x in SortByTs(rows) <==> x in rows
  {
    SortByMembers(RowTs, rows);
  }

  // ---- drop_duplicates(subset=["latitude", "longitude", "ts"]) ----

  predicate UniqueKeys(rows: seq<Row>) {
    forall i, j :: 0 <= i < j < |rows| ==> Key(rows[i]) != Key(rows[j])
  }

  /** The rows whose key is not in `seen` and not on an earlier row: the first of each key. */
  function DedupFrom(rows: seq<Row>, seen: set<(string, string, int)>): seq<Row>
    decreases |rows|
  {
    if rows == [] then []
    else if Key(rows[0]) in seen then DedupFrom(rows[1..], seen)
    else [rows[0]] + DedupFrom(rows[1..], seen + {Key(rows[0])})
  }

  /** `drop_duplicates(subset=key)` with the default `keep="first"`. */
  function Dedup(rows: seq<Row>): seq<Row> {
    DedupFrom(rows, {})
  }

  /** Every row kept is an input row whose key was not yet seen. */
  lemma {:induction false} DedupFromSubset(rows: seq<Row>, seen: set<(string, string, int)>)
    ensures forall x :: x in DedupFrom(rows, seen) ==> x in rows && Key(x) !in seen
    decreases |rows|
  {
    if rows != [] {
      DedupFromSubset(rows[1..], seen);
      DedupFromSubset(rows[1..], seen + {Key(rows[0])});
    }
  }

  lemma {:induction false} DedupFromUnique(rows: seq<Row>, seen: set<(string, string, int)>)
    ensures UniqueKeys(DedupFrom(rows, seen))
    decreases |rows|
  {
    if rows != [] && Key(rows[0]) !in seen {
      var seen' := seen + {Key(rows[0])};
      DedupFromUnique(rows[1..], seen');
      DedupFromSubset(rows[1..], seen');
      var tail := DedupFrom(rows[1..], seen');
      var r := [rows[0]] + tail;
      forall i, j | 0 <= i < j < |r| ensures Key(r[i]) != Key(r[j]) {
        if i == 0 {
          assert r[j] == tail[j - 1] && r[j] in tail;
        } else {
          assert r[i] == tail[i - 1] && r[j] == tail[j - 1];
        }
      }
    } else if rows != [] {
      DedupFromUnique(rows[1..], seen);
    }
  }

  lemma {:induction false} DedupFromComplete(rows: seq<Row>, seen: set<(string, string, int)>)
    ensures forall x :: x in rows && Key(x) !in seen ==> exists y :: y in DedupFrom(rows, seen) && Key(y) == Key(x)
    decreases |rows|
  {
    if rows != [] {
      var x0 := rows[0];
      if Key(x0) in seen {
        DedupFromComplete(rows[1..], seen);
        forall x | x in rows && Key(x) !in seen ensures x in rows[1..] {
          assert rows == [x0] + rows[1..];
        }
      } else {
        var seen' := seen + {Key(x0)};
        DedupFromComplete(rows[1..], seen');
        var r := DedupFrom(rows, seen);
        forall x | x in rows && Key(x) !in seen ensures exists y :: y in r && Key(y) == Key(x) {
          if Key(x) == Key(x0) {
            assert x0 in r;
          } else {
            assert rows == [x0] + rows[1..];
            assert x in rows[1..];
            var y :| y in DedupFrom(rows[1..], seen') && Key(y) == Key(x);
            assert y in r;
          }
        }
      }
    }
  }

  lemma {:induction false} DedupFromSorted(rows: seq<Row>, seen: set<(string, string, int)>)
    requires SortedByTs(rows)
    ensures SortedByTs(DedupFrom(rows, seen))
    decreases |rows|
  {
    if rows != [] {
      var x0 := rows[0];
      var seen' := if Key(x0) in seen then seen else seen + {Key(x0)};
      DedupFromSorted(rows[1..], seen');
      if Key(x0) !in seen {
        DedupFromSubset(rows[1..], seen');
        var tail := DedupFrom(rows[1..], seen');
        var r := [x0] + tail;
        forall i, j | 0 <= i < j < |r| ensures r[i].ts <= r[j].ts {
          if i == 0 {
            assert r[j] == tail[j - 1] && tail[j - 1] in rows[1..];
            var k :| 0 <= k < |rows[1..]| && rows[1..][k] == tail[j - 1];
            assert rows[k + 1] == r[j];
          } else {
            assert r[i] == tail[i - 1] && r[j] == tail[j - 1];
          }
        }
      }
    }
  }

  /**
   * After `drop_duplicates` on the key, no key repeats; every row left is an original row;
   * every key of the input is still present; and ordered rows stay ordered.
   */
  lemma DedupSpec(rows: seq<Row>)
    ensures var r := Dedup(rows);
      && UniqueKeys(r)
      && (forall x :: x in r ==> x in rows)
      && (forall x :: x in rows ==> exists y :: y in r && Key(y) == Key(x))
      && (SortedByTs(rows) ==> SortedByTs(r))
  {
    DedupFromSubset(rows, {});
    DedupFromUnique(rows, {});
    DedupFromComplete(rows, {});
    if SortedByTs(rows) {
      DedupFromSorted(rows, {});
    }
  }

  /** With one location, unique keys and order by `ts` mean strictly increasing timestamps. */
  lemma UniqueSortedIncreasing(rows: seq<Row>, lat: string, lon: string)
    requires UniqueKeys(rows) && SortedByTs(rows)
    requires forall x :: x in rows ==> x.lat == lat && x.lon == lon
    ensures forall i, j :: 0 <= i < j < |rows| ==> rows[i].ts < rows[j].ts
  {
    forall i, j | 0 <= i < j < |rows| ensures rows[i].ts < rows[j].ts {
      assert rows[i] in rows && rows[j] in rows;
      assert Key(rows[i]) != Key(rows[j]);
    }
  }

  /** `missing_data["latitude"] = lat; missing_data["longitude"] = lon`. */
  function Stamp(rows: seq<Row>, lat: string, lon: string): (r: seq<Row>)
    ensures |r| == |rows|
    ensures forall i :: 0 <= i < |r| ==> r[i] == rows[i].(lat := lat, lon := lon)
  {
    seq(|rows|, i requires 0 <= i < |rows| => rows[i].(lat := lat, lon := lon))
  }

  lemma StampSorted(rows: seq<Row>, lat: string, lon: string)
    requires SortedByTs(rows)
    ensures SortedByTs(Stamp(rows, lat, lon))
  {
  }

  lemma StampMembers(rows: seq<Row>, lat: string, lon: string)
    ensures forall y :: y in Stamp(rows, lat, lon) ==> exists x :: x in rows && y == x.(lat := lat, lon := lon)
    ensures forall x :: x in rows ==> x.(lat := lat, lon := lon) in Stamp(rows, lat, lon)
  {
    var r := Stamp(rows, lat, lon);
    forall y | y in r ensures exists x :: x in rows && y == x.(lat := lat, lon := lon) {
      var i :| 0 <= i < |r| && r[i] == y;
      assert rows[i] in rows;
    }
    forall x | x in rows ensures x.(lat := lat, lon := lon) in r {
      var i :| 0 <= i < |rows| && rows[i] == x;
      assert r[i] == x.(lat := lat, lon := lon);
    }
  }

  /**
   * `sort_values(by=["ts"])`, the location columns set, then `drop_duplicates` on the key:
   * how the providers finish the rows they download.
   */
  function Tidy(rows: seq<Row>, lat: string, lon: string): seq<Row> {
    Dedup(Stamp(SortByTs(rows), lat, lon))
  }

  /**
   * The finished rows are ordered by `ts` with one row per key; each is a downloaded row
   * moved to the location, and every downloaded hour is still there.
   */
  lemma TidySpec(rows: seq<Row>, lat: string, lon: string)
    ensures var r := Tidy(rows, lat, lon);
      && SortedByTs(r) && UniqueKeys(r)
      && (forall y :: y in r ==> y.lat == lat && y.lon == lon)
      && (forall y :: y in r ==> exists x :: x in rows && y == x.(lat := lat, lon := lon))
      && (forall x :: x in rows ==> exists y :: y in r && y.ts == x.ts)
  {
    var sorted := SortByTs(rows);
    var stamped := Stamp(sorted, lat, lon);
    SortByTsSpec(rows);
    SortByTsMembers(rows);
    StampSorted(sorted, lat, lon);
    StampMembers(sorted, lat, lon);
    DedupSpec(stamped);
    var r := Dedup(stamped);
    forall x | x in rows ensures exists y :: y in r && y.ts == x.ts {
      assert x.(lat := lat, lon := lon) in stamped;
    }
  }

  /** A finished row comes from a downloaded row `x`, moved to the location. */
  lemma TidyFrom(rows: seq<Row>, lat: string, lon: string, y: Row) returns (x: Row)
    requires y in Tidy(rows, lat, lon)
    ensures x in rows && y == x.(lat := lat, lon := lon)
  {
    TidySpec(rows, lat, lon);
    x :| x in rows && y == x.(lat := lat, lon := lon);
  }
}
