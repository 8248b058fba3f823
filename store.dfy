/**
 * The HBase table as the weather code sees it: rows kept in byte order of their keys, each
 * holding a map from column name to value, written by batched puts and read by range scans
 * with a row limit; and the paginated reader `get_hbase_data_batch` built on those scans.
 */
module Store {
  import opened Wrappers
  import opened Lex
  import opened Utf8
  import opened Keys

  type Columns = map<Bytes, Bytes>

  /** A row as a scan returns it: its key and its columns. */
  datatype Entry = Entry(key: Bytes, cols: Columns)

  /** A `batch.put(row, data)`. */
  datatype Mutation = Mutation(row: Bytes, values: Columns)

  lemma LessEqAntisymmetric(a: Bytes, b: Bytes)
    requires LessEq(a, b) && LessEq(b, a)
    ensures a == b
  {
    if a != b { Asymmetric(a, b); }
  }

  lemma {:induction false} MinExists(s: set<Bytes>)
    requires s != {}
    ensures exists m :: m in s && forall x :: x in s ==> LessEq(m, x)
    decreases |s|
  {
    var y :| y in s;
    if s != {y} {
      MinExists(s - {y});
      var m :| m in s - {y} && forall x :: x in s - {y} ==> LessEq(m, x);
      Total(m, y);
      if Less(y, m) {
        forall x | x in s ensures LessEq(y, x) {
          if x != y && x != m {
            assert x in s - {y};
            Transitive(y, m, x);
          }
        }
      } else {
        assert forall x :: x in s ==> LessEq(m, x);
      }
    }
  }

  /** The least key of a non-empty set of keys. */
  function SetMin(s: set<Bytes>): (m: Bytes)
    requires s != {}
    ensures m in s && forall x :: x in s ==> LessEq(m, x)
  {
    MinExists(s);
    var m :| m in s && forall x :: x in s ==> LessEq(m, x);
    forall m' | m' in s && (forall x :: x in s ==> LessEq(m', x)) ensures m' == m {
      LessEqAntisymmetric(m, m');
    }
    m
  }

  predicate StrictlyIncreasing(ks: seq<Bytes>) {
    forall i, j :: 0 <= i < j < |ks| ==> Less(ks[i], ks[j])
  }

  /** The keys of a set in increasing byte order. */
  function SortedKeys(s: set<Bytes>): (r: seq<Bytes>)
    ensures |r| == |s| && StrictlyIncreasing(r)
    ensures forall x :: x in r <==> x in s
    decreases |s|
  {
    if s == {} then []
    else
      var m := SetMin(s);
      var rest := SortedKeys(s - {m});
      forall j | 0 <= j < |rest| ensures Less(m, rest[j]) {
        assert rest[j] in rest;
      }
      [m] + rest
  }

  predicate Sorted(t: seq<Entry>) {
    forall i, j :: 0 <= i < j < |t| ==> Less(t[i].key, t[j].key)
  }

  predicate KeysNonEmpty(t: seq<Entry>) {
    forall i :: 0 <= i < |t| ==> |t[i].key| > 0
  }

  /** No stored key is a proper prefix of another, as with equal-width timestamps in `lat~lon~ts`. */
  predicate PrefixFree(t: seq<Entry>) {
    forall i, j :: 0 <= i < |t| && 0 <= j < |t| ==> !IsProperPrefix(t[i].key, t[j].key)
  }

  /** The put a mutation performs: its columns are merged into the row; no columns, no change. */
  function ApplyPut(rows: map<Bytes, Columns>, m: Mutation): (r: map<Bytes, Columns>)
    ensures m.values == map[] ==> r == rows
    ensures m.values != map[] ==> m.row in r && r[m.row].Keys == (if m.row in rows then rows[m.row].Keys else {}) + m.values.Keys
    ensures m.values != map[] ==> forall c :: c in m.values ==> r[m.row][c] == m.values[c]
    ensures m.values != map[] ==>
      forall c :: m.row in rows && c in rows[m.row] && c !in m.values ==> r[m.row][c] == rows[m.row][c]
    ensures forall k :: k in r && k != m.row ==> k in rows && r[k] == rows[k]
  {
    if m.values == map[] then rows
    else rows[m.row := (if m.row in rows then rows[m.row] else map[]) + m.values]
  }

  /** Every put of the batch names a row: HBase refuses a zero-length row key, with or without cells. */
  predicate KeysGiven(batch: seq<Mutation>) {
    forall i :: 0 <= i < |batch| ==> |batch[i].row| > 0
  }

  /** A batch applies its puts in order. */
  function ApplyAll(rows: map<Bytes, Columns>, batch: seq<Mutation>): map<Bytes, Columns>
    decreases |batch|
  {
    if batch == [] then rows else ApplyAll(ApplyPut(rows, batch[0]), batch[1..])
  }

  /** The rows of a table in key order. */
  function EntriesOf(rows: map<Bytes, Columns>): (t: seq<Entry>)
    ensures Sorted(t)
  {
    var ks := SortedKeys(rows.Keys);
    seq(|ks|, i requires 0 <= i < |ks| => Entry(ks[i], rows[ks[i]]))
  }

  /** The ordered rows are exactly the table's rows, with non-empty keys when the table's are. */
  lemma EntriesOfSpec(rows: map<Bytes, Columns>)
    ensures var t := EntriesOf(rows);
      && |t| == |rows|
      && (forall i :: 0 <= i < |t| ==> t[i].key in rows && t[i].cols == rows[t[i].key])
      && (forall k :: k in rows ==> exists i :: 0 <= i < |t| && t[i].key == k)
      && ((forall k :: k in rows ==> |k| > 0) ==> KeysNonEmpty(t))
  {
    var ks := SortedKeys(rows.Keys);
    var t := EntriesOf(rows);
    assert |rows.Keys| == |rows|;
    forall k | k in rows ensures exists i :: 0 <= i < |t| && t[i].key == k {
      assert k in ks;
      var i :| 0 <= i < |ks| && ks[i] == k;
      assert t[i].key == k;
    }
    forall i | 0 <= i < |t| ensures t[i].key in rows {
      assert ks[i] in ks;
    }
  }

  lemma EntriesNonEmpty(rows: map<Bytes, Columns>)
    requires forall k :: k in rows ==> |k| > 0
    ensures KeysNonEmpty(EntriesOf(rows))
  {
    EntriesOfSpec(rows);
  }

  class Table {
    var rows: map<Bytes, Columns>

    /** HBase row keys are never empty. */
    ghost predicate Valid()
      reads this
    {
      forall k :: k in rows ==> |k| > 0
    }

    constructor ()
      ensures rows == map[] && Valid()
    {
      rows := map[];
    }

    /** The rows in key order. */
    function Entries(): seq<Entry>
      reads this
    {
      EntriesOf(rows)
    }

    /**
     * `batch.send()` of the puts collected in a batch: applied in order when every put names a
     * row; otherwise the server refuses the batch, the call raises and no row changes.
     */
    method Send(batch: seq<Mutation>) returns (ok: bool)
      requires Valid()
      modifies this
      ensures ok == KeysGiven(batch)
      ensures ok ==> rows == ApplyAll(old(rows), batch)
      ensures !ok ==> rows == old(rows)
      ensures Valid()
    {
      ok := true;
      var j := 0;
      while j < |batch|
        invariant 0 <= j <= |batch|
        invariant ok == KeysGiven(batch[..j])
      {
        if |batch[j].row| == 0 {
          ok := false;
        }
        assert batch[..j + 1] == batch[..j] + [batch[j]];
        j := j + 1;
      }
      assert batch[..|batch|] == batch;
      if !ok {
        return;
      }
      var i := 0;
      while i < |batch|
        invariant 0 <= i <= |batch| && Valid()
        invariant ApplyAll(rows, batch[i..]) == ApplyAll(old(rows), batch)
      {
        assert batch[i..][1..] == batch[i + 1..];
        rows := ApplyPut(rows, batch[i]);
        i := i + 1;
      }
    }
  }

  // ---- range scans over the ordered rows ----

  predicate Below(k: Bytes, stop: Option<Bytes>) {
    stop.None? || Less(k, stop.value)
  }

  /** The index of the first row whose key is not below `start`. */
  function LowerBound(t: seq<Entry>, start: Bytes): (r: nat)
    ensures r <= |t|
    decreases |t|
  {
    if |t| == 0 || !Less(t[0].key, start) then 0 else 1 + LowerBound(t[1..], start)
  }

  /** Every row before the lower bound is below `start`, and the row at it is not. */
  lemma {:induction false} LowerBoundSpec(t: seq<Entry>, start: Bytes)
    ensures forall i :: 0 <= i < LowerBound(t, start) ==> Less(t[i].key, start)
    ensures LowerBound(t, start) < |t| ==> !Less(t[LowerBound(t, start)].key, start)
    decreases |t|
  {
    if |t| > 0 && Less(t[0].key, start) {
      LowerBoundSpec(t[1..], start);
      forall i | 0 < i < LowerBound(t, start) ensures Less(t[i].key, start) {
        assert t[i] == t[1..][i - 1];
      }
    }
  }

  lemma LowerBoundAtLeast(t: seq<Entry>, start: Bytes, j: nat)
    requires Sorted(t) && 0 < j <= |t| && Less(t[j - 1].key, start)
    ensures LowerBound(t, start) >= j
  {
    LowerBoundSpec(t, start);
    var r := LowerBound(t, start);
    if r < j - 1 {
      Transitive(t[r].key, t[j - 1].key, start);
    }
  }

  lemma LowerBoundAtMost(t: seq<Entry>, start: Bytes, j: nat)
    requires j < |t| && !Less(t[j].key, start)
    ensures LowerBound(t, start) <= j
  {
    LowerBoundSpec(t, start);
  }

  /** The longest prefix of `s` whose keys are below `stop`. */
  function Run(s: seq<Entry>, stop: Option<Bytes>): (r: seq<Entry>)
    ensures |r| <= |s|
    decreases |s|
  {
    if |s| == 0 || !Below(s[0].key, stop) then [] else [s[0]] + Run(s[1..], stop)
  }

  /** The run is a prefix of `s`, below `stop`, ended by the first row that is not. */
  lemma {:induction false} RunSpec(s: seq<Entry>, stop: Option<Bytes>)
    ensures Run(s, stop) == s[..|Run(s, stop)|]
    ensures forall i :: 0 <= i < |Run(s, stop)| ==> Below(s[i].key, stop)
    ensures |Run(s, stop)| < |s| ==> !Below(s[|Run(s, stop)|].key, stop)
    decreases |s|
  {
    if |s| > 0 && Below(s[0].key, stop) {
      RunSpec(s[1..], stop);
      var tail := Run(s[1..], stop);
      assert Run(s, stop) == [s[0]] + tail;
      assert s[..|tail| + 1] == [s[0]] + s[1..][..|tail|];
      forall i | 0 < i < |tail| + 1 ensures Below(s[i].key, stop) {
        assert s[i] == s[1..][i - 1];
      }
      if |tail| + 1 < |s| {
        assert s[|tail| + 1] == s[1..][|tail|];
      }
    }
  }

  lemma {:induction false} RunDrop(s: seq<Entry>, stop: Option<Bytes>, k: nat)
    requires k <= |Run(s, stop)|
    ensures Run(s[k..], stop) == Run(s, stop)[k..]
    decreases k
  {
    if k > 0 {
      assert s[k..] == s[1..][k - 1..];
      RunDrop(s[1..], stop, k - 1);
    }
  }

  function Take(s: seq<Entry>, n: nat): (r: seq<Entry>)
    ensures |r| == (if n < |s| then n else |s|) && r == s[..|r|]
  {
    if n < |s| then s[..n] else s
  }

  /** The rows with `start <= key < stop`, in key order. */
  function InRange(t: seq<Entry>, start: Bytes, stop: Option<Bytes>): seq<Entry> {
    Run(t[LowerBound(t, start)..], stop)
  }

  /** The first `limit` rows with `start <= key < stop`, as a scan returns them. */
  function ScanSeq(t: seq<Entry>, start: Bytes, stop: Option<Bytes>, limit: nat): seq<Entry> {
    Take(InRange(t, start, stop), limit)
  }

  /** A scan of ordered rows returns consecutive rows of the table, all in range. */
  lemma ScanSeqSpec(t: seq<Entry>, start: Bytes, stop: Option<Bytes>, limit: nat)
    requires Sorted(t)
    ensures var r := ScanSeq(t, start, stop, limit); var lb := LowerBound(t, start);
      && |r| <= limit && lb + |r| <= |t| && r == t[lb..lb + |r|]
      && (forall i :: 0 <= i < |r| ==> !Less(r[i].key, start) && Below(r[i].key, stop))
  {
    var lb := LowerBound(t, start);
    var r := ScanSeq(t, start, stop, limit);
    LowerBoundSpec(t, start);
    RunSpec(t[lb..], stop);
    assert r == t[lb..lb + |r|];
    forall i | 0 <= i < |r| ensures !Less(r[i].key, start) && Below(r[i].key, stop) {
      assert r[i] == t[lb + i] == t[lb..][i];
      if i > 0 && Less(t[lb + i].key, start) {
        Transitive(t[lb].key, t[lb + i].key, start);
      }
    }
  }

  // ---- get_hbase_data_batch ----

  function Min(a: int, b: int): int { if a < b then a else b }

  /** All rows of a sequence of pages, in order. */
  function Flatten(pages: seq<seq<Entry>>): seq<Entry>
    decreases |pages|
  {
    if pages == [] then [] else Flatten(pages[..|pages| - 1]) + pages[|pages| - 1]
  }

  lemma FlattenAppend(pages: seq<seq<Entry>>, page: seq<Entry>)
    ensures Flatten(pages + [page]) == Flatten(pages) + page
  {
    assert (pages + [page])[..|pages|] == pages;
  }

  /**
   * The row limit of the scan made once `count` rows have been yielded: `min(batch_size,
   * limit - count)` under a limit (for the first scan `min(limit, batch_size)`), else `batch_size`.
   * A `limit` of 0 is falsy in the source and means no limit.
   */
  function PageLimit(batch: nat, limit: nat, count: nat): nat {
    if limit > 0 && count < limit then Min(batch, limit - count) else batch
  }

  /** A non-empty page moves the scan start strictly forward, past the page. */
  lemma PagesProgress(t: seq<Entry>, start: Bytes, stop: Option<Bytes>, cur: nat, data: seq<Entry>)
    requires Sorted(t) && KeysNonEmpty(t) && data == ScanSeq(t, start, stop, cur) && data != []
    ensures |data[|data| - 1].key| > 0
    ensures LowerBound(t, Successor(data[|data| - 1].key)) >= LowerBound(t, start) + |data|
  {
    ScanSeqSpec(t, start, stop, cur);
    assert data[|data| - 1] == t[LowerBound(t, start) + |data| - 1];
    LowerBoundAtLeast(t, Successor(data[|data| - 1].key), LowerBound(t, start) + |data|);
  }

  /**
   * Everything the generator yields, given the pages `done` it has yielded before scanning
   * from `start`: the next page is a scan limited by `PageLimit`; an empty page ends the
   * generator, and so does reaching `limit` rows; otherwise it resumes after the page's last key.
   * The final yield is always `[]`.
   */
  function PagesFrom(t: seq<Entry>, start: Bytes, stop: Option<Bytes>, batch: nat, limit: nat,
                     done: seq<seq<Entry>>): seq<seq<Entry>>
    requires Sorted(t) && KeysNonEmpty(t)
    decreases |t| - LowerBound(t, start)
  {
    var data := ScanSeq(t, start, stop, PageLimit(batch, limit, |Flatten(done)|));
    if data == [] then done + [[]]
    else if limit > 0 && |Flatten(done)| + |data| >= limit then done + [data, []]
    else
      PagesProgress(t, start, stop, PageLimit(batch, limit, |Flatten(done)|), data);
      PagesFrom(t, Successor(data[|data| - 1].key), stop, batch, limit, done + [data])
  }

  lemma PagesFromEmpty(t: seq<Entry>, start: Bytes, stop: Option<Bytes>, batch: nat, limit: nat,
                       done: seq<seq<Entry>>, data: seq<Entry>)
    requires Sorted(t) && KeysNonEmpty(t)
    requires data == ScanSeq(t, start, stop, PageLimit(batch, limit, |Flatten(done)|)) && data == []
    ensures PagesFrom(t, start, stop, batch, limit, done) == done + [[]]
  {
  }

  lemma PagesFromLast(t: seq<Entry>, start: Bytes, stop: Option<Bytes>, batch: nat, limit: nat,
                      done: seq<seq<Entry>>, data: seq<Entry>)
    requires Sorted(t) && KeysNonEmpty(t)
    requires data == ScanSeq(t, start, stop, PageLimit(batch, limit, |Flatten(done)|)) && data != []
    requires limit > 0 && |Flatten(done)| + |data| >= limit
    ensures PagesFrom(t, start, stop, batch, limit, done) == done + [data, []]
  {
  }

  lemma PagesFromNext(t: seq<Entry>, start: Bytes, stop: Option<Bytes>, batch: nat, limit: nat,
                      done: seq<seq<Entry>>, data: seq<Entry>)
    requires Sorted(t) && KeysNonEmpty(t)
    requires data == ScanSeq(t, start, stop, PageLimit(batch, limit, |Flatten(done)|)) && data != []
    requires !(limit > 0 && |Flatten(done)| + |data| >= limit)
    ensures |data[|data| - 1].key| > 0
    ensures PagesFrom(t, start, stop, batch, limit, done)
         == PagesFrom(t, Successor(data[|data| - 1].key), stop, batch, limit, done + [data])
  {
    PagesProgress(t, start, stop, PageLimit(batch, limit, |Flatten(done)|), data);
    var next := Successor(data[|data| - 1].key);
    var done' := done + [data];
    assert PagesFrom(t, start, stop, batch, limit, done) == PagesFrom(t, next, stop, batch, limit, done');
  }

  // ---- what the generator yields ----

  /** Rows as the scans from `start` return them: ascending, from the table, in range. */
  predicate InScan(t: seq<Entry>, start: Bytes, stop: Option<Bytes>, rows: seq<Entry>) {
    && Sorted(rows)
    && forall i :: 0 <= i < |rows| ==> rows[i] in t && !Less(rows[i].key, start) && Below(rows[i].key, stop)
  }

  lemma ScanInScan(t: seq<Entry>, start: Bytes, stop: Option<Bytes>, cur: nat)
    requires Sorted(t)
    ensures InScan(t, start, stop, ScanSeq(t, start, stop, cur))
  {
    var data := ScanSeq(t, start, stop, cur);
    var lb := LowerBound(t, start);
    ScanSeqSpec(t, start, stop, cur);
    forall i, j | 0 <= i < j < |data| ensures Less(data[i].key, data[j].key) {
      assert data[i] == t[lb + i] && data[j] == t[lb + j];
    }
    forall i | 0 <= i < |data| ensures data[i] in t {
      assert data[i] == t[lb + i];
    }
  }

  /** A page followed by rows from after its last key is still a scan from the page's start. */
  lemma InScanJoin(t: seq<Entry>, start: Bytes, stop: Option<Bytes>, data: seq<Entry>, k: Bytes, rest: seq<Entry>)
    requires InScan(t, start, stop, data) && data != [] && Less(data[|data| - 1].key, k)
    requires InScan(t, k, stop, rest)
    ensures InScan(t, start, stop, data + rest)
  {
    var last := data[|data| - 1].key;
    var all := data + rest;
    forall j | 0 <= j < |rest| ensures Less(last, rest[j].key) && !Less(rest[j].key, start) {
      Total(k, rest[j].key);
      if k != rest[j].key {
        Transitive(last, k, rest[j].key);
      }
      if Less(rest[j].key, start) {
        Transitive(last, rest[j].key, start);
      }
    }
    forall i, j | 0 <= i < j < |all| ensures Less(all[i].key, all[j].key) {
      if j >= |data| {
        assert all[j] == rest[j - |data|];
        if i < |data| {
          assert all[i] == data[i];
          if i < |data| - 1 {
            Transitive(data[i].key, last, rest[j - |data|].key);
          }
        } else {
          assert all[i] == rest[i - |data|];
        }
      }
    }
    forall i | 0 <= i < |all|
      ensures all[i] in t && !Less(all[i].key, start) && Below(all[i].key, stop)
    {
      if i >= |data| {
        assert all[i] == rest[i - |data|];
      }
    }
  }

  /** The next scan after a page of a prefix-free table starts exactly where the page ended. */
  lemma ResumeRange(t: seq<Entry>, start: Bytes, stop: Option<Bytes>, cur: nat, data: seq<Entry>)
    requires Sorted(t) && KeysNonEmpty(t) && PrefixFree(t)
    requires data == ScanSeq(t, start, stop, cur) && data != [] && |data[|data| - 1].key| > 0
    ensures InRange(t, Successor(data[|data| - 1].key), stop) == InRange(t, start, stop)[|data|..]
  {
    var lb := LowerBound(t, start);
    var m := lb + |data|;
    var last := data[|data| - 1].key;
    PagesProgress(t, start, stop, cur, data);
    ScanSeqSpec(t, start, stop, cur);
    assert last == t[m - 1].key;
    var k := Successor(last);
    if m < |t| {
      if Less(t[m].key, k) {
        SuccessorBetween(last, t[m].key);
        assert false;
      }
      LowerBoundAtMost(t, k, m);
    }
    assert LowerBound(t, k) == m;
    assert t[m..] == t[lb..][|data|..];
    RunDrop(t[lb..], stop, |data|);
  }

  /**
   * What holds after each page the generator keeps going from: every page so far is
   * non-empty and within `batch_size`; their rows are a scan from `start0`, all below the
   * next `start`; under a limit they are fewer than `limit`; and on a table where no key is a
   * proper prefix of another (the `lat~lon~ts` keys of one location with equal-width
   * timestamps are), the rows so far followed by the rest of the range from `start` are the
   * whole range from `start0`.
   */
  predicate Yielded(t: seq<Entry>, start0: Bytes, start: Bytes, stop: Option<Bytes>, batch: nat, limit: nat,
                    pages: seq<seq<Entry>>)
  {
    && Sorted(t) && KeysNonEmpty(t) && batch >= 1
    && (forall i :: 0 <= i < |pages| ==> 0 < |pages[i]| <= batch)
    && InScan(t, start0, stop, Flatten(pages))
    && (Flatten(pages) == [] ==> start == start0)
    && (Flatten(pages) != [] ==> Less(Flatten(pages)[|Flatten(pages)| - 1].key, start))
    && (limit > 0 ==> |Flatten(pages)| < limit)
    && (PrefixFree(t) ==> Flatten(pages) + InRange(t, start, stop) == InRange(t, start0, stop))
  }

  /**
   * What the generator has yielded when it stops: the last yield is `[]` and every page
   * before it holds between 1 and `batch_size` rows; the rows are a scan from `start0`;
   * under a limit there are at most `limit` of them; and on a prefix-free table they are
   * exactly the first `limit` rows of the range (all of them without a limit).
   */
  predicate Final(t: seq<Entry>, start0: Bytes, stop: Option<Bytes>, batch: nat, limit: nat, pages: seq<seq<Entry>>) {
    && |pages| > 0 && pages[|pages| - 1] == []
    && (forall i :: 0 <= i < |pages| - 1 ==> 0 < |pages[i]| <= batch)
    && InScan(t, start0, stop, Flatten(pages))
    && (limit > 0 ==> |Flatten(pages)| <= limit)
    && (PrefixFree(t) ==>
          Flatten(pages) == (if limit > 0 then Take(InRange(t, start0, stop), limit) else InRange(t, start0, stop)))
  }

  lemma YieldedStart(t: seq<Entry>, start0: Bytes, stop: Option<Bytes>, batch: nat, limit: nat)
    requires Sorted(t) && KeysNonEmpty(t) && batch >= 1
    ensures Yielded(t, start0, start0, stop, batch, limit, [])
  {
    assert InRange(t, start0, stop) == [] + InRange(t, start0, stop);
  }

  /** A non-empty page joins the rows yielded before it into one longer scan from `start0`. */
  lemma JoinPage(t: seq<Entry>, start0: Bytes, start: Bytes, stop: Option<Bytes>, batch: nat, limit: nat,
                 pages: seq<seq<Entry>>, data: seq<Entry>)
    requires Yielded(t, start0, start, stop, batch, limit, pages)
    requires data == ScanSeq(t, start, stop, PageLimit(batch, limit, |Flatten(pages)|)) && data != []
    ensures 0 < |data| <= PageLimit(batch, limit, |Flatten(pages)|) <= batch
    ensures Flatten(pages + [data]) == Flatten(pages) + data
    ensures InScan(t, start0, stop, Flatten(pages) + data)
  {
    var f := Flatten(pages);
    ScanSeqSpec(t, start, stop, PageLimit(batch, limit, |f|));
    ScanInScan(t, start, stop, PageLimit(batch, limit, |f|));
    FlattenAppend(pages, data);
    if f == [] {
      assert f + data == data;
    } else {
      InScanJoin(t, start0, stop, f, start, data);
    }
  }

  /** An empty page ends the generator with everything the range still held under the limit. */
  lemma YieldedEmpty(t: seq<Entry>, start0: Bytes, start: Bytes, stop: Option<Bytes>, batch: nat, limit: nat,
                     pages: seq<seq<Entry>>, data: seq<Entry>)
    requires Yielded(t, start0, start, stop, batch, limit, pages)
    requires data == ScanSeq(t, start, stop, PageLimit(batch, limit, |Flatten(pages)|)) && data == []
    ensures Final(t, start0, stop, batch, limit, pages + [[]])
  {
    var f := Flatten(pages);
    FlattenAppend(pages, []);
    assert f + [] == f;
    if PrefixFree(t) {
      var ir := InRange(t, start, stop);
      assert PageLimit(batch, limit, |f|) >= 1;
      assert ir == [];
      assert f + ir == f;
    }
  }

  /** The page that reaches the limit is the last one before `[]`, and it completes the limit. */
  lemma YieldedLast(t: seq<Entry>, start0: Bytes, start: Bytes, stop: Option<Bytes>, batch: nat, limit: nat,
                    pages: seq<seq<Entry>>, data: seq<Entry>)
    requires Yielded(t, start0, start, stop, batch, limit, pages)
    requires data == ScanSeq(t, start, stop, PageLimit(batch, limit, |Flatten(pages)|)) && data != []
    requires limit > 0 && |Flatten(pages)| + |data| >= limit
    ensures Final(t, start0, stop, batch, limit, pages + [data, []])
  {
    var f := Flatten(pages);
    JoinPage(t, start0, start, stop, batch, limit, pages, data);
    assert pages + [data, []] == (pages + [data]) + [[]];
    FlattenAppend(pages + [data], []);
    assert (f + data) + [] == f + data;
    if PrefixFree(t) {
      TakeAfter(f, InRange(t, start, stop), limit, data);
    }
  }

  /** A page that completes the limit after rows `f` is the prefix of the remaining rows it needs. */
  lemma TakeAfter(f: seq<Entry>, rest: seq<Entry>, limit: nat, data: seq<Entry>)
    requires |f| < limit && data == Take(rest, Min(|data|, limit - |f|)) && |f| + |data| >= limit
    ensures f + data == Take(f + rest, limit)
  {
    assert |data| == limit - |f|;
    assert (f + rest)[..limit] == f + rest[..limit - |f|];
  }

  /** On a prefix-free table, resuming after a page leaves exactly the rest of the range. */
  lemma NextRange(t: seq<Entry>, start0: Bytes, start: Bytes, stop: Option<Bytes>, batch: nat, limit: nat,
                  pages: seq<seq<Entry>>, data: seq<Entry>)
    requires Yielded(t, start0, start, stop, batch, limit, pages) && PrefixFree(t)
    requires data == ScanSeq(t, start, stop, PageLimit(batch, limit, |Flatten(pages)|)) && data != []
    requires |data[|data| - 1].key| > 0
    ensures Flatten(pages) + data + InRange(t, Successor(data[|data| - 1].key), stop) == InRange(t, start0, stop)
  {
    var f := Flatten(pages);
    var ir := InRange(t, start, stop);
    ResumeRange(t, start, stop, PageLimit(batch, limit, |f|), data);
    assert data + ir[|data|..] == ir;
    assert (f + data) + ir[|data|..] == f + ir;
  }

  /** Any other page moves the scan past its last key with every property kept. */
  lemma YieldedNext(t: seq<Entry>, start0: Bytes, start: Bytes, stop: Option<Bytes>, batch: nat, limit: nat,
                    pages: seq<seq<Entry>>, data: seq<Entry>)
    requires Yielded(t, start0, start, stop, batch, limit, pages)
    requires data == ScanSeq(t, start, stop, PageLimit(batch, limit, |Flatten(pages)|)) && data != []
    requires !(limit > 0 && |Flatten(pages)| + |data| >= limit)
    ensures |data[|data| - 1].key| > 0
    ensures Yielded(t, start0, Successor(data[|data| - 1].key), stop, batch, limit, pages + [data])
  {
    var f := Flatten(pages);
    JoinPage(t, start0, start, stop, batch, limit, pages, data);
    PagesProgress(t, start, stop, PageLimit(batch, limit, |f|), data);
    assert (f + data)[|f + data| - 1] == data[|data| - 1];
    if PrefixFree(t) {
      NextRange(t, start0, start, stop, batch, limit, pages, data);
    }
  }

  /** Where the scan starts and stops, a non-empty `row_prefix` overriding both bounds. */
  function Bounds(rowStart: Bytes, rowStop: Option<Bytes>, rowPrefix: Bytes): (Bytes, Option<Bytes>) {
    if |rowPrefix| > 0 then (rowPrefix, Some(Successor(rowPrefix))) else (rowStart, rowStop)
  }

  /** Everything the generator yields; happybase refuses a `batch_size` below 1 and a negative `limit`. */
  function DataBatch(t: seq<Entry>, rowStart: Bytes, rowStop: Option<Bytes>, rowPrefix: Bytes, batch: int, limit: int)
    : Result<seq<seq<Entry>>>
    requires Sorted(t) && KeysNonEmpty(t)
  {
    if batch < 1 then Err("'batch_size' must be >= 1")
    else if limit < 0 then Err("'limit' must be >= 1")
    else
      var (start, stop) := Bounds(rowStart, rowStop, rowPrefix);
      Ok(PagesFrom(t, start, stop, batch, limit, []))
  }

  /**
   * `get_hbase_data_batch`: validates the arguments, fixes the scan bounds and runs the
   * generator over the table's rows.
   */
  method GetDataBatch(table: Table, rowStart: Bytes, rowStop: Option<Bytes>, rowPrefix: Bytes, batch: int, limit: int)
    returns (r: Result<seq<seq<Entry>>>)
    requires table.Valid()
    ensures r == DataBatch(table.Entries(), rowStart, rowStop, rowPrefix, batch, limit)
    ensures r.Err? <==> batch < 1 || limit < 0
    ensures r.Ok? ==> Final(table.Entries(), Bounds(rowStart, rowStop, rowPrefix).0,
                            Bounds(rowStart, rowStop, rowPrefix).1, batch, limit, r.value)
  {
    if batch < 1 {
      return Err("'batch_size' must be >= 1");
    }
    if limit < 0 {
      return Err("'limit' must be >= 1");
    }
    var start, stop := rowStart, rowStop;
    if |rowPrefix| > 0 {
      start := rowPrefix;
      stop := Some(Successor(rowPrefix));
    }
    EntriesNonEmpty(table.rows);
    var pages := Paginate(table.Entries(), start, stop, batch, limit);
    return Ok(pages);
  }

  /** A row of the table inside the bounds is among the rows in range. */
  lemma InRangeHas(t: seq<Entry>, start: Bytes, stop: Option<Bytes>, j: nat)
    requires Sorted(t) && j < |t| && !Less(t[j].key, start) && Below(t[j].key, stop)
    ensures t[j] in InRange(t, start, stop)
  {
    var lb := LowerBound(t, start);
    LowerBoundAtMost(t, start, j);
    RunSpec(t[lb..], stop);
    var n := |Run(t[lb..], stop)|;
    if n <= j - lb {
      assert t[lb..][n] == t[lb + n];
      if lb + n < j {
        Transitive(t[lb + n].key, t[j].key, stop.value);
      }
      assert false;
    }
    assert InRange(t, start, stop)[j - lb] == t[lb..][j - lb] == t[j];
  }

  /** Every row a `row_prefix` scan yields starts with the prefix. */
  lemma PrefixScanSound(t: seq<Entry>, p: Bytes, rows: seq<Entry>)
    requires |p| > 0 && InScan(t, p, Some(Successor(p)), rows)
    ensures forall i :: 0 <= i < |rows| ==> |p| <= |rows[i].key| && rows[i].key[..|p|] == p
  {
    forall i | 0 <= i < |rows| ensures |p| <= |rows[i].key| && rows[i].key[..|p|] == p {
      PrefixRangeSound(p, rows[i].key);
    }
  }

  /** With a last byte below 0xFF, every row that starts with the prefix is in the prefix's range. */
  lemma PrefixScanComplete(t: seq<Entry>, p: Bytes, j: nat)
    requires Sorted(t) && |p| > 0 && p[|p| - 1] < 255
    requires j < |t| && |p| <= |t[j].key| && t[j].key[..|p|] == p
    ensures t[j] in InRange(t, p, Some(Successor(p)))
  {
    PrefixRangeComplete(p, t[j].key);
    InRangeHas(t, p, Some(Successor(p)), j);
  }

  /**
   * Resuming after a page's last key moves past every longer key that extends it: after
   * key `[1]` the scan resumes at `[2]`, and the stored key `[1, 5]` is never yielded.
   */
  lemma ResumeSkipsExtension()
    ensures var t := [Entry([1], map[]), Entry([1, 5], map[])];
      && Sorted(t) && ScanSeq(t, [], None, 1) == [t[0]]
      && Successor([1]) == [2] && InRange(t, Successor([1]), None) == []
  {
    var t := [Entry([1], map[]), Entry([1, 5], map[])];
    assert Less([1], [1, 5]);
    assert LowerBound(t, []) == 0;
    assert Less([1, 5], [2]);
    assert LowerBound(t[1..], [2]) == 1 + LowerBound(t[2..], [2]);
    assert LowerBound(t, [2]) == 2;
  }

  /** The state between two scans: the pages so far, and the rest as the spec continues them. */
  predicate Resumable(t: seq<Entry>, start0: Bytes, start: Bytes, stop: Option<Bytes>, batch: nat, limit: nat,
                      pages: seq<seq<Entry>>) {
    && Yielded(t, start0, start, stop, batch, limit, pages)
    && PagesFrom(t, start, stop, batch, limit, pages) == PagesFrom(t, start0, stop, batch, limit, [])
  }

  lemma StepEmpty(t: seq<Entry>, start0: Bytes, start: Bytes, stop: Option<Bytes>, batch: nat, limit: nat,
                  pages: seq<seq<Entry>>, data: seq<Entry>)
    requires Resumable(t, start0, start, stop, batch, limit, pages)
    requires data == ScanSeq(t, start, stop, PageLimit(batch, limit, |Flatten(pages)|)) && data == []
    ensures pages + [[]] == PagesFrom(t, start0, stop, batch, limit, [])
    ensures Final(t, start0, stop, batch, limit, pages + [[]])
  {
    PagesFromEmpty(t, start, stop, batch, limit, pages, data);
    YieldedEmpty(t, start0, start, stop, batch, limit, pages, data);
  }

  lemma StepLast(t: seq<Entry>, start0: Bytes, start: Bytes, stop: Option<Bytes>, batch: nat, limit: nat,
                 pages: seq<seq<Entry>>, data: seq<Entry>)
    requires Resumable(t, start0, start, stop, batch, limit, pages)
    requires data == ScanSeq(t, start, stop, PageLimit(batch, limit, |Flatten(pages)|)) && data != []
    requires limit > 0 && |Flatten(pages)| + |data| >= limit
    ensures pages + [data, []] == PagesFrom(t, start0, stop, batch, limit, [])
    ensures Final(t, start0, stop, batch, limit, pages + [data, []])
  {
    PagesFromLast(t, start, stop, batch, limit, pages, data);
    YieldedLast(t, start0, start, stop, batch, limit, pages, data);
  }

  lemma StepNext(t: seq<Entry>, start0: Bytes, start: Bytes, stop: Option<Bytes>, batch: nat, limit: nat,
                 pages: seq<seq<Entry>>, data: seq<Entry>)
    requires Resumable(t, start0, start, stop, batch, limit, pages)
    requires data == ScanSeq(t, start, stop, PageLimit(batch, limit, |Flatten(pages)|)) && data != []
    requires !(limit > 0 && |Flatten(pages)| + |data| >= limit)
    ensures |data[|data| - 1].key| > 0
    ensures Resumable(t, start0, Successor(data[|data| - 1].key), stop, batch, limit, pages + [data])
    ensures |Flatten(pages + [data])| == |Flatten(pages)| + |data|
    ensures LowerBound(t, start) < LowerBound(t, Successor(data[|data| - 1].key)) <= |t|
  {
    PagesProgress(t, start, stop, PageLimit(batch, limit, |Flatten(pages)|), data);
    LowerBoundSpec(t, Successor(data[|data| - 1].key));
    PagesFromNext(t, start, stop, batch, limit, pages, data);
    YieldedNext(t, start0, start, stop, batch, limit, pages, data);
    FlattenAppend(pages, data);
  }

  /** The generator's loop: scan, yield, count, adjust the page limit, resume after the last key. */
  method Paginate(t: seq<Entry>, start0: Bytes, stop: Option<Bytes>, batch: nat, limit: nat)
    returns (pages: seq<seq<Entry>>)
    requires Sorted(t) && KeysNonEmpty(t) && batch >= 1
    ensures pages == PagesFrom(t, start0, stop, batch, limit, [])
    ensures Final(t, start0, stop, batch, limit, pages)
  {
    var start := start0;
    var cur: nat;
    if limit > 0 {
      if limit > batch {
        cur := batch;
      } else {
        cur := limit;
      }
    } else {
      cur := batch;
    }
    var count: nat := 0;
    pages := [];
    YieldedStart(t, start0, stop, batch, limit);
    while true
      invariant count == |Flatten(pages)| && cur == PageLimit(batch, limit, count)
      invariant Resumable(t, start0, start, stop, batch, limit, pages)
      decreases |t| - LowerBound(t, start)
    {
      var data := ScanSeq(t, start, stop, cur);
      if data == [] {
        StepEmpty(t, start0, start, stop, batch, limit, pages, data);
        pages := pages + [[]];
        return;
      }
      if limit > 0 && count + |data| >= limit {
        // the page that reaches the limit is the last one before `[]`
        StepLast(t, start0, start, stop, batch, limit, pages, data);
        pages := pages + [data, []];
        return;
      }
      StepNext(t, start0, start, stop, batch, limit, pages, data);
      var last := data[|data| - 1].key;
      count := count + |data|;
      pages := pages + [data];
      if limit > 0 {
        cur := Min(batch, limit - count);
      }
      start := Successor(last);
    }
  }

  /** From any point the generator can resume at, the spec's pages end in the final state. */
  lemma ResumableFinal(t: seq<Entry>, start0: Bytes, start: Bytes, stop: Option<Bytes>, batch: nat, limit: nat,
                       pages: seq<seq<Entry>>)
    requires Resumable(t, start0, start, stop, batch, limit, pages)
    ensures Final(t, start0, stop, batch, limit, PagesFrom(t, start0, stop, batch, limit, []))
    decreases |t| - LowerBound(t, start)
  {
    var data := ScanSeq(t, start, stop, PageLimit(batch, limit, |Flatten(pages)|));
    if data == [] {
      StepEmpty(t, start0, start, stop, batch, limit, pages, data);
    } else if limit > 0 && |Flatten(pages)| + |data| >= limit {
      StepLast(t, start0, start, stop, batch, limit, pages, data);
    } else {
      StepNext(t, start0, start, stop, batch, limit, pages, data);
      ResumableFinal(t, start0, Successor(data[|data| - 1].key), stop, batch, limit, pages + [data]);
    }
  }

  /** What the generator yields in full meets `Final`. */
  lemma PagesFromFinal(t: seq<Entry>, start0: Bytes, stop: Option<Bytes>, batch: nat, limit: nat)
    requires Sorted(t) && KeysNonEmpty(t) && batch >= 1
    ensures Final(t, start0, stop, batch, limit, PagesFrom(t, start0, stop, batch, limit, []))
  {
    YieldedStart(t, start0, stop, batch, limit);
    ResumableFinal(t, start0, start0, stop, batch, limit, []);
  }
}
