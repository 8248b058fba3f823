/**
 * The CAMS radiation provider (`CAMS._get_historical_data_source`, `_get_historic_period`):
 * the gaps sorted by start and joined into download periods, each period widened to whole
 * local days and requested with the first registered mail that still has requests left,
 * and the downloaded hours sorted, stamped with the location and de-duplicated.
 */
module Cams {
  import opened Wrappers
  import opened Text
  import opened Calendar
  import opened Sorting
  import opened Records
  import opened Historical
  import opened Soda

  /** `datetime.timedelta(days=365)`. */
  const Year := 365 * Day

  // ---- gaps_df.sort_values(by=["ini"]) ----

  function GapIni(g: Gap): int { g.ini }

  function SortGaps(gaps: seq<Gap>): seq<Gap> {
    SortBy(GapIni, gaps)
  }

  /** The gaps come out ordered by start, and they are the same gaps. */
  lemma SortGapsSpec(gaps: seq<Gap>)
    ensures SortedBy(GapIni, SortGaps(gaps))
    ensures multiset(SortGaps(gaps)) == multiset(gaps)
  {
    SortBySpec(GapIni, gaps);
  }

  // ---- the join column ----

  /**
   * The `join` column as written: `isinstance(gaps_df.between_gaps, bool)` asks whether a
   * whole column is a `bool`, which it never is, so every flag is `False`.
   */
  function JoinAsWritten(gaps: seq<Gap>): (join: seq<bool>)
    ensures |join| == |gaps|
  {
    seq(|gaps|, _ => false)
  }

  /**
   * The `join` column as intended: a gap joins the next one when the next starts less than
   * a year after it ends. The last gap has no next start (`NaT`), and `NaT < x` is `False`.
   */
  function JoinFlags(gaps: seq<Gap>): (join: seq<bool>)
    ensures |join| == |gaps|
  {
    seq(|gaps|, i requires 0 <= i < |gaps| => i + 1 < |gaps| && gaps[i + 1].ini - gaps[i].end < Year)
  }

  // ---- the grouping loop ----

  /** The start of the group a gap belongs to: the open group's, or the gap's own. */
  function Start(open: Option<int>, g: Gap): int {
    if open.Some? then open.value else g.ini
  }

  /**
   * The groups the loop emits from the gaps still to visit, while a group opened at
   * `open` is pending. A pending group that no gap closes is never emitted.
   */
  function GroupFrom(gaps: seq<Gap>, join: seq<bool>, open: Option<int>): seq<Gap>
    requires |join| == |gaps|
    decreases |gaps|
  {
    if gaps == [] then []
    else if join[0] then GroupFrom(gaps[1..], join[1..], Some(Start(open, gaps[0])))
    else [Gap(Start(open, gaps[0]), gaps[0].end)] + GroupFrom(gaps[1..], join[1..], None)
  }

  function Groups(gaps: seq<Gap>, join: seq<bool>): seq<Gap>
    requires |join| == |gaps|
  {
    GroupFrom(gaps, join, None)
  }

  lemma GroupFromStep(gaps: seq<Gap>, join: seq<bool>, i: nat, open: Option<int>)
    requires |join| == |gaps| && i < |gaps|
    ensures GroupFrom(gaps[i..], join[i..], open)
         == if join[i] then GroupFrom(gaps[i + 1..], join[i + 1..], Some(Start(open, gaps[i])))
            else [Gap(Start(open, gaps[i]), gaps[i].end)] + GroupFrom(gaps[i + 1..], join[i + 1..], None)
  {
    assert gaps[i..][0] == gaps[i] && gaps[i..][1..] == gaps[i + 1..];
    assert join[i..][0] == join[i] && join[i..][1..] == join[i + 1..];
  }

  /**
   * The loop over `gaps_df.iterrows()`: a group opens at the first gap visited while none
   * is open and closes, with that gap's end, at the first gap whose flag is `False`.
   */
  method GroupGaps(gaps: seq<Gap>, join: seq<bool>) returns (newGaps: seq<Gap>)
    requires |join| == |gaps|
    ensures newGaps == Groups(gaps, join)
  {
    newGaps := [];
    var init := false;
    var current := 0;
    ghost var open: Option<int> := None;
    var i := 0;
    while i < |gaps|
      invariant 0 <= i <= |gaps|
      invariant open == if init then Some(current) else None
      invariant Groups(gaps, join) == newGaps + GroupFrom(gaps[i..], join[i..], open)
    {
      GroupFromStep(gaps, join, i, open);
      if !init {
        current := gaps[i].ini;
        init := true;
      }
      if !join[i] {
        var rest := GroupFrom(gaps[i + 1..], join[i + 1..], None);
        ConcatAssoc(newGaps, [Gap(current, gaps[i].end)], rest);
        newGaps := newGaps + [Gap(current, gaps[i].end)];
        init := false;
        open := None;
      } else {
        open := Some(current);
      }
      i := i + 1;
    }
  }

  /** With no flag set, every gap is a group of its own. */
  lemma {:induction false} GroupsNoJoin(gaps: seq<Gap>, join: seq<bool>)
    requires |join| == |gaps| && forall i :: 0 <= i < |join| ==> !join[i]
    ensures Groups(gaps, join) == gaps
    decreases |gaps|
  {
    if gaps != [] {
      GroupsNoJoin(gaps[1..], join[1..]);
      assert gaps == [gaps[0]] + gaps[1..];
    }
  }

  /** As written, the periods downloaded are the sorted gaps one for one: no gaps are ever joined. */
  lemma GroupsAsWritten(gaps: seq<Gap>)
    ensures Groups(SortGaps(gaps), JoinAsWritten(SortGaps(gaps))) == SortGaps(gaps)
  {
    GroupsNoJoin(SortGaps(gaps), JoinAsWritten(SortGaps(gaps)));
  }

  /**
   * Two gaps a day apart: as written they make two downloads; with the intended flags
   * they are downloaded in one period.
   */
  lemma GroupsJoinExample()
    ensures var gaps := [Gap(0, 2 * Hour), Gap(Day, Day + 2 * Hour)];
      && Groups(gaps, JoinAsWritten(gaps)) == gaps
      && Groups(gaps, JoinFlags(gaps)) == [Gap(0, Day + 2 * Hour)]
  {
    var gaps := [Gap(0, 2 * Hour), Gap(Day, Day + 2 * Hour)];
    GroupsNoJoin(gaps, JoinAsWritten(gaps));
    var join := JoinFlags(gaps);
    assert join == [true, false];
    assert gaps[1..][1..] == [];
    assert GroupFrom(gaps[1..], join[1..], Some(0)) == [Gap(0, Day + 2 * Hour)];
  }

  /** The first group, when there is one, starts where the pending group or the first gap does. */
  lemma {:induction false} FirstGroupStart(gaps: seq<Gap>, join: seq<bool>, open: Option<int>)
    requires |join| == |gaps|
    ensures GroupFrom(gaps, join, open) != [] ==> GroupFrom(gaps, join, open)[0].ini == Start(open, gaps[0])
    decreases |gaps|
  {
    if gaps != [] && join[0] {
      FirstGroupStart(gaps[1..], join[1..], Some(Start(open, gaps[0])));
    }
  }

  /**
   * When the last flag is `False`, there is a first group: it starts where the pending group
   * or the first gap does and ends with a gap whose flag is `False`.
   */
  lemma {:induction false} FirstGroupCut(gaps: seq<Gap>, join: seq<bool>, open: Option<int>) returns (c: nat)
    requires |join| == |gaps| && |gaps| > 0 && !join[|gaps| - 1]
    ensures var g := GroupFrom(gaps, join, open);
      && g != [] && g[0].ini == Start(open, gaps[0])
      && c < |gaps| && !join[c] && g[0].end == gaps[c].end
    decreases |gaps|
  {
    if join[0] {
      var tail := gaps[1..];
      var c' := FirstGroupCut(tail, join[1..], Some(Start(open, gaps[0])));
      c := c' + 1;
      assert gaps[c] == tail[c'] && join[c] == join[1..][c'];
    } else {
      c := 0;
    }
  }

  /**
   * Consecutive groups `k` and `k + 1` meet at a gap `j` whose flag is `False`: group `k`
   * ends with gap `j`, group `k + 1` starts with gap `j + 1`.
   */
  lemma {:induction false} GroupsAdjacent(gaps: seq<Gap>, join: seq<bool>, open: Option<int>, k: nat) returns (j: nat)
    requires |join| == |gaps| && k + 1 < |GroupFrom(gaps, join, open)|
    ensures var g := GroupFrom(gaps, join, open);
      j + 1 < |gaps| && !join[j] && g[k].end == gaps[j].end && g[k + 1].ini == gaps[j + 1].ini
    decreases |gaps|
  {
    var g := GroupFrom(gaps, join, open);
    var tail := gaps[1..];
    if join[0] {
      var j' := GroupsAdjacent(tail, join[1..], Some(Start(open, gaps[0])), k);
      j := j' + 1;
      assert gaps[j] == tail[j'] && gaps[j + 1] == tail[j' + 1] && join[j] == join[1..][j'];
    } else {
      var r := GroupFrom(tail, join[1..], None);
      assert g == [Gap(Start(open, gaps[0]), gaps[0].end)] + r;
      if k == 0 {
        FirstGroupStart(tail, join[1..], None);
        j := 0;
        assert g[1] == r[0];
      } else {
        var j' := GroupsAdjacent(tail, join[1..], None, k - 1);
        j := j' + 1;
        assert g[k] == r[k - 1] && g[k + 1] == r[k];
        assert gaps[j] == tail[j'] && gaps[j + 1] == tail[j' + 1] && join[j] == join[1..][j'];
      }
    }
  }

  /** With the intended flags, each download period starts at least a year after the previous one ends. */
  lemma GroupsSeparated(gaps: seq<Gap>)
    ensures var g := Groups(gaps, JoinFlags(gaps));
      forall k :: 0 <= k < |g| - 1 ==> g[k + 1].ini - g[k].end >= Year
  {
    var join := JoinFlags(gaps);
    var g := Groups(gaps, join);
    forall k | 0 <= k < |g| - 1 ensures g[k + 1].ini - g[k].end >= Year {
      var j := GroupsAdjacent(gaps, join, None, k);
    }
  }

  predicate EndsSorted(gaps: seq<Gap>) {
    forall i, j :: 0 <= i < j < |gaps| ==> gaps[i].end <= gaps[j].end
  }

  lemma SortedTail(gaps: seq<Gap>)
    requires |gaps| > 0 && SortedBy(GapIni, gaps) && EndsSorted(gaps)
    ensures SortedBy(GapIni, gaps[1..]) && EndsSorted(gaps[1..])
  {
    var tail := gaps[1..];
    assert forall i :: 0 <= i < |tail| ==> tail[i] == gaps[i + 1];
  }

  /** A gap lies inside a period. */
  predicate Inside(g: Gap, p: Gap) {
    p.ini <= g.ini && g.end <= p.end
  }

  /**
   * Of gaps ordered by start and by end, with the last flag `False`, gap `i` lies inside
   * group `k`.
   */
  lemma {:induction false} GroupCover(gaps: seq<Gap>, join: seq<bool>, open: Option<int>, i: nat) returns (k: nat)
    requires |join| == |gaps| && i < |gaps| && !join[|gaps| - 1]
    requires SortedBy(GapIni, gaps) && EndsSorted(gaps)
    requires open.Some? ==> open.value <= gaps[0].ini
    ensures var g := GroupFrom(gaps, join, open);
      k < |g| && Inside(gaps[i], g[k])
    decreases |gaps|
  {
    var g := GroupFrom(gaps, join, open);
    var tail := gaps[1..];
    var start := Start(open, gaps[0]);
    if join[0] {
      SortedTail(gaps);
      assert tail[0] == gaps[1];
      if i == 0 {
        var c := FirstGroupCut(tail, join[1..], Some(start));
        k := 0;
        assert gaps[c + 1] == tail[c];
      } else {
        k := GroupCover(tail, join[1..], Some(start), i - 1);
        assert tail[i - 1] == gaps[i];
      }
    } else if i == 0 {
      k := 0;
    } else {
      SortedTail(gaps);
      var r := GroupFrom(tail, join[1..], None);
      var k' := GroupCover(tail, join[1..], None, i - 1);
      k := k' + 1;
      assert g[k] == r[k'] && tail[i - 1] == gaps[i];
    }
  }

  /**
   * With the intended flags, gaps ordered by start and by end each lie inside one of the
   * download periods: every missing hour is downloaded.
   */
  lemma GroupsCover(gaps: seq<Gap>)
    requires SortedBy(GapIni, gaps) && EndsSorted(gaps)
    ensures var g := Groups(gaps, JoinFlags(gaps));
      forall i :: 0 <= i < |gaps| ==> exists k :: 0 <= k < |g| && Inside(gaps[i], g[k])
  {
    var join := JoinFlags(gaps);
    var g := Groups(gaps, join);
    forall i | 0 <= i < |gaps| ensures exists k :: 0 <= k < |g| && Inside(gaps[i], g[k]) {
      var k := GroupCover(gaps, join, None, i);
      assert 0 <= k < |g| && Inside(gaps[i], g[k]);
    }
  }

  // ---- widening to whole days ----

  /**
   * `localize(combine(ini.date(), time.min))` and `localize(combine(end.date(), time.max))`
   * in a zone of offset `off`; the microseconds of `time.max` are dropped.
   */
  function Widen(g: Gap, off: int): (w: Gap)
    ensures Inside(g, w)
    ensures (w.ini + off) % Day == 0 && (w.end + 1 + off) % Day == 0
    ensures LocalDay(w.ini, off) == LocalDay(g.ini, off) && LocalDay(w.end, off) == LocalDay(g.end, off)
  {
    Gap(LocalMidnight(g.ini, off), LocalEndOfDay(g.end, off))
  }

  // ---- the credential pool ----

  /** `list.remove(x)`: the first occurrence of `x` taken out. */
  function RemoveFirst<T(==)>(s: seq<T>, x: T): (r: seq<T>)
    requires x in s
    ensures |r| == |s| - 1 && multiset(r) == multiset(s) - multiset{x}
    ensures s[0] == x ==> r == s[1..]
    decreases |s|
  {
    assert s == [s[0]] + s[1..];
    if s[0] == x then s[1..] else [s[0]] + RemoveFirst(s[1..], x)
  }

  /**
   * The mail loop as written: `for mail in self.cams_registered_mails` walks the list by
   * position while `remove` shifts it, so after a failed mail at position `i` the next one
   * tried is the one that was at `i + 2`. The answer, and the pool left.
   */
  function PoolAsWritten<T>(live: seq<string>, i: nat, attempt: string -> Option<T>): (Option<T>, seq<string>)
    decreases |live| - i
  {
    if i >= |live| then (None, live)
    else if attempt(live[i]).Some? then (attempt(live[i]), live)
    else PoolAsWritten(RemoveFirst(live, live[i]), i + 1, attempt)
  }

  /** The loop as intended: every mail in order until one answers, each failed one removed. */
  function TryAll<T>(pool: seq<string>, attempt: string -> Option<T>): (Option<T>, seq<string>)
    decreases |pool|
  {
    if pool == [] then (None, [])
    else if attempt(pool[0]).Some? then (attempt(pool[0]), pool)
    else TryAll(pool[1..], attempt)
  }

  /**
   * There is an answer exactly when some mail answers; it is the first such mail's, that mail
   * and those after it stay in the pool and the ones before it are removed. With no answer
   * the pool is emptied.
   */
  lemma {:induction false} TryAllSpec<T>(pool: seq<string>, attempt: string -> Option<T>)
    ensures var (data, left) := TryAll(pool, attempt);
      && (data.Some? <==> exists k :: 0 <= k < |pool| && attempt(pool[k]).Some?)
      && (data.None? ==> left == [])
      && (data.Some? ==> exists k :: 0 <= k < |pool| && data == attempt(pool[k]) && left == pool[k..]
                                   && forall j :: 0 <= j < k ==> attempt(pool[j]).None?)
    decreases |pool|
  {
    if pool != [] && attempt(pool[0]).None? {
      var tail := pool[1..];
      TryAllSpec(tail, attempt);
      assert forall k :: 1 <= k < |pool| ==> pool[k] == tail[k - 1];
      var (data, left) := TryAll(tail, attempt);
      if data.Some? {
        var k :| 0 <= k < |tail| && data == attempt(tail[k]) && left == tail[k..]
                 && forall j :: 0 <= j < k ==> attempt(tail[j]).None?;
        assert pool[k + 1] == tail[k] && pool[k + 1..] == tail[k..];
      }
    } else if pool != [] {
      assert pool[0..] == pool;
    }
  }

  /** Whatever happens, the pool left is a suffix of the pool: mails are only ever removed. */
  lemma TryAllSuffix<T>(pool: seq<string>, attempt: string -> Option<T>)
    ensures exists k :: 0 <= k <= |pool| && TryAll(pool, attempt).1 == pool[k..]
  {
    TryAllSpec(pool, attempt);
    if TryAll(pool, attempt).0.None? {
      assert TryAll(pool, attempt).1 == pool[|pool|..];
    }
  }

  /**
   * Mails `a` then `b`, where `a` has no requests left and `b` has: as written `b` is never
   * tried, nothing is downloaded and `b` is the only mail left; as intended `b`'s data is returned.
   */
  lemma PoolSkipsNextMail<T>(attempt: string -> Option<T>)
    requires attempt("a").None? && attempt("b").Some?
    ensures PoolAsWritten(["a", "b"], 0, attempt) == (None, ["b"])
    ensures TryAll(["a", "b"], attempt) == (attempt("b"), ["b"])
  {
    assert RemoveFirst(["a", "b"], "a") == ["b"];
    assert ["a", "b"][1..] == ["b"];
  }

  /** No mail is registered twice. */
  predicate Distinct(pool: seq<string>) {
    forall a, b :: 0 <= a < b < |pool| ==> pool[a] != pool[b]
  }

  /** The mails at odd positions below `2 * j`: those the as-written loop steps over in `j` turns. */
  function Skipped(pool: seq<string>, j: nat): (r: seq<string>)
    requires 2 * j <= |pool|
    ensures |r| == j
  {
    seq(j, t requires 0 <= t < j => pool[2 * t + 1])
  }

  lemma {:induction false} RemoveFirstAfter<T>(a: seq<T>, x: T, b: seq<T>)
    requires x !in a
    ensures RemoveFirst(a + [x] + b, x) == a + b
    decreases |a|
  {
    if a != [] {
      assert (a + [x] + b)[1..] == a[1..] + [x] + b;
      RemoveFirstAfter(a[1..], x, b);
      assert a == [a[0]] + a[1..];
    }
  }

  /** The loop's state after `j` failed turns: the skipped mails, then the pool from `2 * j` on. */
  function AfterTurns(pool: seq<string>, j: nat): seq<string>
    requires 2 * j <= |pool|
  {
    Skipped(pool, j) + pool[2 * j..]
  }

  /** The mail at `2 * j` is not among the mails stepped over before it. */
  lemma NotSkipped(pool: seq<string>, j: nat)
    requires Distinct(pool) && 2 * j < |pool|
    ensures pool[2 * j] !in Skipped(pool, j)
  {
    forall t | 0 <= t < j ensures Skipped(pool, j)[t] != pool[2 * j] {
      assert Skipped(pool, j)[t] == pool[2 * t + 1];
    }
  }

  /** After `j` turns, the mail at position `j` is the pool's mail at `2 * j`. */
  lemma AfterTurnsSplit(pool: seq<string>, j: nat)
    requires 2 * j < |pool|
    ensures AfterTurns(pool, j)[j] == pool[2 * j]
    ensures AfterTurns(pool, j) == Skipped(pool, j) + [pool[2 * j]] + pool[2 * j + 1..]
  {
    assert pool[2 * j..] == [pool[2 * j]] + pool[2 * j + 1..];
  }

  /** Removing the mail at `2 * j` gives the state of the next turn, or the skipped mails at the end. */
  lemma AfterTurnsNext(pool: seq<string>, j: nat)
    requires 2 * j < |pool|
    ensures 2 * j + 1 == |pool| ==> Skipped(pool, j) + pool[2 * j + 1..] == Skipped(pool, j)
    ensures 2 * j + 1 < |pool| ==> Skipped(pool, j) + pool[2 * j + 1..] == AfterTurns(pool, j + 1)
  {
    if 2 * j + 1 < |pool| {
      assert Skipped(pool, j + 1) == Skipped(pool, j) + [pool[2 * j + 1]];
      assert pool[2 * j + 1..] == [pool[2 * j + 1]] + pool[2 * (j + 1)..];
    } else {
      assert pool[2 * j + 1..] == [];
    }
  }

  /** One failed turn removes the mail at `2 * j` and steps over the one after it. */
  lemma TurnFails<T>(pool: seq<string>, j: nat, attempt: string -> Option<T>)
    requires Distinct(pool) && 2 * j < |pool| && attempt(pool[2 * j]).None?
    ensures 2 * j + 1 == |pool| ==> PoolAsWritten(AfterTurns(pool, j), j, attempt) == (None, Skipped(pool, j))
    ensures 2 * j + 1 < |pool| ==>
      PoolAsWritten(AfterTurns(pool, j), j, attempt) == PoolAsWritten(AfterTurns(pool, j + 1), j + 1, attempt)
  {
    var live := AfterTurns(pool, j);
    AfterTurnsSplit(pool, j);
    NotSkipped(pool, j);
    RemoveFirstAfter(Skipped(pool, j), pool[2 * j], pool[2 * j + 1..]);
    AfterTurnsNext(pool, j);
    assert PoolAsWritten(live, j, attempt) == PoolAsWritten(RemoveFirst(live, live[j]), j + 1, attempt);
  }

  /**
   * What the as-written loop gives from the state after `j` failed turns: an answer exactly
   * when a mail at an even position from `2 * j` on answers, the first such one's, with the
   * state of that turn left; with no answer only the mails at odd positions are left.
   */
  ghost predicate TriesEven<T>(pool: seq<string>, j: nat, attempt: string -> Option<T>, r: (Option<T>, seq<string>))
    requires 2 * j <= |pool|
  {
    && (r.0.Some? <==> exists t :: j <= t && 2 * t < |pool| && attempt(pool[2 * t]).Some?)
    && (r.0.None? ==> r.1 == Skipped(pool, |pool| / 2))
    && (r.0.Some? ==> exists t :: j <= t && 2 * t < |pool| && r.0 == attempt(pool[2 * t])
                         && (forall u :: j <= u < t ==> attempt(pool[2 * u]).None?)
                         && r.1 == AfterTurns(pool, t))
  }

  /** A failed mail at `2 * j` adds nothing to what the later turns give. */
  lemma TriesEvenStep<T>(pool: seq<string>, j: nat, attempt: string -> Option<T>, r: (Option<T>, seq<string>))
    requires 2 * j + 2 <= |pool| && attempt(pool[2 * j]).None? && TriesEven(pool, j + 1, attempt, r)
    ensures TriesEven(pool, j, attempt, r)
  {
    if r.0.Some? {
      var t :| j + 1 <= t && 2 * t < |pool| && r.0 == attempt(pool[2 * t])
               && (forall u :: j + 1 <= u < t ==> attempt(pool[2 * u]).None?)
               && r.1 == AfterTurns(pool, t);
      assert forall u :: j <= u < t ==> attempt(pool[2 * u]).None?;
    }
  }

  /** As written, from the state after `j` failed turns, the loop tries the mails at even positions. */
  lemma {:induction false} PoolAsWrittenFrom<T>(pool: seq<string>, j: nat, attempt: string -> Option<T>)
    requires Distinct(pool) && 2 * j <= |pool|
    ensures TriesEven(pool, j, attempt, PoolAsWritten(AfterTurns(pool, j), j, attempt))
    decreases |pool| - 2 * j
  {
    if 2 * j >= |pool| {
      assert pool[2 * j..] == [];
      assert AfterTurns(pool, j) == Skipped(pool, j);
      assert |pool| / 2 == j;
    } else if attempt(pool[2 * j]).Some? {
      AfterTurnsSplit(pool, j);
    } else {
      TurnFails(pool, j, attempt);
      if 2 * j + 1 < |pool| {
        PoolAsWrittenFrom(pool, j + 1, attempt);
        TriesEvenStep(pool, j, attempt, PoolAsWritten(AfterTurns(pool, j + 1), j + 1, attempt));
      } else {
        assert |pool| / 2 == j;
      }
    }
  }

  /**
   * As written, with distinct mails, the loop tries only the mails at positions 0, 2, 4, …:
   * there is an answer exactly when one of them answers; it is the first such mail's, which
   * stays in the pool together with the mails after it and the ones stepped over; with no
   * answer only the mails at odd positions are left.
   */
  lemma PoolAsWrittenSpec<T>(pool: seq<string>, attempt: string -> Option<T>)
    requires Distinct(pool)
    ensures var r := PoolAsWritten(pool, 0, attempt);
      && (r.0.Some? <==> exists t :: 0 <= t && 2 * t < |pool| && attempt(pool[2 * t]).Some?)
      && (r.0.None? ==> r.1 == Skipped(pool, |pool| / 2))
      && (r.0.Some? ==> exists t :: 0 <= t && 2 * t < |pool| && r.0 == attempt(pool[2 * t])
                           && (forall u :: 0 <= u < t ==> attempt(pool[2 * u]).None?)
                           && r.1 == AfterTurns(pool, t))
  {
    assert AfterTurns(pool, 0) == pool;
    PoolAsWrittenFrom(pool, 0, attempt);
  }

  /** As written, whatever the pool, an answer is some mail's, and that mail is still in the pool left. */
  lemma {:induction false} PoolAsWrittenAnswer<T>(live: seq<string>, i: nat, attempt: string -> Option<T>)
    ensures var (data, left) := PoolAsWritten(live, i, attempt);
      data.Some? ==> exists m :: m in left && data == attempt(m)
    decreases |live| - i
  {
    if i < |live| && attempt(live[i]).None? {
      PoolAsWrittenAnswer(RemoveFirst(live, live[i]), i + 1, attempt);
    }
  }

  /** `_request(mail, …)` for one mail: the first SODA server's answer, or `None`. */
  function AttemptFor(http: Http, csv: Csv, lat: string, lon: string, dateBegin: int, dateEnd: int)
    : string -> Option<seq<Record>>
  {
    mail => FirstAnswer(Servers, http, csv, mail, lat, lon, dateBegin, dateEnd)
  }

  function MapRows(data: Option<seq<Record>>): Option<seq<Row>> {
    if data.Some? then Some(TsFromTime(data.value)) else None
  }

  // ---- the code as written, or as intended ----

  /**
   * Which `join` column and which mail loop the provider runs: `AsWritten` is the code
   * (every flag `False`, removal while iterating), `Intended` the evident intent (gaps less
   * than a year apart joined, every mail tried in order).
   */
  datatype Policy = AsWritten | Intended

  /** The `join` column under a policy. */
  function JoinColumn(policy: Policy, gaps: seq<Gap>): (join: seq<bool>)
    ensures |join| == |gaps|
  {
    if policy == AsWritten then JoinAsWritten(gaps) else JoinFlags(gaps)
  }

  /** The mail loop under a policy: the answer, and the pool left. */
  function Pool<T>(policy: Policy, pool: seq<string>, attempt: string -> Option<T>): (Option<T>, seq<string>) {
    if policy == AsWritten then PoolAsWritten(pool, 0, attempt) else TryAll(pool, attempt)
  }

  /** `_get_historic_period` on a pool `pool`: the rows, or `None`, and the pool left. */
  function Period(policy: Policy, pool: seq<string>, http: Http, csv: Csv, lat: string, lon: string,
                  dateBegin: int, dateEnd: int): (Option<seq<Row>>, seq<string>)
  {
    var (data, left) := Pool(policy, pool, AttemptFor(http, csv, lat, lon, dateBegin, dateEnd));
    (MapRows(data), left)
  }

  /** The download periods of a gap list: the sorted gaps, grouped by the `join` column. */
  function Periods(policy: Policy, gaps: seq<Gap>): seq<Gap> {
    Groups(SortGaps(gaps), JoinColumn(policy, SortGaps(gaps)))
  }

  /** As written, the periods are the sorted gaps themselves. */
  lemma PeriodsAsWritten(gaps: seq<Gap>)
    ensures Periods(AsWritten, gaps) == SortGaps(gaps)
  {
    GroupsAsWritten(gaps);
  }

  /** As written, every gap lies inside one of the widened periods. */
  lemma PeriodsAsWrittenCover(gaps: seq<Gap>, off: int)
    ensures var p := Periods(AsWritten, gaps);
      forall i :: 0 <= i < |gaps| ==> exists k :: 0 <= k < |p| && Inside(gaps[i], Widen(p[k], off))
  {
    var p := Periods(AsWritten, gaps);
    PeriodsAsWritten(gaps);
    SortGapsSpec(gaps);
    forall i | 0 <= i < |gaps| ensures exists k :: 0 <= k < |p| && Inside(gaps[i], Widen(p[k], off)) {
      assert gaps[i] in multiset(p);
      var k :| 0 <= k < |p| && p[k] == gaps[i];
      assert Inside(gaps[i], Widen(p[k], off));
    }
  }

  // ---- collecting the periods ----

  /** A period's frame for `pd.concat`: `None` is dropped, rows keep their columns even when there are none. */
  function PeriodFrame(data: Option<seq<Row>>): Frame {
    if data.Some? then Rows(data.value) else NoColumns
  }

  /**
   * The loop over the periods: each one widened and downloaded with the pool as the earlier
   * periods left it. The downloads, one per period in order, and the pool left.
   */
  function Downloads(policy: Policy, pool: seq<string>, groups: seq<Gap>, http: Http, csv: Csv,
                     lat: string, lon: string, off: int): (r: (seq<Option<seq<Row>>>, seq<string>))
    ensures |r.0| == |groups|
    decreases |groups|
  {
    if groups == [] then ([], pool)
    else
      var w := Widen(groups[0], off);
      var (data, left) := Period(policy, pool, http, csv, lat, lon, w.ini, w.end);
      var (rest, last) := Downloads(policy, left, groups[1..], http, csv, lat, lon, off);
      ([data] + rest, last)
  }

  /** `missing_data = pd.concat([missing_data, data_period])` over the downloads, from `pd.DataFrame()`. */
  function Gathered(ds: seq<Option<seq<Row>>>): Frame
    decreases |ds|
  {
    if ds == [] then NoColumns
    else Concat(Gathered(ds[..|ds| - 1]), PeriodFrame(ds[|ds| - 1]))
  }

  /** Gathering one more download concatenates its frame. */
  lemma GatheredSnoc(ds: seq<Option<seq<Row>>>, d: Option<seq<Row>>)
    ensures Gathered(ds + [d]) == Concat(Gathered(ds), PeriodFrame(d))
  {
    assert (ds + [d])[..|ds|] == ds;
  }

  /**
   * The concatenation has columns exactly when some period returned data, and its rows are
   * exactly the rows of the periods that did.
   */
  lemma {:induction false} GatheredSpec(ds: seq<Option<seq<Row>>>)
    ensures Gathered(ds).Rows? <==> exists k :: 0 <= k < |ds| && ds[k].Some?
    ensures forall x :: x in RowsOf(Gathered(ds)) <==> exists k :: 0 <= k < |ds| && ds[k].Some? && x in ds[k].value
    decreases |ds|
  {
    if ds != [] {
      var n := |ds| - 1;
      var init := ds[..n];
      GatheredSpec(init);
      assert forall k :: 0 <= k < n ==> init[k] == ds[k];
      assert RowsOf(Gathered(ds)) == RowsOf(Gathered(init)) + RowsOf(PeriodFrame(ds[n]));
    }
  }

  /** The pool only shrinks: the mails the periods leave are some of the mails they were given. */
  lemma {:induction false} DownloadsShrink(policy: Policy, pool: seq<string>, groups: seq<Gap>, http: Http, csv: Csv,
                                           lat: string, lon: string, off: int)
    ensures multiset(Downloads(policy, pool, groups, http, csv, lat, lon, off).1) <= multiset(pool)
    decreases |groups|
  {
    if groups != [] {
      var w := Widen(groups[0], off);
      PoolShrinks(policy, pool, AttemptFor(http, csv, lat, lon, w.ini, w.end));
      var (data, left) := Period(policy, pool, http, csv, lat, lon, w.ini, w.end);
      DownloadsShrink(policy, left, groups[1..], http, csv, lat, lon, off);
    }
  }

  /** Under either policy, one period only removes mails from the pool. */
  lemma PoolShrinks<T>(policy: Policy, pool: seq<string>, attempt: string -> Option<T>)
    ensures multiset(Pool(policy, pool, attempt).1) <= multiset(pool)
  {
    if policy == AsWritten {
      PoolAsWrittenShrinks(pool, 0, attempt);
    } else {
      TryAllSuffix(pool, attempt);
      var k :| 0 <= k <= |pool| && TryAll(pool, attempt).1 == pool[k..];
      assert pool == pool[..k] + pool[k..];
    }
  }

  /** As written, each failed mail is removed once and nothing is added. */
  lemma {:induction false} PoolAsWrittenShrinks<T>(live: seq<string>, i: nat, attempt: string -> Option<T>)
    ensures multiset(PoolAsWritten(live, i, attempt).1) <= multiset(live)
    decreases |live| - i
  {
    if i < |live| && attempt(live[i]).None? {
      PoolAsWrittenShrinks(RemoveFirst(live, live[i]), i + 1, attempt);
    }
  }

  /** The end of `_get_historical_data_source`: the concatenated rows sorted, stamped and de-duplicated. */
  function Finish(ds: seq<Option<seq<Row>>>, lat: string, lon: string): Result<Frame> {
    var missing := Gathered(ds);
    if missing.NoColumns? then Err("KeyError: 'ts'") else Ok(Rows(Tidy(missing.rows, lat, lon)))
  }

  /**
   * What an answer promises about the downloads `ds` it came from: it fails exactly when no
   * period returned data; otherwise it is ordered by `ts` with one row per key, every row
   * carries the location and is a row of some download, and every downloaded hour is in it.
   */
  predicate Answers(r: Result<Frame>, ds: seq<Option<seq<Row>>>, lat: string, lon: string) {
    && (r.Err? <==> forall k :: 0 <= k < |ds| ==> ds[k].None?)
    && (r.Ok? ==>
          && r.value.Rows?
          && SortedByTs(r.value.rows) && UniqueKeys(r.value.rows)
          && (forall y :: y in r.value.rows ==> y.lat == lat && y.lon == lon)
          && (forall y :: y in r.value.rows ==>
                exists k, x :: 0 <= k < |ds| && ds[k].Some? && x in ds[k].value && y == x.(lat := lat, lon := lon))
          && (forall k, x :: 0 <= k < |ds| && ds[k].Some? && x in ds[k].value ==>
                exists y :: y in r.value.rows && y.ts == x.ts))
  }

  /** After the downloads `ds`, the finishing steps give an answer as `Answers` states. */
  lemma FinishSpec(ds: seq<Option<seq<Row>>>, lat: string, lon: string)
    ensures Answers(Finish(ds, lat, lon), ds, lat, lon)
  {
    GatheredSpec(ds);
    var missing := Gathered(ds);
    if missing.Rows? {
      TidySpec(missing.rows, lat, lon);
      var r := Tidy(missing.rows, lat, lon);
      forall y | y in r
        ensures exists k, x :: 0 <= k < |ds| && ds[k].Some? && x in ds[k].value && y == x.(lat := lat, lon := lon)
      {
        var k, x := FinishFrom(ds, lat, lon, y);
      }
      forall k, x | 0 <= k < |ds| && ds[k].Some? && x in ds[k].value ensures exists y :: y in r && y.ts == x.ts {
        FinishKeeps(ds, lat, lon, k, x);
      }
    }
  }

  /** A finished row is a row `x` of download `k`, moved to the location. */
  lemma FinishFrom(ds: seq<Option<seq<Row>>>, lat: string, lon: string, y: Row) returns (k: int, x: Row)
    requires Gathered(ds).Rows? && y in Tidy(Gathered(ds).rows, lat, lon)
    ensures 0 <= k < |ds| && ds[k].Some? && x in ds[k].value && y == x.(lat := lat, lon := lon)
  {
    x := TidyFrom(Gathered(ds).rows, lat, lon, y);
    assert x in RowsOf(Gathered(ds));
    GatheredSpec(ds);
    k :| 0 <= k < |ds| && ds[k].Some? && x in ds[k].value;
  }

  /** Every row of download `k` has a finished row with its `ts`. */
  lemma FinishKeeps(ds: seq<Option<seq<Row>>>, lat: string, lon: string, k: int, x: Row)
    requires Gathered(ds).Rows? && 0 <= k < |ds| && ds[k].Some? && x in ds[k].value
    ensures exists y :: y in Tidy(Gathered(ds).rows, lat, lon) && y.ts == x.ts
  {
    GatheredSpec(ds);
    assert x in RowsOf(Gathered(ds));
    TidySpec(Gathered(ds).rows, lat, lon);
  }

  /**
   * `_get_historical_data_source` on a pool `pool`, under a policy: the periods downloaded and
   * finished, and the pool left. No gaps make the column assignment fail.
   */
  function CamsSource(policy: Policy, pool: seq<string>, http: Http, csv: Csv, lat: string, lon: string,
                      gaps: seq<Gap>, off: int): (Result<Frame>, seq<string>)
  {
    if gaps == [] then (Err("ValueError: Length mismatch"), pool)
    else
      var (ds, left) := Downloads(policy, pool, Periods(policy, gaps), http, csv, lat, lon, off);
      (Finish(ds, lat, lon), left)
  }

  /**
   * Under either policy, the provider fails when there are no gaps; with gaps, its answer is
   * as `Answers` states for the periods' downloads, so it fails exactly when no period
   * returned data.
   */
  lemma CamsSourceSpec(policy: Policy, pool: seq<string>, http: Http, csv: Csv, lat: string, lon: string,
                       gaps: seq<Gap>, off: int)
    ensures gaps == [] ==> CamsSource(policy, pool, http, csv, lat, lon, gaps, off).0.Err?
    ensures gaps != [] ==>
      Answers(CamsSource(policy, pool, http, csv, lat, lon, gaps, off).0,
              Downloads(policy, pool, Periods(policy, gaps), http, csv, lat, lon, off).0, lat, lon)
  {
    CamsSourceFinish(policy, pool, http, csv, lat, lon, gaps, off);
    if gaps != [] {
      FinishSpec(Downloads(policy, pool, Periods(policy, gaps), http, csv, lat, lon, off).0, lat, lon);
    }
  }

  /**
   * Without gaps the provider fails with the column assignment's length mismatch; with gaps,
   * its answer is the finished downloads of its periods.
   */
  lemma CamsSourceFinish(policy: Policy, pool: seq<string>, http: Http, csv: Csv, lat: string, lon: string,
                         gaps: seq<Gap>, off: int)
    ensures gaps == [] ==> CamsSource(policy, pool, http, csv, lat, lon, gaps, off).0 == Err("ValueError: Length mismatch")
    ensures gaps != [] ==>
      CamsSource(policy, pool, http, csv, lat, lon, gaps, off).0
      == Finish(Downloads(policy, pool, Periods(policy, gaps), http, csv, lat, lon, off).0, lat, lon)
  {
  }

  /**
   * The two policies part ways on two gaps a day apart: as written the provider downloads
   * them as two periods, as intended as one.
   */
  lemma PeriodsExample()
    ensures var gaps := [Gap(0, 2 * Hour), Gap(Day, Day + 2 * Hour)];
      && Periods(AsWritten, gaps) == gaps
      && Periods(Intended, gaps) == [Gap(0, Day + 2 * Hour)]
  {
    var gaps := [Gap(0, 2 * Hour), Gap(Day, Day + 2 * Hour)];
    SortGapsSpec(gaps);
    SortedGapsPair(gaps);
    GroupsJoinExample();
  }

  /** Two gaps already ordered by start stay as they are when sorted. */
  lemma SortedGapsPair(gaps: seq<Gap>)
    requires |gaps| == 2 && gaps[0].ini < gaps[1].ini
    requires SortedBy(GapIni, SortGaps(gaps)) && multiset(SortGaps(gaps)) == multiset(gaps)
    ensures SortGaps(gaps) == gaps
  {
    var s := SortGaps(gaps);
    assert |s| == |multiset(s)| == 2;
    assert s[0] in multiset(gaps) && s[1] in multiset(gaps);
    assert gaps[0] in multiset(s) && gaps[1] in multiset(s);
  }

  /** The CAMS provider and its pool of registered mails, which shrinks as mails run out of requests. */
  class CamsProvider {
    var mails: seq<string>

    /** `assert len(self.cams_registered_mails) > 0`. */
    constructor(registered: seq<string>)
      requires |registered| > 0
      ensures mails == registered
    {
      mails := registered;
    }

    /** `_get_historic_period` as written: `remove` while iterating skips the mail after each failed one. */
    method GetHistoricPeriodAsWritten(http: Http, csv: Csv, lat: string, lon: string, dateBegin: int, dateEnd: int)
      returns (data: Option<seq<Row>>)
      modifies this
      ensures (data, mails) == Period(AsWritten, old(mails), http, csv, lat, lon, dateBegin, dateEnd)
    {
      ghost var attempt := AttemptFor(http, csv, lat, lon, dateBegin, dateEnd);
      var i := 0;
      while i < |mails|
        invariant PoolAsWritten(old(mails), 0, attempt) == PoolAsWritten(mails, i, attempt)
        decreases |mails| - i
      {
        var mail := mails[i];
        var answer := Request(http, csv, mail, lat, lon, dateBegin, dateEnd);
        assert answer == attempt(mail);
        if answer.Some? {
          return Some(TsFromTime(answer.value));
        }
        mails := RemoveFirst(mails, mail);
        i := i + 1;
      }
      return None;
    }

    /** `_get_historic_period` as intended: every registered mail is tried in order until one answers. */
    method GetHistoricPeriod(http: Http, csv: Csv, lat: string, lon: string, dateBegin: int, dateEnd: int)
      returns (data: Option<seq<Row>>)
      modifies this
      ensures (data, mails) == Period(Intended, old(mails), http, csv, lat, lon, dateBegin, dateEnd)
    {
      ghost var attempt := AttemptFor(http, csv, lat, lon, dateBegin, dateEnd);
      var snapshot := mails;
      var k := 0;
      while k < |snapshot|
        invariant 0 <= k <= |snapshot| && mails == snapshot[k..]
        invariant TryAll(old(mails), attempt) == TryAll(mails, attempt)
      {
        var mail := snapshot[k];
        var answer := Request(http, csv, mail, lat, lon, dateBegin, dateEnd);
        assert answer == attempt(mail) && mails[0] == mail;
        if answer.Some? {
          return Some(TsFromTime(answer.value));
        }
        mails := RemoveFirst(mails, mail);
        k := k + 1;
      }
      return None;
    }

    /** `_get_historic_period` under a policy. */
    method GetPeriod(policy: Policy, http: Http, csv: Csv, lat: string, lon: string, dateBegin: int, dateEnd: int)
      returns (data: Option<seq<Row>>)
      modifies this
      ensures (data, mails) == Period(policy, old(mails), http, csv, lat, lon, dateBegin, dateEnd)
    {
      if policy == AsWritten {
        data := GetHistoricPeriodAsWritten(http, csv, lat, lon, dateBegin, dateEnd);
      } else {
        data := GetHistoricPeriod(http, csv, lat, lon, dateBegin, dateEnd);
      }
    }

    /**
     * `_get_historical_data_source(latitude, longitude, gaps, tz)` for a zone of offset `off`,
     * under a policy: `AsWritten` is the code, `Intended` its evident intent.
     */
    method HistoricalSource(policy: Policy, http: Http, csv: Csv, lat: string, lon: string, gaps: seq<Gap>, off: int)
      returns (r: Result<Frame>)
      modifies this
      ensures (r, mails) == CamsSource(policy, old(mails), http, csv, lat, lon, gaps, off)
    {
      if gaps == [] {
        return Err("ValueError: Length mismatch");
      }
      var sorted := SortGaps(gaps);
      var groups := GroupGaps(sorted, JoinColumn(policy, sorted));
      ghost var all := Downloads(policy, mails, groups, http, csv, lat, lon, off);
      var missing := GetPeriods(policy, http, csv, lat, lon, groups, off);
      if missing.NoColumns? {
        return Err("KeyError: 'ts'");
      }
      r := Ok(Rows(Tidy(missing.rows, lat, lon)));
      assert r == Finish(all.0, lat, lon);
    }

    /** The `for ts_ini, ts_end in new_gaps` loop: each period widened and downloaded, the frames concatenated. */
    method GetPeriods(policy: Policy, http: Http, csv: Csv, lat: string, lon: string, groups: seq<Gap>, off: int)
      returns (missing: Frame)
      modifies this
      ensures var all := Downloads(policy, old(mails), groups, http, csv, lat, lon, off);
        missing == Gathered(all.0) && mails == all.1
    {
      ghost var all := Downloads(policy, mails, groups, http, csv, lat, lon, off);
      missing := NoColumns;
      var k := 0;
      while k < |groups|
        invariant 0 <= k <= |groups|
        invariant Downloads(policy, mails, groups[k..], http, csv, lat, lon, off) == (all.0[k..], all.1)
        invariant missing == Gathered(all.0[..k])
      {
        missing := GetNextPeriod(policy, http, csv, lat, lon, groups, k, off, missing, all);
        k := k + 1;
      }
      assert all.0[..|groups|] == all.0;
      assert groups[k..] == [];
    }

    /** One turn of the period loop: the `k`-th period widened, downloaded and concatenated. */
    method GetNextPeriod(policy: Policy, http: Http, csv: Csv, lat: string, lon: string, groups: seq<Gap>, k: nat,
                         off: int, missing: Frame, ghost all: (seq<Option<seq<Row>>>, seq<string>))
      returns (next: Frame)
      requires k < |groups| && k <= |all.0|
      requires Downloads(policy, mails, groups[k..], http, csv, lat, lon, off) == (all.0[k..], all.1)
      requires missing == Gathered(all.0[..k])
      modifies this
      ensures k < |all.0|
      ensures Downloads(policy, mails, groups[k + 1..], http, csv, lat, lon, off) == (all.0[k + 1..], all.1)
      ensures next == Gathered(all.0[..k + 1])
    {
      var w := Widen(groups[k], off);
      ghost var before := mails;
      var data := GetPeriod(policy, http, csv, lat, lon, w.ini, w.end);
      DownloadsStep(policy, before, groups, k, http, csv, lat, lon, off, all.0, all.1);
      GatheredSnoc(all.0[..k], data);
      assert all.0[..k] + [data] == all.0[..k + 1];
      next := Concat(missing, PeriodFrame(data));
    }
  }

  /** One turn of the period loop: the `k`-th download, and the downloads of the periods after it. */
  lemma DownloadsStep(policy: Policy, pool: seq<string>, groups: seq<Gap>, k: nat, http: Http, csv: Csv,
                      lat: string, lon: string, off: int, ds: seq<Option<seq<Row>>>, last: seq<string>)
    requires k < |groups| && k <= |ds| && Downloads(policy, pool, groups[k..], http, csv, lat, lon, off) == (ds[k..], last)
    ensures k < |ds|
    ensures ds[k] == Period(policy, pool, http, csv, lat, lon, Widen(groups[k], off).ini, Widen(groups[k], off).end).0
    ensures Downloads(policy, Period(policy, pool, http, csv, lat, lon, Widen(groups[k], off).ini, Widen(groups[k], off).end).1,
                      groups[k + 1..], http, csv, lat, lon, off)
         == (ds[k + 1..], last)
  {
    assert groups[k..][0] == groups[k] && groups[k..][1..] == groups[k + 1..];
    var w := Widen(groups[k], off);
    var (data, left) := Period(policy, pool, http, csv, lat, lon, w.ini, w.end);
    var (rest, l) := Downloads(policy, left, groups[k + 1..], http, csv, lat, lon, off);
    assert ds[k..] == [data] + rest;
    assert ds[k..][0] == ds[k] && ds[k..][1..] == ds[k + 1..];
  }
}
