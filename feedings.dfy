/**
 * The daily feeding counts of src/app/api/analytics/feedings/route.ts: the rows
 * of a `groupBy(['startTime'])` with `_count.id` are added, per day of
 * `startTime`, into a zero-filled map of the window's days; a row on a day
 * that is not yet a key creates that key (`get(day) || 0`). The map is then
 * emitted ascending by date.
 */
module FeedingAnalytics {
  import opened Wrappers
  import opened Time
  import opened Analytics
  import opened DayMap
  import opened DailyBuckets

  /** One grouped row: a `startTime` and the number of feedings counted for it. */
  datatype FeedingGroup = FeedingGroup(startTime: int, count: nat)

  function GroupDay(g: FeedingGroup): int
  {
    DayKey(StartOfDay(g.startTime))
  }

  /** One round of the `forEach`: add the row's count to its day, creating the key when absent. */
  function AddGroup(m: seq<Entry<int>>, g: FeedingGroup): seq<Entry<int>>
  {
    Set(m, GroupDay(g), Get(m, GroupDay(g)).GetOr(0) + g.count)
  }

  /** The map after the `forEach` over `gs`, in list order. */
  function FoldGroups(m: seq<Entry<int>>, gs: seq<FeedingGroup>): seq<Entry<int>>
  {
    if gs == [] then m else AddGroup(FoldGroups(m, gs[..|gs| - 1]), gs[|gs| - 1])
  }

  /** The response body: the folded map, ascending by date. */
  function DailyCounts(now: int, days: int, gs: seq<FeedingGroup>): seq<Entry<int>>
  {
    SortByKey(FoldGroups(InitialBuckets(now, days), gs))
  }

  /** Whether some row falls on day k. */
  predicate AnyOn(gs: seq<FeedingGroup>, k: int)
  {
    exists i :: 0 <= i < |gs| && GroupDay(gs[i]) == k
  }

  /** The sum of the counts of the rows on day k. */
  function CountOn(gs: seq<FeedingGroup>, k: int): nat
  {
    if gs == [] then 0
    else CountOn(gs[..|gs| - 1], k) + (if GroupDay(gs[|gs| - 1]) == k then gs[|gs| - 1].count else 0)
  }

  /** What day k of the series should hold: a bucket for each day of the window and each day with rows. */
  function CountBucket(now: int, days: int, gs: seq<FeedingGroup>, k: int): Option<int>
  {
    if InWindow(now, days, k) || AnyOn(gs, k) then Some(CountOn(gs, k)) else None
  }

  /** The sum of all rows' counts. */
  function TotalCount(gs: seq<FeedingGroup>): nat
  {
    if gs == [] then 0 else TotalCount(gs[..|gs| - 1]) + gs[|gs| - 1].count
  }

  /** The route's formatting code, as a loop filling the map, a loop folding the rows, and the sort. */
  method FeedingCounts(now: int, days: int, groups: seq<FeedingGroup>) returns (series: seq<Entry<int>>)
    ensures series == DailyCounts(now, days, groups)
    ensures Ascending(series)
    ensures forall k :: Get(series, k) == CountBucket(now, days, groups, k)
    ensures SumValues(series) == TotalCount(groups)
  {
    var daily: seq<Entry<int>> := [];
    var i := 0;
    while i < days
      invariant 0 <= i && (i <= days || i == 0)
      invariant daily == InitialBuckets(now, i)
    {
      var date := StartOfDay(SubDays(now, i));
      daily := Set(daily, DayKey(date), 0);
      i := i + 1;
    }
    assert daily == InitialBuckets(now, days);
    var j := 0;
    while j < |groups|
      invariant 0 <= j <= |groups|
      invariant daily == FoldGroups(InitialBuckets(now, days), groups[..j])
    {
      var entry := groups[j];
      var day := DayKey(StartOfDay(entry.startTime));
      daily := Set(daily, day, Get(daily, day).GetOr(0) + entry.count);
      assert groups[..j + 1][..j] == groups[..j];
      j := j + 1;
    }
    assert groups[..|groups|] == groups;
    series := SortByKey(daily);
    DailyCountsSpec(now, days, groups);
  }

  /** What the series states, gathered for the method above. */
  lemma {:induction false} DailyCountsSpec(now: int, days: int, gs: seq<FeedingGroup>)
    ensures Ascending(DailyCounts(now, days, gs))
    ensures forall k :: Get(DailyCounts(now, days, gs), k) == CountBucket(now, days, gs, k)
    ensures SumValues(DailyCounts(now, days, gs)) == TotalCount(gs)
  {
    DailyCountsAscending(now, days, gs);
    forall k ensures Get(DailyCounts(now, days, gs), k) == CountBucket(now, days, gs, k) {
      DailyCountsBuckets(now, days, gs, k);
    }
    DailyCountsTotal(now, days, gs);
  }

  /** A day no row falls on counts 0. */
  lemma {:induction false} CountOnAbsent(gs: seq<FeedingGroup>, k: int)
    requires !AnyOn(gs, k)
    ensures CountOn(gs, k) == 0
  {
    if gs != [] {
      AnyOnLast(gs, k);
      CountOnAbsent(gs[..|gs| - 1], k);
    }
  }

  lemma {:induction false} AnyOnLast(gs: seq<FeedingGroup>, k: int)
    requires gs != []
    ensures AnyOn(gs, k) <==> AnyOn(gs[..|gs| - 1], k) || GroupDay(gs[|gs| - 1]) == k
  {
    var p := gs[..|gs| - 1];
    if AnyOn(gs, k) && GroupDay(gs[|gs| - 1]) != k {
      var i :| 0 <= i < |gs| && GroupDay(gs[i]) == k;
      assert p[i] == gs[i];
    }
    if AnyOn(p, k) {
      var i :| 0 <= i < |p| && GroupDay(p[i]) == k;
      assert gs[i] == p[i];
    }
  }

  /** After the fold, a day reads as its initial value plus the counts of its rows; it is a key when either exists. */
  lemma {:induction false} FoldGroupsGet(m: seq<Entry<int>>, gs: seq<FeedingGroup>, k: int)
    ensures Get(FoldGroups(m, gs), k) ==
      if Get(m, k).Some? || AnyOn(gs, k) then Some(Get(m, k).GetOr(0) + CountOn(gs, k)) else None
  {
    if gs != [] {
      var p, g := gs[..|gs| - 1], gs[|gs| - 1];
      FoldGroupsGet(m, p, k);
      FoldGroupsGet(m, p, GroupDay(g));
      GetSet(FoldGroups(m, p), GroupDay(g), Get(FoldGroups(m, p), GroupDay(g)).GetOr(0) + g.count, k);
      AnyOnLast(gs, k);
      if !AnyOn(p, k) {
        CountOnAbsent(p, k);
      }
    }
  }

  /** The fold keeps keys distinct, never drops an entry, and grows when a row's day was absent. */
  lemma {:induction false} FoldGroupsLength(m: seq<Entry<int>>, gs: seq<FeedingGroup>, k: int)
    requires DistinctKeys(m)
    ensures DistinctKeys(FoldGroups(m, gs))
    ensures |FoldGroups(m, gs)| >= |m|
    ensures Get(m, k).None? && AnyOn(gs, k) ==> |FoldGroups(m, gs)| > |m|
    ensures (forall i :: 0 <= i < |gs| ==> Get(m, GroupDay(gs[i])).Some?) ==> |FoldGroups(m, gs)| == |m|
  {
    if gs != [] {
      var p, g := gs[..|gs| - 1], gs[|gs| - 1];
      var f := FoldGroups(m, p);
      FoldGroupsLength(m, p, k);
      FoldGroupsGet(m, p, GroupDay(g));
      SetShape(f, GroupDay(g), Get(f, GroupDay(g)).GetOr(0) + g.count);
      AnyOnLast(gs, k);
      if forall i :: 0 <= i < |gs| ==> Get(m, GroupDay(gs[i])).Some? {
        assert forall i :: 0 <= i < |p| ==> p[i] == gs[i];
        assert Get(m, GroupDay(gs[|gs| - 1])).Some?;
      }
    }
  }

  /** The fold adds every row's count to the sum of the values. */
  lemma {:induction false} FoldGroupsSum(m: seq<Entry<int>>, gs: seq<FeedingGroup>)
    ensures SumValues(FoldGroups(m, gs)) == SumValues(m) + TotalCount(gs)
  {
    if gs != [] {
      var p, g := gs[..|gs| - 1], gs[|gs| - 1];
      var f := FoldGroups(m, p);
      FoldGroupsSum(m, p);
      SumSet(f, GroupDay(g), Get(f, GroupDay(g)).GetOr(0) + g.count);
    }
  }

  /**
   * Each day of the window, and each day some row falls on, is a bucket holding
   * the sum of that day's counts (0 for an in-window day with no rows); no other day is.
   */
  lemma {:induction false} DailyCountsBuckets(now: int, days: int, gs: seq<FeedingGroup>, k: int)
    ensures Get(DailyCounts(now, days, gs), k) ==
      if InWindow(now, days, k) || AnyOn(gs, k) then Some(CountOn(gs, k)) else None
  {
    InitialBucketsShape(now, days);
    GetSort(FoldGroups(InitialBuckets(now, days), gs), k);
    FoldGroupsGet(InitialBuckets(now, days), gs, k);
  }

  /** The series is ascending by date, each date once. */
  lemma {:induction false} DailyCountsAscending(now: int, days: int, gs: seq<FeedingGroup>)
    ensures Ascending(DailyCounts(now, days, gs))
    ensures DistinctKeys(DailyCounts(now, days, gs))
  {
    InitialBucketsShape(now, days);
    FoldGroupsLength(InitialBuckets(now, days), gs, 0);
    SortAscending(FoldGroups(InitialBuckets(now, days), gs));
  }

  /** The counts in the series add up to the counts of all rows. */
  lemma {:induction false} DailyCountsTotal(now: int, days: int, gs: seq<FeedingGroup>)
    ensures SumValues(DailyCounts(now, days, gs)) == TotalCount(gs)
  {
    InitialBucketsShape(now, days);
    FoldGroupsSum(InitialBuckets(now, days), gs);
    SumSort(FoldGroups(InitialBuckets(now, days), gs));
  }

  /** Every value in the series is a non-negative count. */
  lemma {:induction false} DailyCountsNonNegative(now: int, days: int, gs: seq<FeedingGroup>, i: nat)
    requires i < |DailyCounts(now, days, gs)|
    ensures DailyCounts(now, days, gs)[i].value >= 0
  {
    var s := DailyCounts(now, days, gs);
    DailyCountsAscending(now, days, gs);
    GetAt(s, i);
    DailyCountsBuckets(now, days, gs, s[i].key);
  }

  /** A row outside the window is not dropped: it adds a key, and the series has more than `days` entries. */
  lemma {:induction false} StragglerAddsKey(now: int, days: int, gs: seq<FeedingGroup>, i: nat)
    requires i < |gs| && !InWindow(now, days, GroupDay(gs[i]))
    ensures Get(DailyCounts(now, days, gs), GroupDay(gs[i])) == Some(CountOn(gs, GroupDay(gs[i])))
    ensures |DailyCounts(now, days, gs)| > if days <= 0 then 0 else days
  {
    var k := GroupDay(gs[i]);
    assert AnyOn(gs, k);
    DailyCountsBuckets(now, days, gs, k);
    InitialBucketsShape(now, days);
    FoldGroupsLength(InitialBuckets(now, days), gs, k);
  }

  /**
   * When every row lies in the query range `[GetAnalyticsStartDate(now, days), now]`,
   * the series has exactly one entry per day of the window and the earliest is the start date's day.
   */
  lemma {:induction false} QueriedRowsFillWindow(now: int, days: int, gs: seq<FeedingGroup>)
    requires days >= 1
    requires forall i :: 0 <= i < |gs| ==> GetAnalyticsStartDate(now, days) <= gs[i].startTime <= now
    ensures |DailyCounts(now, days, gs)| == days
    ensures forall k :: Get(DailyCounts(now, days, gs), k).Some? <==> InWindow(now, days, k)
    ensures DailyCounts(now, days, gs)[0].key == DayOf(GetAnalyticsStartDate(now, days))
  {
    var init := InitialBuckets(now, days);
    var s := DailyCounts(now, days, gs);
    InitialBucketsShape(now, days);
    forall i | 0 <= i < |gs| ensures Get(init, GroupDay(gs[i])).Some? {
      QueryBoundsMatchWindow(now, days, gs[i].startTime);
    }
    FoldGroupsLength(init, gs, 0);
    forall k ensures Get(s, k).Some? <==> InWindow(now, days, k) {
      DailyCountsBuckets(now, days, gs, k);
      if AnyOn(gs, k) {
        var i :| 0 <= i < |gs| && GroupDay(gs[i]) == k;
        QueryBoundsMatchWindow(now, days, gs[i].startTime);
      }
    }
    var first := DayOf(GetAnalyticsStartDate(now, days));
    EarliestRoundIsStartDay(now, days);
    DailyCountsAscending(now, days, gs);
    GetAt(s, 0);
    GetHead(s, first);
    var j :| 0 <= j < |s| && s[j].key == first;
    assert s[0].key <= s[j].key;
  }
}
