/**
 * The daily sleep minutes of src/app/api/analytics/sleep/route.ts: one bucket
 * per day of the window, each record's `differenceInMinutes(end, start)` added
 * to the bucket of the day it started on, and records whose start day is not a
 * bucket ignored (`if (map.has(day))`). The map is then emitted ascending by date.
 */
module SleepAnalytics {
  import opened Wrappers
  import opened Time
  import opened Analytics
  import opened DayMap
  import opened DailyBuckets

  /** One fetched row; the query keeps only rows whose `endTime` is not null. */
  datatype SleepRecord = SleepRecord(startTime: int, endTime: int)

  function StartDay(r: SleepRecord): int
  {
    DayKey(StartOfDay(r.startTime))
  }

  /** `differenceInMinutes(endTime, startTime)`, negative when the record ends before it starts. */
  function Duration(r: SleepRecord): int
  {
    DifferenceInMinutes(r.endTime, r.startTime)
  }

  /** One round of the `forEach`: add the duration to the start day's bucket, if there is one. */
  function AddSleep(m: seq<Entry<int>>, r: SleepRecord): seq<Entry<int>>
  {
    match Get(m, StartDay(r))
    case Some(total) => Set(m, StartDay(r), total + Duration(r))
    case None => m
  }

  /** The map after the `forEach` over `rs`, in list order. */
  function FoldSleep(m: seq<Entry<int>>, rs: seq<SleepRecord>): seq<Entry<int>>
  {
    if rs == [] then m else AddSleep(FoldSleep(m, rs[..|rs| - 1]), rs[|rs| - 1])
  }

  /** The response body: `{date, totalMinutes}` per bucket, ascending by date. */
  function SleepSeries(now: int, days: int, rs: seq<SleepRecord>): seq<Entry<int>>
  {
    SortByKey(FoldSleep(InitialBuckets(now, days), rs))
  }

  /** The contribution of one record to day k's minutes. */
  function MinutesOf(r: SleepRecord, k: int): int
  {
    if StartDay(r) == k then Duration(r) else 0
  }

  /** The sum of the durations of the records that started on day k. */
  function MinutesOn(rs: seq<SleepRecord>, k: int): int
  {
    if rs == [] then 0
    else MinutesOn(rs[..|rs| - 1], k) + MinutesOf(rs[|rs| - 1], k)
  }

  /** What day k of the series should hold: the day's minutes inside the window, nothing outside it. */
  function SleepBucket(now: int, days: int, rs: seq<SleepRecord>, k: int): Option<int>
  {
    if InWindow(now, days, k) then Some(MinutesOn(rs, k)) else None
  }

  /** The route's formatting code, as a loop filling the map, a loop folding the records, and the sort. */
  method SleepTotals(now: int, days: int, records: seq<SleepRecord>) returns (series: seq<Entry<int>>)
    ensures series == SleepSeries(now, days, records)
    ensures Ascending(series)
    ensures |series| == if days <= 0 then 0 else days
    ensures forall k :: Get(series, k) == SleepBucket(now, days, records, k)
  {
    var daily: seq<Entry<int>> := [];
    var i := 0;
    while i < days
      invariant 0 <= i && (i <= days || i == 0)
      invariant daily == InitialBuckets(now, i)
    {
      var date := StartOfDay(SubDays(now, i));
      daily := Set(daily, DayKey(date), 0);
      i := i + 1;
    }
    assert daily == InitialBuckets(now, days);
    var j := 0;
    while j < |records|
      invariant 0 <= j <= |records|
      invariant daily == FoldSleep(InitialBuckets(now, days), records[..j])
    {
      var sleep := records[j];
      var duration := DifferenceInMinutes(sleep.endTime, sleep.startTime);
      var day := DayKey(StartOfDay(sleep.startTime));
      if Get(daily, day).Some? {
        daily := Set(daily, day, Get(daily, day).value + duration);
      }
      assert records[..j + 1][..j] == records[..j];
      j := j + 1;
    }
    assert records[..|records|] == records;
    series := SortByKey(daily);
    SleepSeriesSpec(now, days, records);
  }

  /** What the series states, gathered for the method above. */
  lemma {:induction false} SleepSeriesSpec(now: int, days: int, rs: seq<SleepRecord>)
    ensures Ascending(SleepSeries(now, days, rs))
    ensures |SleepSeries(now, days, rs)| == if days <= 0 then 0 else days
    ensures forall k :: Get(SleepSeries(now, days, rs), k) == SleepBucket(now, days, rs, k)
  {
    SleepSeriesShape(now, days, rs);
    forall k ensures Get(SleepSeries(now, days, rs), k) == SleepBucket(now, days, rs, k) {
      SleepSeriesBuckets(now, days, rs, k);
    }
  }

  /** The fold changes values only: the keys and their order are those of the starting map. */
  lemma {:induction false} FoldSleepKeys(m: seq<Entry<int>>, rs: seq<SleepRecord>)
    ensures Keys(FoldSleep(m, rs)) == Keys(m)
  {
    if rs != [] {
      var f, r := FoldSleep(m, rs[..|rs| - 1]), rs[|rs| - 1];
      FoldSleepKeys(m, rs[..|rs| - 1]);
      if Get(f, StartDay(r)).Some? {
        SetKeys(f, StartDay(r), Get(f, StartDay(r)).value + Duration(r));
      }
    }
  }

  /** The fold keeps keys distinct and never changes how many there are. */
  lemma {:induction false} FoldSleepShape(m: seq<Entry<int>>, rs: seq<SleepRecord>)
    requires DistinctKeys(m)
    ensures DistinctKeys(FoldSleep(m, rs))
    ensures |FoldSleep(m, rs)| == |m|
  {
    if rs != [] {
      var f, r := FoldSleep(m, rs[..|rs| - 1]), rs[|rs| - 1];
      FoldSleepShape(m, rs[..|rs| - 1]);
      if Get(f, StartDay(r)).Some? {
        SetShape(f, StartDay(r), Get(f, StartDay(r)).value + Duration(r));
      }
    }
  }

  /** After the fold, a present key holds its initial value plus the minutes of the records that started on it. */
  lemma {:induction false} FoldSleepGet(m: seq<Entry<int>>, rs: seq<SleepRecord>, k: int)
    ensures Get(FoldSleep(m, rs), k) ==
      match Get(m, k) case Some(v) => Some(v + MinutesOn(rs, k)) case None => None
  {
    if rs != [] {
      var p, r := rs[..|rs| - 1], rs[|rs| - 1];
      var f := FoldSleep(m, p);
      FoldSleepGet(m, p, k);
      FoldSleepGet(m, p, StartDay(r));
      if Get(f, StartDay(r)).Some? {
        GetSet(f, StartDay(r), Get(f, StartDay(r)).value + Duration(r), k);
      }
    }
  }

  /**
   * Each day of the window is a bucket holding the minutes of the records that
   * started on it, whatever their sign; a day outside the window is never a key.
   */
  lemma {:induction false} SleepSeriesBuckets(now: int, days: int, rs: seq<SleepRecord>, k: int)
    ensures Get(SleepSeries(now, days, rs), k) == SleepBucket(now, days, rs, k)
  {
    InitialBucketsShape(now, days);
    GetSort(FoldSleep(InitialBuckets(now, days), rs), k);
    FoldSleepGet(InitialBuckets(now, days), rs, k);
  }

  /** The series has exactly one entry per day of the window, ascending by date. */
  lemma {:induction false} SleepSeriesShape(now: int, days: int, rs: seq<SleepRecord>)
    ensures |SleepSeries(now, days, rs)| == if days <= 0 then 0 else days
    ensures Ascending(SleepSeries(now, days, rs))
    ensures DistinctKeys(SleepSeries(now, days, rs))
  {
    InitialBucketsShape(now, days);
    FoldSleepShape(InitialBuckets(now, days), rs);
    SortAscending(FoldSleep(InitialBuckets(now, days), rs));
  }

  /** A record whose start day is not a bucket changes nothing. */
  lemma {:induction false} StragglerIgnored(now: int, days: int, rs: seq<SleepRecord>, r: SleepRecord)
    requires !InWindow(now, days, StartDay(r))
    ensures SleepSeries(now, days, rs + [r]) == SleepSeries(now, days, rs)
  {
    InitialBucketsShape(now, days);
    assert (rs + [r])[..|rs + [r]| - 1] == rs;
    FoldSleepGet(InitialBuckets(now, days), rs, StartDay(r));
  }

  /** A record that ends at least a minute before it starts lowers its day's total below zero. */
  lemma {:induction false} NegativeDurationNotClamped(now: int, days: int, r: SleepRecord)
    requires InWindow(now, days, StartDay(r))
    requires r.endTime + MsPerMinute <= r.startTime
    ensures Get(SleepSeries(now, days, [r]), StartDay(r)) == Some(Duration(r))
    ensures Duration(r) < 0
  {
    SleepSeriesBuckets(now, days, [r], StartDay(r));
    assert [r][..0] == [];
    assert MinutesOn([r], StartDay(r)) == Duration(r);
  }

  /**
   * A 150-minute sleep from 23:00 yesterday to 01:30 today counts 150 minutes
   * for yesterday and nothing for today: it is not split at midnight.
   */
  lemma {:induction false} OvernightSleepStaysOnStartDay(now: int, days: int)
    requires days >= 2
    ensures var start := (DayOf(now) - 1) * MsPerDay + 23 * 60 * MsPerMinute;
      var r := SleepRecord(start, start + 150 * MsPerMinute);
      Get(SleepSeries(now, days, [r]), DayOf(now) - 1) == Some(150) &&
      Get(SleepSeries(now, days, [r]), DayOf(now)) == Some(0)
  {
    var start := (DayOf(now) - 1) * MsPerDay + 23 * 60 * MsPerMinute;
    var r := SleepRecord(start, start + 150 * MsPerMinute);
    DayOfShift(23 * 60 * MsPerMinute, DayOf(now) - 1);
    assert StartDay(r) == DayOf(now) - 1;
    assert Duration(r) == 150;
    assert [r][..0] == [];
    assert MinutesOn([r], DayOf(now) - 1) == 150;
    assert MinutesOn([r], DayOf(now)) == 0;
    SleepSeriesBuckets(now, days, [r], DayOf(now) - 1);
    SleepSeriesBuckets(now, days, [r], DayOf(now));
  }

  lemma {:induction false} MinutesOnAppend(a: seq<SleepRecord>, b: seq<SleepRecord>, k: int)
    ensures MinutesOn(a + b, k) == MinutesOn(a, k) + MinutesOn(b, k)
    decreases |b|
  {
    if b == [] {
      assert a + b == a;
    } else {
      assert (a + b)[..|a + b| - 1] == a + b[..|b| - 1];
      assert (a + b)[|a + b| - 1] == b[|b| - 1];
      MinutesOnAppend(a, b[..|b| - 1], k);
    }
  }

  /** Taking out the record at index i removes one copy of it and its contribution. */
  lemma {:induction false} RemoveRecord(rs: seq<SleepRecord>, i: nat, k: int)
    requires i < |rs|
    ensures multiset(rs[..i] + rs[i + 1..]) == multiset(rs) - multiset{rs[i]}
    ensures MinutesOn(rs, k) == MinutesOn(rs[..i] + rs[i + 1..], k) + MinutesOf(rs[i], k)
  {
    var a, x, b := rs[..i], rs[i], rs[i + 1..];
    assert rs == a + [x] + b;
    assert multiset(rs) == multiset(a) + multiset{x} + multiset(b);
    assert multiset(a + b) == multiset(a) + multiset(b);
    MinutesOnAppend(a, b, k);
    MinutesOnAppend(a + [x], b, k);
    MinutesOnAppend(a, [x], k);
    assert [x][..0] == [];
  }

  /** A day's minutes depend on which records there are, not on their order. */
  lemma {:induction false} MinutesOnPermutation(r1: seq<SleepRecord>, r2: seq<SleepRecord>, k: int)
    requires multiset(r1) == multiset(r2)
    ensures MinutesOn(r1, k) == MinutesOn(r2, k)
    decreases |r1|
  {
    if r1 == [] {
      assert |r2| == |multiset(r2)| == 0;
    } else {
      var p, x := r1[..|r1| - 1], r1[|r1| - 1];
      assert r1 == p + [x];
      assert multiset(r1) == multiset(p) + multiset{x};
      assert x in multiset(r2);
      var i :| 0 <= i < |r2| && r2[i] == x;
      RemoveRecord(r2, i, k);
      assert multiset(p) == multiset(r2[..i] + r2[i + 1..]);
      MinutesOnPermutation(p, r2[..i] + r2[i + 1..], k);
    }
  }

  /** Reordering the records leaves the series unchanged. */
  lemma {:induction false} SleepSeriesOrderIndependent(now: int, days: int, r1: seq<SleepRecord>, r2: seq<SleepRecord>)
    requires multiset(r1) == multiset(r2)
    ensures SleepSeries(now, days, r1) == SleepSeries(now, days, r2)
  {
    var init := InitialBuckets(now, days);
    InitialBucketsShape(now, days);
    FoldSleepShape(init, r1);
    FoldSleepKeys(init, r1);
    FoldSleepKeys(init, r2);
    forall k ensures Get(FoldSleep(init, r1), k) == Get(FoldSleep(init, r2), k) {
      FoldSleepGet(init, r1, k);
      FoldSleepGet(init, r2, k);
      MinutesOnPermutation(r1, r2, k);
    }
    SameKeysSameGet(FoldSleep(init, r1), FoldSleep(init, r2));
  }
}
