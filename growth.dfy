/**
 * The growth series of src/app/api/analytics/growth/route.ts: a loop that
 * steps a date one day at a time from the window's start while it is not past
 * now, setting an all-null placeholder for each day; then each fetched entry
 * overwrites its day's value, so the last entry of a day wins; then the map is
 * emitted as `{date: key, ...measurements}` ascending by date.
 */
module GrowthAnalytics {
  import opened Wrappers
  import opened Time
  import opened Analytics
  import opened DayMap

  /** The six measurement columns, each nullable; units are the enum's member names. */
  datatype Measurements = Measurements(
    weight: Option<real>, weightUnit: Option<string>,
    height: Option<real>, heightUnit: Option<string>,
    headCircumference: Option<real>, headCircUnit: Option<string>)

  /** The all-null measurements of a placeholder day. */
  const NoMeasurements := Measurements(None, None, None, None, None, None)

  /** One fetched row: its date and its measurements. */
  datatype GrowthEntry = GrowthEntry(date: int, measurements: Measurements)

  /** The placeholder for day k: dated `new Date(dayString)`, midnight of the day, all fields null. */
  function Placeholder(k: int): GrowthEntry
  {
    GrowthEntry(k * MsPerDay, NoMeasurements)
  }

  function EntryDay(e: GrowthEntry): int
  {
    DayKey(StartOfDay(e.date))
  }

  /** The map after `rounds` rounds of the loop, whose date starts at `start` and gains a day per round. */
  function Placeholders(start: int, rounds: int): seq<Entry<GrowthEntry>>
    decreases rounds
  {
    if rounds <= 0 then []
    else
      var key := DayKey(StartOfDay(start + (rounds - 1) * MsPerDay));
      Set(Placeholders(start, rounds - 1), key, Placeholder(key))
  }

  /** The map after the `forEach` over `es`: each entry is set on its day. */
  function FoldEntries(m: seq<Entry<GrowthEntry>>, es: seq<GrowthEntry>): seq<Entry<GrowthEntry>>
  {
    if es == [] then m else Set(FoldEntries(m, es[..|es| - 1]), EntryDay(es[|es| - 1]), es[|es| - 1])
  }

  /** The `map` step: the key becomes the point's date, the measurements are copied. */
  function Points(m: seq<Entry<GrowthEntry>>): seq<Entry<Measurements>>
  {
    if m == [] then [] else [Entry(m[0].key, m[0].value.measurements)] + Points(m[1..])
  }

  /** The response body for a window of `days` days ending today. */
  function GrowthSeries(now: int, days: int, es: seq<GrowthEntry>): seq<Entry<Measurements>>
  {
    SortByKey(Points(FoldEntries(Placeholders(GetAnalyticsStartDate(now, days), days), es)))
  }

  /** The last entry in the list that falls on day k. */
  function LastOn(es: seq<GrowthEntry>, k: int): Option<GrowthEntry>
  {
    if es == [] then None
    else if EntryDay(es[|es| - 1]) == k then Some(es[|es| - 1])
    else LastOn(es[..|es| - 1], k)
  }

  /** What day k of the series should hold: its last entry's measurements, or nulls on a window day without entries. */
  function GrowthBucket(now: int, days: int, es: seq<GrowthEntry>, k: int): Option<Measurements>
  {
    match LastOn(es, k)
    case Some(e) => Some(e.measurements)
    case None => if InWindow(now, days, k) then Some(NoMeasurements) else None
  }

  /** The route's formatting code: the day-stepping placeholder loop, the overwriting loop, and the conversion and sort. */
  method GrowthPoints(now: int, days: int, entries: seq<GrowthEntry>) returns (series: seq<Entry<Measurements>>)
    ensures series == GrowthSeries(now, days, entries)
    ensures Ascending(series)
    ensures forall k :: Get(series, k) == GrowthBucket(now, days, entries, k)
  {
    var start := GetAnalyticsStartDate(now, days);
    var daily: seq<Entry<GrowthEntry>> := [];
    var d := start;
    ghost var rounds := 0;
    while d <= now
      invariant d == start + rounds * MsPerDay
      invariant rounds >= 0 && (rounds == 0 || start + (rounds - 1) * MsPerDay <= now)
      invariant daily == Placeholders(start, rounds)
      decreases now - d
    {
      var dayString := DayKey(StartOfDay(d));
      daily := Set(daily, dayString, Placeholder(dayString));
      d := d + MsPerDay;
      rounds := rounds + 1;
    }
    LoopRunsDays(now, days, rounds);
    assert daily == Placeholders(start, days);
    var j := 0;
    while j < |entries|
      invariant 0 <= j <= |entries|
      invariant daily == FoldEntries(Placeholders(start, days), entries[..j])
    {
      var entry := entries[j];
      var dayString := DayKey(StartOfDay(entry.date));
      daily := Set(daily, dayString, entry);
      assert entries[..j + 1][..j] == entries[..j];
      j := j + 1;
    }
    assert entries[..|entries|] == entries;
    series := SortByKey(Points(daily));
    GrowthSeriesSpec(now, days, entries);
  }

  /**
   * The placeholder loop, started at `GetAnalyticsStartDate(now, days)` and
   * stopped at the first date past now, runs `days` rounds, or none when `days <= 0`.
   */
  lemma {:induction false} LoopRunsDays(now: int, days: int, rounds: int)
    requires rounds >= 0
    requires GetAnalyticsStartDate(now, days) + rounds * MsPerDay > now
    requires rounds == 0 || GetAnalyticsStartDate(now, days) + (rounds - 1) * MsPerDay <= now
    ensures Placeholders(GetAnalyticsStartDate(now, days), rounds) == Placeholders(GetAnalyticsStartDate(now, days), days)
    ensures rounds == if days <= 0 then 0 else days
  {
    assert GetAnalyticsStartDate(now, days) == StartOfDay(now) - (days - 1) * MsPerDay;
  }

  /** The placeholders are the `rounds` consecutive days from the start's day, each null and each once. */
  lemma {:induction false} PlaceholdersShape(start: int, rounds: int)
    ensures DistinctKeys(Placeholders(start, rounds))
    ensures |Placeholders(start, rounds)| == if rounds <= 0 then 0 else rounds
    ensures forall k ::
              Get(Placeholders(start, rounds), k) ==
              (if DayOf(start) <= k < DayOf(start) + rounds then Some(Placeholder(k)) else None)
    decreases rounds
  {
    if rounds > 0 {
      var prev := Placeholders(start, rounds - 1);
      var key := DayKey(StartOfDay(start + (rounds - 1) * MsPerDay));
      PlaceholdersShape(start, rounds - 1);
      DayOfShift(start, rounds - 1);
      assert key == DayOf(start) + rounds - 1;
      SetShape(prev, key, Placeholder(key));
      forall k ensures Get(Placeholders(start, rounds), k) ==
        (if DayOf(start) <= k < DayOf(start) + rounds then Some(Placeholder(k)) else None)
      {
        GetSet(prev, key, Placeholder(key), k);
      }
    }
  }

  /** Started at the analytics start date, the placeholders are exactly the window's days. */
  lemma {:induction false} PlaceholdersAreWindow(now: int, days: int)
    ensures DistinctKeys(Placeholders(GetAnalyticsStartDate(now, days), days))
    ensures |Placeholders(GetAnalyticsStartDate(now, days), days)| == if days <= 0 then 0 else days
    ensures forall k ::
              Get(Placeholders(GetAnalyticsStartDate(now, days), days), k) ==
              (if InWindow(now, days, k) then Some(Placeholder(k)) else None)
  {
    PlaceholdersShape(GetAnalyticsStartDate(now, days), days);
  }

  /** After the overwrites, a day holds its last entry, or its value before the loop when it has none. */
  lemma {:induction false} FoldEntriesGet(m: seq<Entry<GrowthEntry>>, es: seq<GrowthEntry>, k: int)
    ensures Get(FoldEntries(m, es), k) == if LastOn(es, k).Some? then LastOn(es, k) else Get(m, k)
  {
    if es != [] {
      FoldEntriesGet(m, es[..|es| - 1], k);
      GetSet(FoldEntries(m, es[..|es| - 1]), EntryDay(es[|es| - 1]), es[|es| - 1], k);
    }
  }

  /** The overwrites keep keys distinct, never drop a day, and add one when an entry's day was absent. */
  lemma {:induction false} FoldEntriesLength(m: seq<Entry<GrowthEntry>>, es: seq<GrowthEntry>, k: int)
    requires DistinctKeys(m)
    ensures DistinctKeys(FoldEntries(m, es))
    ensures |FoldEntries(m, es)| >= |m|
    ensures Get(m, k).None? && LastOn(es, k).Some? ==> |FoldEntries(m, es)| > |m|
  {
    if es != [] {
      var p, e := es[..|es| - 1], es[|es| - 1];
      var f := FoldEntries(m, p);
      FoldEntriesLength(m, p, k);
      FoldEntriesGet(m, p, EntryDay(e));
      SetShape(f, EntryDay(e), e);
    }
  }

  /** Converting to points keeps the keys and reads each day's measurements. */
  lemma {:induction false} PointsGet(m: seq<Entry<GrowthEntry>>, k: int)
    ensures Get(Points(m), k) == match Get(m, k) case Some(e) => Some(e.measurements) case None => None
    ensures DistinctKeys(m) ==> DistinctKeys(Points(m))
    ensures |Points(m)| == |m|
  {
    if m != [] {
      PointsGet(m[1..], k);
      PointsGet(m[1..], m[0].key);
    }
  }

  /**
   * Each day with entries holds the measurements of its last entry; each other
   * day of the window holds nulls; no other day is a key.
   */
  lemma {:induction false} GrowthSeriesBuckets(now: int, days: int, es: seq<GrowthEntry>, k: int)
    ensures Get(GrowthSeries(now, days, es), k) == GrowthBucket(now, days, es, k)
  {
    var init := Placeholders(GetAnalyticsStartDate(now, days), days);
    PlaceholdersAreWindow(now, days);
    GetSort(Points(FoldEntries(init, es)), k);
    PointsGet(FoldEntries(init, es), k);
    FoldEntriesGet(init, es, k);
  }

  /** The series is ascending by date, each date once. */
  lemma {:induction false} GrowthSeriesAscending(now: int, days: int, es: seq<GrowthEntry>)
    ensures Ascending(GrowthSeries(now, days, es))
    ensures DistinctKeys(GrowthSeries(now, days, es))
  {
    var init := Placeholders(GetAnalyticsStartDate(now, days), days);
    PlaceholdersAreWindow(now, days);
    FoldEntriesLength(init, es, 0);
    PointsGet(FoldEntries(init, es), 0);
    SortAscending(Points(FoldEntries(init, es)));
  }

  /** What the series states, gathered for the method above. */
  lemma {:induction false} GrowthSeriesSpec(now: int, days: int, es: seq<GrowthEntry>)
    ensures Ascending(GrowthSeries(now, days, es))
    ensures forall k :: Get(GrowthSeries(now, days, es), k) == GrowthBucket(now, days, es, k)
  {
    GrowthSeriesAscending(now, days, es);
    forall k ensures Get(GrowthSeries(now, days, es), k) == GrowthBucket(now, days, es, k) {
      GrowthSeriesBuckets(now, days, es, k);
    }
  }

  /** An entry outside the window is not dropped: its day becomes a key beyond the `days` placeholders. */
  lemma {:induction false} StragglerAddsDay(now: int, days: int, es: seq<GrowthEntry>, i: nat)
    requires i < |es| && !InWindow(now, days, EntryDay(es[i]))
    ensures Get(GrowthSeries(now, days, es), EntryDay(es[i])).Some?
    ensures |GrowthSeries(now, days, es)| > if days <= 0 then 0 else days
  {
    var k := EntryDay(es[i]);
    var init := Placeholders(GetAnalyticsStartDate(now, days), days);
    LastOnExists(es, k, i);
    GrowthSeriesBuckets(now, days, es, k);
    PlaceholdersAreWindow(now, days);
    FoldEntriesLength(init, es, k);
    PointsGet(FoldEntries(init, es), k);
  }

  /** A day with an entry at index i has a last entry. */
  lemma {:induction false} LastOnExists(es: seq<GrowthEntry>, k: int, i: nat)
    requires i < |es| && EntryDay(es[i]) == k
    ensures LastOn(es, k).Some?
  {
    if EntryDay(es[|es| - 1]) != k {
      LastOnExists(es[..|es| - 1], k, i);
    }
  }

  /** The entry chosen for day k is the one at the largest index of the list that falls on k. */
  lemma {:induction false} LastOnIsLastIndex(es: seq<GrowthEntry>, k: int)
    requires LastOn(es, k).Some?
    ensures exists i ::
              0 <= i < |es| && es[i] == LastOn(es, k).value && EntryDay(es[i]) == k &&
              forall j :: i < j < |es| ==> EntryDay(es[j]) != k
  {
    var n := |es| - 1;
    if EntryDay(es[n]) != k {
      var p := es[..n];
      LastOnIsLastIndex(p, k);
      var i :| 0 <= i < |p| && p[i] == LastOn(p, k).value && EntryDay(p[i]) == k &&
        forall j :: i < j < |p| ==> EntryDay(p[j]) != k;
      assert es[i] == p[i];
      assert forall j :: i < j < |es| ==> EntryDay(es[j]) != k by {
        forall j | i < j < |es| ensures EntryDay(es[j]) != k {
          if j < n {
            assert es[j] == p[j];
          }
        }
      }
    } else {
      assert es[n] == LastOn(es, k).value;
    }
  }

  /** With the entries ordered by date, as the query returns them, the chosen entry is the latest of its day. */
  lemma {:induction false} LastOnIsLatest(es: seq<GrowthEntry>, k: int)
    requires forall i, j :: 0 <= i < j < |es| ==> es[i].date <= es[j].date
    requires LastOn(es, k).Some?
    ensures forall i :: 0 <= i < |es| && EntryDay(es[i]) == k ==> es[i].date <= LastOn(es, k).value.date
  {
    LastOnIsLastIndex(es, k);
    var i :| 0 <= i < |es| && es[i] == LastOn(es, k).value && EntryDay(es[i]) == k &&
      forall j :: i < j < |es| ==> EntryDay(es[j]) != k;
    forall j | 0 <= j < |es| && EntryDay(es[j]) == k ensures es[j].date <= LastOn(es, k).value.date {
      assert j <= i;
    }
  }
}
