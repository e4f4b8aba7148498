/**
 * The zero-filled day buckets that the feedings and sleep routes build before
 * folding in their rows: `for (i = 0; i < days; i++)` sets the key of
 * `startOfDay(subDays(now, i))` to 0, today first, then each earlier day.
 */
module DailyBuckets {
  import opened Wrappers
  import opened Time
  import opened Analytics
  import opened DayMap

  /** The key the loop sets in round `i`. */
  function RoundKey(now: int, i: int): int
  {
    DayKey(StartOfDay(SubDays(now, i)))
  }

  /** The map after the first `rounds` rounds of the loop. */
  function InitialBuckets(now: int, rounds: int): seq<Entry<int>>
    decreases rounds
  {
    if rounds <= 0 then []
    else Set(InitialBuckets(now, rounds - 1), RoundKey(now, rounds - 1), 0)
  }

  /** Round i sets the key of the day i days before today. */
  lemma {:induction false} RoundKeyIsDayBefore(now: int, i: int)
    ensures RoundKey(now, i) == DayOf(now) - i
  {
    DayOfShift(now, -i);
  }

  /** The buckets are today and the `rounds - 1` days before it, each at 0, each once. */
  lemma {:induction false} InitialBucketsShape(now: int, rounds: int)
    ensures DistinctKeys(InitialBuckets(now, rounds))
    ensures |InitialBuckets(now, rounds)| == if rounds <= 0 then 0 else rounds
    ensures SumValues(InitialBuckets(now, rounds)) == 0
    ensures forall k :: Get(InitialBuckets(now, rounds), k) == if InWindow(now, rounds, k) then Some(0) else None
    decreases rounds
  {
    if rounds > 0 {
      var prev := InitialBuckets(now, rounds - 1);
      var key := RoundKey(now, rounds - 1);
      InitialBucketsShape(now, rounds - 1);
      RoundKeyIsDayBefore(now, rounds - 1);
      assert Get(prev, key).None?;
      SetShape(prev, key, 0);
      SumSet(prev, key, 0);
      forall k ensures Get(InitialBuckets(now, rounds), k) == if InWindow(now, rounds, k) then Some(0) else None {
        GetSet(prev, key, 0, k);
      }
    }
  }

  /** The last key set, round `days - 1`, is the day of the analytics start date. */
  lemma {:induction false} EarliestRoundIsStartDay(now: int, days: int)
    requires days >= 1
    ensures RoundKey(now, days - 1) == DayOf(GetAnalyticsStartDate(now, days))
    ensures InWindow(now, days, RoundKey(now, days - 1))
    ensures forall k :: InWindow(now, days, k) ==> RoundKey(now, days - 1) <= k
  {
    RoundKeyIsDayBefore(now, days - 1);
  }
}
