/**
 * The calendar arithmetic the analytics code takes from date-fns and `Date`,
 * on instants written as integer milliseconds. A day is a fixed 86 400 000 ms
 * (no time zone, no daylight-saving change); the ISO date key
 * `d.toISOString().split('T')[0]` of a start-of-day instant is represented
 * by the number of that day, which orders days exactly as the keys do.
 */
module Time {
  const MsPerMinute: int := 60_000
  const MsPerDay: int := 86_400_000

  /** The number of the day an instant falls on. */
  function DayOf(t: int): int
  {
    t / MsPerDay
  }

  /** `startOfDay(t)`: the first instant of t's day. */
  function StartOfDay(t: int): (s: int)
    ensures s <= t < s + MsPerDay
    ensures s % MsPerDay == 0
    ensures DayOf(s) == DayOf(t)
  {
    t - t % MsPerDay
  }

  /** `subDays(t, n)`: n whole days earlier (later when n is negative). */
  function SubDays(t: int, n: int): int
  {
    t - n * MsPerDay
  }

  /** The ISO `YYYY-MM-DD` key of an instant, represented by its day number. */
  function DayKey(t: int): int
  {
    DayOf(t)
  }

  /** Distinct days have distinct keys, in the same order. */
  lemma {:induction false} DayKeyOrder(s: int, t: int)
    requires s % MsPerDay == 0 && t % MsPerDay == 0
    ensures s < t <==> DayKey(s) < DayKey(t)
    ensures s == t <==> DayKey(s) == DayKey(t)
  {
    assert s == DayKey(s) * MsPerDay;
    assert t == DayKey(t) * MsPerDay;
  }

  /** Shifting by whole days shifts the day number by the same amount. */
  lemma {:induction false} DayOfShift(t: int, n: int)
    ensures DayOf(t + n * MsPerDay) == DayOf(t) + n
  {
    var q, r := t / MsPerDay, t % MsPerDay;
    assert t == q * MsPerDay + r && 0 <= r < MsPerDay;
    assert t + n * MsPerDay == (q + n) * MsPerDay + r;
  }

  /** `differenceInMinutes(later, earlier)`: whole minutes, truncated toward zero. */
  function DifferenceInMinutes(later: int, earlier: int): (m: int)
    ensures later >= earlier ==> 0 <= m * MsPerMinute <= later - earlier < (m + 1) * MsPerMinute
    ensures later < earlier ==> (m - 1) * MsPerMinute < later - earlier <= m * MsPerMinute <= 0
  {
    var diff := later - earlier;
    if diff >= 0 then diff / MsPerMinute else -((-diff) / MsPerMinute)
  }
}

/** The start of the analytics window (src/lib/server/analytics.ts). */
module Analytics {
  import opened Time

  /** `subDays(startOfDay(now), days - 1)`; `days` is not checked. */
  function GetAnalyticsStartDate(now: int, days: int): (start: int)
    ensures start % MsPerDay == 0
    ensures DayOf(start) == DayOf(now) - (days - 1)
  {
    DayOfShift(StartOfDay(now), -(days - 1));
    SubDays(StartOfDay(now), days - 1)
  }

  /** A day with a key inside the `days`-day window that ends today. */
  predicate InWindow(now: int, days: int, key: int)
  {
    DayOf(now) - days < key <= DayOf(now)
  }

  /** One day gives the start of today; the window from the start to today spans `days` calendar days. */
  lemma {:induction false} WindowSpansDays(now: int, days: int)
    ensures days == 1 ==> GetAnalyticsStartDate(now, days) == StartOfDay(now)
    ensures DayOf(now) - DayOf(GetAnalyticsStartDate(now, days)) + 1 == days
    ensures InWindow(now, days, DayOf(GetAnalyticsStartDate(now, days))) <==> days >= 1
  {
  }

  /** A longer window starts earlier or at the same instant. */
  lemma {:induction false} StartMonotone(now: int, days: int, moreDays: int)
    requires days <= moreDays
    ensures GetAnalyticsStartDate(now, moreDays) <= GetAnalyticsStartDate(now, days)
  {
    assert (moreDays - 1) * MsPerDay >= (days - 1) * MsPerDay;
  }

  /** For `days >= 1` the start is at or before now; `days = 0` gives the start of tomorrow. */
  lemma {:induction false} StartBeforeNow(now: int, days: int)
    ensures days >= 1 ==> GetAnalyticsStartDate(now, days) <= now
    ensures days == 0 ==> GetAnalyticsStartDate(now, days) == StartOfDay(now) + MsPerDay
    ensures days <= 0 ==> GetAnalyticsStartDate(now, days) > now
  {
    if days >= 1 {
      assert (days - 1) * MsPerDay >= 0;
    } else {
      assert (days - 1) * MsPerDay <= -MsPerDay;
    }
  }

  /** The query window `[start, now]` holds exactly the instants whose day is in the window. */
  lemma {:induction false} QueryBoundsMatchWindow(now: int, days: int, t: int)
    requires days >= 1
    ensures GetAnalyticsStartDate(now, days) <= t <= now ==> InWindow(now, days, DayOf(t))
    ensures InWindow(now, days, DayOf(t)) && t <= now ==> GetAnalyticsStartDate(now, days) <= t
  {
    var start := GetAnalyticsStartDate(now, days);
    assert start == DayOf(start) * MsPerDay;
    var q, r := t / MsPerDay, t % MsPerDay;
    assert t == q * MsPerDay + r && 0 <= r < MsPerDay;
    var qn, rn := now / MsPerDay, now % MsPerDay;
    assert now == qn * MsPerDay + rn && 0 <= rn < MsPerDay;
    if InWindow(now, days, DayOf(t)) && t <= now {
      assert q >= DayOf(start);
      assert t >= q * MsPerDay >= DayOf(start) * MsPerDay;
    }
  }
}
