# lillelogg — a verified model of the routing, analytics and form logic

lillelogg is a Next.js baby-activity logger. This project models in Dafny the
parts of it that make decisions without the database. The covered parts are:

- **The two middlewares.**
  - The locale middleware passes a request on, or rewrites it to carry a
    supported locale (`en` or `no`).
  - The root middleware redirects `/` to `/en`.
- **The analytics window.** `getAnalyticsStartDate` computes the first instant
  of a window of `days` days that ends today.
- **The three chart series.** The feedings, sleep and growth routes turn
  fetched rows into one series per window day:
  - each starts from a map pre-filled with the window's days;
  - each folds the rows into that map;
  - each emits the result ascending by date.
- **The activity and growth forms.** The model covers:
  - the local date and date-time formatters;
  - the guard that accepts a segmented-control value only when it names an
    enum member;
  - `coerceToDate`;
  - how the message shown after a failed API call is derived from the
    response body.
- **The mobile navigation bar.** It filters the layout's navigation items and
  highlights the active one.

Time is whole milliseconds since the epoch, and a day is 86 400 000 ms. A
day's ISO key `YYYY-MM-DD` is represented by its day number (`t / 86400000`).
Distinct days have distinct numbers, in the same order as their keys, so
"ascending by date" is "ascending by key". A JavaScript `Map` is its entries
in insertion order (module `DayMap`):

- `set` on a present key replaces the value in place;
- `set` on an absent key appends.

The route loops are methods (`FeedingCounts`, `SleepTotals`, `GrowthPoints`).
Each is proved equal to a specification function. That function's properties
are lemmas:

- which days are buckets, and what each holds;
- the order of the series;
- the total.

The error derivation is a method too (`ApiErrorMessage`), because the source
reassigns `errorMessage` across a `try`/`catch`.

Where the code and its own comments disagree, the model follows the code:

- **An unsupported locale is rewritten, not redirected.** The comment in
  `middleware.ts` says `/fr/dashboard` is redirected to `/en/dashboard`. But
  the redirect branch only runs after the prefix test has already matched a
  *supported* locale, so it is unreachable. `/fr/dashboard` is rewritten to
  `/en/fr/dashboard` (`RedirectUnreachable`, `UnsupportedLocaleRewritten`).
- **Feedings keep out-of-window rows.** A feeding row whose day is not a
  pre-filled key creates that key, so the series can hold more than `days`
  entries (`StragglerAddsKey`). The same holds for growth entries
  (`StragglerAddsDay`).
- **Sleep has no clamping.** Sleep records on a day outside the window are
  ignored (`StragglerIgnored`). A record that ends before it starts subtracts
  from its day (`NegativeDurationNotClamped`).

## Model

| member | source | states |
|---|---|---|
| LocaleMiddleware.HasLocalePrefix | middleware.ts:13 | the prefix test for one locale, defined; PassIffLocalePrefixed and LocalePrefixShape state what it accepts |
| LocaleMiddleware.PathnameHasLocale | middleware.ts:12-14 | `locales.some(...)`, defined; PassIffLocalePrefixed states that it decides Pass |
| LocaleMiddleware.RequestedLocale | middleware.ts:19 | the second `/`-piece, defined; RequestedIsMatchedLocale states that it is the matched locale |
| LocaleMiddleware.Middleware | middleware.ts:8-43 | the decision, defined; RedirectUnreachable, PassIffLocalePrefixed, RewriteKeepsPathname and RewriteIsStable state what it does |
| LocaleMiddleware.DetectLocale | middleware.ts:28-33 | the detected locale is always a supported one |
| LocaleMiddleware.RequestedIsMatchedLocale | middleware.ts:19 | when a supported locale prefix matched, the second `/`-piece of the pathname is that locale |
| LocaleMiddleware.RedirectUnreachable | middleware.ts:18-25 | no pathname and no header ever produce the redirect |
| LocaleMiddleware.PassIffLocalePrefixed | middleware.ts:12-18 | the request passes through exactly when the pathname starts with `/en/` or `/no/`, or is `/en` or `/no` |
| LocaleMiddleware.RewriteKeepsPathname | middleware.ts:26-38 | every other pathname is rewritten to `/` + detected locale + the pathname unchanged |
| LocaleMiddleware.RewriteTargetPrefixed | middleware.ts:36 | for a pathname starting with `/`, the rewrite target starts with `/en/` or `/no/` |
| LocaleMiddleware.RewriteIsStable | middleware.ts:12-38 | a rewrite target fed back through the middleware passes, with any header |
| LocaleMiddleware.DetectReadsFirstItemOnly | middleware.ts:28 | an unsupported first item without a region suffix gives `en`, whatever follows the first comma |
| LocaleMiddleware.DetectIgnoresLaterItems | middleware.ts:28 | the detected locale depends on the first comma-separated item only: what follows the first comma is never read |
| LocaleMiddleware.DetectKeepsSupportedLocale | middleware.ts:28-33 | a supported locale alone or with a `-region` suffix is detected as that locale |
| LocaleMiddleware.DetectUnsupportedFallsBack | middleware.ts:28-33 | any unsupported first item, alone or with a `-region` suffix (such as `fr-FR,no`), gives `en`, whatever follows the first comma |
| LocaleMiddleware.DetectIgnoresWeights | middleware.ts:28 | `no;q=0.9,en` gives `en`, because `q` weights are not parsed |
| LocaleMiddleware.DetectPrimarySubtag | middleware.ts:28 | `no-NO,en;q=0.8` gives `no`: the region is cut at the first `-` |
| LocaleMiddleware.DetectFallsBack | middleware.ts:28-33 | an absent header, or an empty first item, gives the default locale |
| LocaleMiddleware.UnsupportedLocaleRewritten | middleware.ts:12-38 | `/fr/dashboard` is rewritten to `/en/fr/dashboard` |
| LocaleMiddleware.LongerSegmentRewritten | middleware.ts:13 | `/enx` is not locale-prefixed and is rewritten to `/en/enx` |
| LocaleMiddleware.RootRewritten | middleware.ts:36 | `/` is rewritten to `/en/` |
| LocaleMiddleware.LocalePrefixShape | middleware.ts:13 | a prefixed pathname is `/`, the two letters of the locale, then nothing or `/` |
| RootMiddleware.Middleware | src/middleware.ts:4-12 | the root decision, defined; NoRedirectLoop and TargetPassesLocaleMiddleware state what its redirect leads to |
| RootMiddleware.NoRedirectLoop | src/middleware.ts:7-8 | following the redirect once more passes through |
| RootMiddleware.TargetPassesLocaleMiddleware | src/middleware.ts:8 | the redirect target `/en` passes the locale middleware |
| Time.SubDays | src/app/api/analytics/feedings/route.ts:63 | `subDays`, defined; DayOfShift states its effect on the day |
| Time.DayKey | src/app/api/analytics/feedings/route.ts:64 | the ISO day key, defined as the day number; DayKeyOrder states that it orders and identifies days like their keys |
| Time.StartOfDay | src/lib/server/analytics.ts:11 | the start of the day is at or before t, less than a day before it, and on the same day |
| Time.DayKeyOrder | src/app/api/analytics/feedings/route.ts:73-76 | day starts compare like their keys: order and equality agree |
| Time.DayOfShift | src/app/api/analytics/feedings/route.ts:63 | moving by n whole days moves the day number by n |
| Time.DifferenceInMinutes | src/app/api/analytics/sleep/route.ts:70 | whole minutes between two instants, truncated toward zero; at most 0 when the end is earlier, and negative once it is a minute or more earlier |
| Analytics.GetAnalyticsStartDate | src/lib/server/analytics.ts:10-14 | the start is midnight of the day `days - 1` days before today |
| Analytics.WindowSpansDays | src/lib/server/analytics.ts:12-13 | from the start's day to today inclusive is `days` days; one day is the start of today |
| Analytics.StartMonotone | src/lib/server/analytics.ts:13 | a longer window starts no later |
| Analytics.StartBeforeNow | src/lib/server/analytics.ts:10-14 | the start is before now for `days >= 1`; `days = 0` gives the start of tomorrow |
| Analytics.QueryBoundsMatchWindow | src/app/api/analytics/feedings/route.ts:54 | `startTime` between the start and now is the same as its day lying in the window |
| DayMap.Get | src/app/api/analytics/feedings/route.ts:70 | `map.get`, defined; GetSet, GetKeys and GetSort state how it reads |
| DayMap.Set | src/app/api/analytics/feedings/route.ts:70 | `map.set`, defined; GetSet, SetShape and SetKeys state what it changes |
| DayMap.SortByKey | src/app/api/analytics/feedings/route.ts:74-76 | the sort by date, defined; GetSort, SortAscending and SumSort state what it keeps and orders |
| DayMap.GetSet | src/app/api/analytics/feedings/route.ts:70 | after `set(k, v)`, `get(k)` is v and every other key reads as before |
| DayMap.SetShape | src/app/api/analytics/feedings/route.ts:70 | `set` keeps keys distinct; it adds an entry exactly when the key was absent |
| DayMap.SetKeys | src/app/api/analytics/sleep/route.ts:76 | `set` on a present key keeps the keys and their order |
| DayMap.GetSort | src/app/api/analytics/feedings/route.ts:74-76 | sorting the entries changes no lookup |
| DayMap.SortAscending | src/app/api/analytics/feedings/route.ts:74-76 | sorting a map's entries by date gives a series strictly ascending by date |
| DayMap.SumSort | src/app/api/analytics/feedings/route.ts:74-76 | sorting does not change the sum of the values |
| DailyBuckets.InitialBuckets | src/app/api/analytics/feedings/route.ts:61-65 | the pre-fill loop's map, defined; InitialBucketsShape states its contents |
| DailyBuckets.RoundKeyIsDayBefore | src/app/api/analytics/feedings/route.ts:62-65 | round i of the pre-fill loop sets the key of the day i days before today |
| DailyBuckets.InitialBucketsShape | src/app/api/analytics/feedings/route.ts:61-65 | the pre-filled map holds exactly the window's days, each once, each at 0 |
| DailyBuckets.EarliestRoundIsStartDay | src/app/api/analytics/sleep/route.ts:44-67 | the last round sets the day of the analytics start date, the earliest day of the window |
| FeedingAnalytics.AddGroup | src/app/api/analytics/feedings/route.ts:69-70 | one round of the `forEach`, defined; FoldGroupsGet states the result |
| FeedingAnalytics.FoldGroups | src/app/api/analytics/feedings/route.ts:68-71 | the `forEach`, defined; FoldGroupsGet, FoldGroupsLength and FoldGroupsSum state it |
| FeedingAnalytics.DailyCounts | src/app/api/analytics/feedings/route.ts:61-76 | the response body, defined; DailyCountsBuckets, DailyCountsAscending and DailyCountsTotal state it |
| FeedingAnalytics.FeedingCounts | src/app/api/analytics/feedings/route.ts:61-76 | the loops compute the series: ascending, each day holding its bucket value, total equal to all rows' counts |
| FeedingAnalytics.DailyCountsSpec | src/app/api/analytics/feedings/route.ts:61-76 | the series is ascending, each day holds its bucket value, and the values add up to all rows' counts |
| FeedingAnalytics.DailyCountsBuckets | src/app/api/analytics/feedings/route.ts:61-71 | a day is in the series iff it is in the window or some row falls on it; it holds the sum of its rows' counts |
| FeedingAnalytics.DailyCountsAscending | src/app/api/analytics/feedings/route.ts:74-76 | the series is strictly ascending by date |
| FeedingAnalytics.DailyCountsTotal | src/app/api/analytics/feedings/route.ts:68-71 | the counts in the series add up to the counts of all rows |
| FeedingAnalytics.DailyCountsNonNegative | src/app/api/analytics/feedings/route.ts:64-70 | every count in the series is non-negative |
| FeedingAnalytics.StragglerAddsKey | src/app/api/analytics/feedings/route.ts:69-70 | a row outside the window adds its own day, so the series has more than `days` entries |
| FeedingAnalytics.QueriedRowsFillWindow | src/app/api/analytics/feedings/route.ts:50-76 | with rows inside the query bounds, the series has exactly `days` entries, the window's days, starting on the start date's day |
| FeedingAnalytics.FoldGroupsGet | src/app/api/analytics/feedings/route.ts:68-71 | after the fold a day holds its initial value plus its rows' counts, and is a key iff either exists |
| FeedingAnalytics.FoldGroupsLength | src/app/api/analytics/feedings/route.ts:68-71 | the fold keeps keys distinct, never drops a day, and grows on a new day |
| FeedingAnalytics.FoldGroupsSum | src/app/api/analytics/feedings/route.ts:68-71 | the fold adds the rows' counts to the sum |
| FeedingAnalytics.CountOnAbsent | src/app/api/analytics/feedings/route.ts:70 | a day with no rows counts 0 |
| FeedingAnalytics.AnyOnLast | src/app/api/analytics/feedings/route.ts:68 | some row of gs falls on a day iff one of the earlier rows does or the last row does |
| SleepAnalytics.AddSleep | src/app/api/analytics/sleep/route.ts:70-77 | one round of the `forEach`, defined; FoldSleepGet states the result |
| SleepAnalytics.FoldSleep | src/app/api/analytics/sleep/route.ts:69-78 | the `forEach`, defined; FoldSleepKeys, FoldSleepShape and FoldSleepGet state it |
| SleepAnalytics.SleepSeries | src/app/api/analytics/sleep/route.ts:62-82 | the response body, defined; SleepSeriesBuckets, SleepSeriesShape and SleepSeriesOrderIndependent state it |
| SleepAnalytics.SleepTotals | src/app/api/analytics/sleep/route.ts:62-82 | the loops compute the series: ascending, `days` entries, each window day holding its minutes |
| SleepAnalytics.SleepSeriesSpec | src/app/api/analytics/sleep/route.ts:62-82 | the series is ascending, has `days` entries, and each day holds its bucket value |
| SleepAnalytics.SleepSeriesBuckets | src/app/api/analytics/sleep/route.ts:64-78 | a day is in the series iff it is in the window; it holds the minutes of the records that started on it |
| SleepAnalytics.SleepSeriesShape | src/app/api/analytics/sleep/route.ts:64-82 | one entry per window day, ascending by date |
| SleepAnalytics.FoldSleepKeys | src/app/api/analytics/sleep/route.ts:75-77 | the fold changes values only: the keys and their order stay those of the pre-filled map |
| SleepAnalytics.FoldSleepShape | src/app/api/analytics/sleep/route.ts:75-77 | the fold keeps keys distinct and the number of entries |
| SleepAnalytics.FoldSleepGet | src/app/api/analytics/sleep/route.ts:69-78 | a present day holds its initial value plus its records' minutes; an absent day stays absent |
| SleepAnalytics.StragglerIgnored | src/app/api/analytics/sleep/route.ts:75 | a record whose start day is outside the window changes nothing |
| SleepAnalytics.NegativeDurationNotClamped | src/app/api/analytics/sleep/route.ts:70-76 | a record that ends at least a minute before it starts adds a negative duration to its day |
| SleepAnalytics.OvernightSleepStaysOnStartDay | src/app/api/analytics/sleep/route.ts:72-76 | a sleep from 23:00 to 01:30 counts all 150 minutes on the day it started |
| SleepAnalytics.MinutesOnAppend | src/app/api/analytics/sleep/route.ts:69-78 | the minutes of a day over two record lists add up |
| SleepAnalytics.RemoveRecord | src/app/api/analytics/sleep/route.ts:69-78 | taking one record out removes exactly its contribution |
| SleepAnalytics.MinutesOnPermutation | src/app/api/analytics/sleep/route.ts:69-78 | a day's minutes do not depend on the order of the records |
| SleepAnalytics.SleepSeriesOrderIndependent | src/app/api/analytics/sleep/route.ts:56-82 | reordering the records leaves the series unchanged |
| GrowthAnalytics.Placeholders | src/app/api/analytics/growth/route.ts:69-80 | the placeholder loop's map, defined; PlaceholdersShape and PlaceholdersAreWindow state it |
| GrowthAnalytics.FoldEntries | src/app/api/analytics/growth/route.ts:82-85 | the overwriting `forEach`, defined; FoldEntriesGet and FoldEntriesLength state it |
| GrowthAnalytics.Points | src/app/api/analytics/growth/route.ts:87-96 | the `map` to points, defined; PointsGet states it |
| GrowthAnalytics.GrowthSeries | src/app/api/analytics/growth/route.ts:67-97 | the response body, defined; GrowthSeriesBuckets and GrowthSeriesAscending state it |
| GrowthAnalytics.GrowthPoints | src/app/api/analytics/growth/route.ts:67-97 | the loops compute the series: ascending, each day holding its last entry's measurements or nulls |
| GrowthAnalytics.GrowthSeriesSpec | src/app/api/analytics/growth/route.ts:67-97 | the series is ascending and each day holds its bucket value |
| GrowthAnalytics.LoopRunsDays | src/app/api/analytics/growth/route.ts:69 | the day-stepping loop from the start date to now runs exactly `days` rounds |
| GrowthAnalytics.PlaceholdersShape | src/app/api/analytics/growth/route.ts:69-80 | the placeholders are consecutive days from the start's day, all null, each once |
| GrowthAnalytics.PlaceholdersAreWindow | src/app/api/analytics/growth/route.ts:69-80 | starting at the analytics start date, the placeholders are exactly the window's days |
| GrowthAnalytics.FoldEntriesGet | src/app/api/analytics/growth/route.ts:82-85 | after the overwrites a day holds its last entry, or its earlier value |
| GrowthAnalytics.FoldEntriesLength | src/app/api/analytics/growth/route.ts:82-85 | the overwrites keep keys distinct, never drop a day, and add a new day |
| GrowthAnalytics.PointsGet | src/app/api/analytics/growth/route.ts:87-96 | the conversion to points keeps the keys and copies each day's measurements |
| GrowthAnalytics.GrowthSeriesBuckets | src/app/api/analytics/growth/route.ts:67-97 | a day is in the series iff it is in the window or has an entry; it holds its last entry's measurements, or nulls |
| GrowthAnalytics.GrowthSeriesAscending | src/app/api/analytics/growth/route.ts:97 | the series is strictly ascending by date |
| GrowthAnalytics.StragglerAddsDay | src/app/api/analytics/growth/route.ts:83-84 | an entry outside the window adds its day beyond the `days` placeholders |
| GrowthAnalytics.LastOnExists | src/app/api/analytics/growth/route.ts:82-85 | a day with an entry has a last entry |
| GrowthAnalytics.LastOnIsLastIndex | src/app/api/analytics/growth/route.ts:82-85 | the entry kept for a day is the one at the largest list index on that day |
| GrowthAnalytics.LastOnIsLatest | src/app/api/analytics/growth/route.ts:61-63 | with the entries in ascending date order, as queried, the kept entry is the latest of its day |
| DateFormat.Pad | src/components/features/activity/FeedingForm.tsx:29 | the `pad` helper, defined; PadTwoDigits states it |
| DateFormat.LocalDateString | src/components/features/growth/GrowthForm.tsx:13-16 | `getLocalDateString`, defined; DateStringPieces, DateStringRoundTrip, DateStringLength and DateStringOrder state it |
| DateFormat.LocalDateTimeString | src/components/features/activity/FeedingForm.tsx:28-33 | `getLocalDateTimeString`, defined; DateTimePieces and DateTimeRoundTrip state it |
| Strings.PadStart | src/components/features/activity/FeedingForm.tsx:29 | `padStart(width, fill)` has length `max(width, len)` |
| Strings.PadStartShape | src/components/features/activity/FeedingForm.tsx:29 | the padded string ends with the original and begins with fill characters |
| DateFormat.PadTwoDigits | src/components/features/activity/FeedingForm.tsx:29 | a number below 100 pads to two digits that read back as the number |
| DateFormat.DateStringChars | src/components/features/growth/GrowthForm.tsx:13-16 | a date string holds digits and dashes only |
| DateFormat.DateStringPieces | src/components/features/growth/GrowthForm.tsx:15 | with a non-negative year, the date string splits on `-` into year, 1-based month and day |
| DateFormat.DateStringRoundTrip | src/components/features/growth/GrowthForm.tsx:13-16 | splitting the date string and reading the numbers gives back `getFullYear()`, `getMonth() + 1` and `getDate()` |
| DateFormat.DateStringLength | src/components/features/growth/GrowthForm.tsx:15 | a four-digit year gives the ten characters `YYYY-MM-DD` |
| DateFormat.DateStringOrder | src/components/features/growth/GrowthForm.tsx:13-16 | for four-digit years, string order of date strings is chronological order |
| DateFormat.TimeFields | src/components/features/activity/DiaperForm.tsx:22-24 | hours and minutes print as two digits that read back as the values |
| DateFormat.DateTimeStartsWithDate | src/components/features/activity/SleepForm.tsx:18-23 | the date-time string starts with the date string of the same date, before the `T` |
| DateFormat.DateTimePieces | src/components/features/activity/DiaperForm.tsx:20-25 | the date-time string splits on `T` into the date and `hh:mm`, and that on `:` into hours and minutes |
| DateFormat.DateTimeRoundTrip | src/components/features/activity/FeedingForm.tsx:28-33 | the date-time string splits on `T` into the date string and `hh:mm`; hour and minute are two characters each and read back, and with DateStringRoundTrip every field reads back |
| FormHelpers.HandleTypeChange | src/components/features/activity/FeedingForm.tsx:69-73 | the guard, defined; TypeStaysMember, LastAcceptedWins and HandleTypeChangeIdempotent state it |
| FormHelpers.TypeStaysMember | src/components/features/activity/DiaperForm.tsx:58-62 | starting from a member, any run of changes keeps `type` a member |
| FormHelpers.LastAcceptedWins | src/components/features/activity/DiaperForm.tsx:58-62 | after a run of changes, other fields are unchanged; none accepted leaves the form as it was; an accepted last value wins |
| FormHelpers.HandleTypeChangeIdempotent | src/components/features/activity/FeedingForm.tsx:69-73 | repeating a change has no further effect |
| FormHelpers.TimeClip | src/components/features/activity/FeedingForm.tsx:24 | the time-value range check of `new Date(n)`, defined; CoerceNumberRoundTrip states it |
| FormHelpers.CoerceToDate | src/components/features/activity/FeedingForm.tsx:22-26 | `coerceToDate`, defined; CoerceKeepsDate, CoerceNumberRoundTrip, UnparsableStringIsInvalid, CoerceFallsBackToNow and CoerceIdempotent state it |
| FormHelpers.CoerceKeepsDate | src/components/features/activity/FeedingForm.tsx:23 | a `Date` argument is returned as it is, an Invalid Date included |
| FormHelpers.CoerceFallsBackToNow | src/components/features/activity/FeedingForm.tsx:25 | a value that is neither a Date, a string nor a number becomes the current date |
| FormHelpers.CoerceIdempotent | src/components/features/activity/FeedingForm.tsx:22-26 | coercing a coerced value again changes nothing |
| FormHelpers.CoerceNumberRoundTrip | src/components/features/activity/FeedingForm.tsx:24 | a number in range becomes the date with that time value; out of range, an Invalid Date |
| FormHelpers.UnparsableStringIsInvalid | src/components/features/activity/FeedingForm.tsx:24 | a string that does not parse gives an Invalid Date, not the fallback to now |
| JsonValue.LastField | src/components/features/activity/FeedingForm.tsx:97 | a field value is found iff some field has that name |
| JsonValue.Property | src/components/features/activity/FeedingForm.tsx:96-97 | reading a property throws exactly on `null`; only objects yield a value, their last field of that name |
| JsonValue.Truthy | src/components/features/activity/FeedingForm.tsx:97 | JavaScript truthiness, defined; ShownNeverEmpty and TruthyMessageShown use it |
| JsonValue.ToStr | src/components/features/activity/FeedingForm.tsx:101 | `String(v)`, defined; ToStrOfString, NumberMessageShown and EmptyArrayMessageShowsDefault state it |
| JsonValue.ToStrOfString | src/components/features/activity/FeedingForm.tsx:101 | a string message converts to itself, and is truthy iff non-empty |
| JsonValue.LastFieldWins | src/components/features/activity/FeedingForm.tsx:94 | of duplicate keys, the last one is the one read |
| ApiError.ThrownMessage | src/components/features/activity/FeedingForm.tsx:92-101 | the message the `Error` is thrown with, defined; the lemmas below state its cases |
| ApiError.OrElse | src/components/features/activity/FeedingForm.tsx:108 | `x || y` on strings, defined; ShownNeverEmpty and NoMessageShowsDefault state its effect |
| ApiError.ShownMessage | src/components/features/activity/FeedingForm.tsx:108 | the shown text, defined; ApiErrorMessage is proved equal to it, and the lemmas below state its cases |
| ApiError.ApiErrorMessage | src/components/features/activity/FeedingForm.tsx:91-108 | the shown message is the specified one, and never empty when the default is not |
| ApiError.ElementMessagesSpec | src/components/features/activity/FeedingForm.tsx:96 | the element messages exist iff no element is `null`, and are then each element's message text |
| ApiError.NotJsonShowsBody | src/components/features/activity/DiaperForm.tsx:84-86 | a body that is not JSON is shown as is; an empty one shows the default |
| ApiError.NullBodyShowsText | src/components/features/activity/SleepForm.tsx:78-83 | a body of `null` throws on `.message`, so the text `null` is shown |
| ApiError.ArrayJoinsMessages | src/components/features/activity/DiaperForm.tsx:81-82 | a non-empty array with no `null` element shows its elements' messages joined by `. ` |
| ApiError.ArrayWithNullShowsBody | src/components/features/activity/FeedingForm.tsx:95-100 | an array with a `null` element shows the raw body |
| ApiError.IssueListExample | src/components/features/activity/FeedingForm.tsx:95-96 | `[{"message":"a"},{"message":"b"}]` shows `a. b` |
| ApiError.ObjectMessageShown | src/components/features/activity/SleepForm.tsx:81 | an object with a non-empty string `message` shows that string |
| ApiError.TruthyMessageShown | src/components/features/activity/FeedingForm.tsx:97-101 | any truthy `message`, string or not, is shown as its `String` conversion, or the default when that conversion is empty |
| ApiError.NumberMessageShown | src/components/features/activity/DiaperForm.tsx:83-87 | `{"message":42}` shows `42` |
| ApiError.EmptyArrayMessageShowsDefault | src/components/features/activity/SleepForm.tsx:81-92 | `{"message":[]}` shows the default: `[]` is truthy but converts to the empty string |
| ApiError.NoMessageShowsDefault | src/components/features/activity/FeedingForm.tsx:97 | a non-null value without a truthy `message`, other than a non-empty array, shows the default |
| ApiError.EmptyArrayShowsDefault | src/components/features/activity/FeedingForm.tsx:95-97 | an empty array is not joined and shows the default |
| ApiError.ShownNeverEmpty | src/components/features/activity/DiaperForm.tsx:94 | with a non-empty default, the shown message is never empty |
| ApiError.GrowthFormError | src/components/features/growth/GrowthForm.tsx:95-118 | not JSON or `null` shows `networkError`; any other value shows its `message` exactly when that is truthy, and `logError` otherwise |
| ApiError.GrowthMessageShown | src/components/features/growth/GrowthForm.tsx:97 | a non-empty string `message` is shown |
| ApiError.GrowthIgnoresArrays | src/components/features/growth/GrowthForm.tsx:97 | an array body is never joined: `logError` is shown |
| ApiError.GrowthAlwaysShows | src/components/features/growth/GrowthForm.tsx:95-118 | with non-empty translations, the growth form always shows something |
| NavBar.MobileNavItems | src/components/layout/BottomNavBar.tsx:28 | the filter; its length bound serves LayoutMobileBar, and MobileNavMembers states which items it keeps |
| NavBar.MobileNavMembers | src/components/layout/BottomNavBar.tsx:28 | an item is on the bar iff it is in the layout and its icon is `FaHome`, `FaPencilAlt`, `FaStar` or `FaCog` |
| NavBar.MobileNavKeepsOrder | src/components/layout/BottomNavBar.tsx:28 | the bar is a subsequence of the layout's items |
| NavBar.MobileNavIdempotent | src/components/layout/BottomNavBar.tsx:28 | filtering twice is filtering once |
| NavBar.IsActive | src/components/layout/BottomNavBar.tsx:36 | `pathname === item.href`, defined; NoPrefixMatch and AtMostOneActive state it |
| NavBar.NoPrefixMatch | src/components/layout/SidebarNav.tsx:43 | a page below an item's href does not make it active |
| NavBar.AtMostOneActive | src/components/layout/BottomNavBar.tsx:36-38 | with distinct hrefs, at most one item is active |
| NavBar.LocalePath | src/components/layout/AuthLayout.tsx:20 | the href template; its length equation serves LayoutMobileBar's distinct-href proof |
| NavBar.LayoutNavItems | src/components/layout/AuthLayout.tsx:19-26 | the six items of the layout; the count serves LayoutMobileBar |
| NavBar.LayoutMobileBar | src/components/layout/AuthLayout.tsx:19-26 | the bar shows dashboard, log, milestones and settings, in that order, with distinct hrefs |

## Left out

- Database, authentication and HTTP plumbing are not modelled:
  - Prisma queries, sessions, status codes and the validation of `days`.
  - The fetched rows, the clock's `now`, `Date.parse` and `JSON.parse` are inputs.
- Time zones and daylight saving time are not modelled.
  - `startOfDay`, `getHours()` and friends work in local time, while `toISOString()` keys are in UTC.
  - Here one fixed day of 86 400 000 ms serves for both, and the fields a `Date` reports are an input.
- The routes read `new Date()` several times. Each route here takes a single reading, so a window that crosses midnight between two readings is not modelled.
- JSON numbers are unbounded whole numbers.
  - Fractional millisecond values and `NaN` are not modelled.
  - `String` of a fractional number is not modelled.
  - JavaScript numbers above 2^53 are rounded, and `String` of a magnitude of 1e21 or more is exponent notation (`1e+21`). JsonValue.ToStr prints the exact decimal digits instead.
- GrowthFormError returns the raw `message` value, as the form stores it. How React renders a non-string value is not modelled.
- The outer `catch` of the activity forms also receives network errors from `fetch`. Their message comes from the runtime and is not modelled.
- JsonValue.ToStr converts every object to `[object Object]`. An object whose own `toString` field is not a function makes the conversion throw a TypeError. As a `message`, it makes `new Error(...)` throw, and the outer `catch` shows the runtime's message. Inside an array, it makes `join` throw, and the inner `catch` shows the raw body. Neither path is modelled, and for such bodies ShownMessage does not match the source.
- DateFormat.LocalTime holds the fields of a valid date only. An Invalid Date in a watched field formats as `NaN-NaN-NaNTNaN:NaN`, which the formatters here cannot produce.
- Which of the two middleware files Next.js loads, and the `matcher` patterns, are not modelled. Each middleware is modelled on its own.
- The enum values `Object.values(FeedingType)` and `Object.values(DiaperType)` come from the Prisma schema. The schema is not part of this model, so the member list is a parameter of HandleTypeChange.
- `coerceToDate` returns the same `Date` object it receives. The model works on values, so object identity is not captured.
- DateFormat date round trips are stated for non-negative years. A negative year prints a `-` that splitting treats as a separator. Order is stated for four-digit years.
- Rendering is not modelled: the React components, icons and styling.
