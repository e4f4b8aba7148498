/**
 * The two small pure helpers of the activity forms: the guard that accepts a
 * segmented-control value only when it names an enum member, and the
 * feeding form's normalisation of a watched field into a `Date`.
 */
module FormHelpers {
  import opened Wrappers

  /** The form values, split into the `type` field and everything else. */
  datatype TypedForm<F> = TypedForm(kind: string, others: F)

  /**
   * `handleTypeChange(value)`: `setValue('type', value)` only when `value` is
   * one of the enum's values (`Object.values(FeedingType)` or
   * `Object.values(DiaperType)`, passed as `members`).
   */
  function HandleTypeChange<F>(form: TypedForm<F>, value: string, members: seq<string>): (r: TypedForm<F>)
    ensures r.others == form.others
    ensures value in members ==> r.kind == value
    ensures value !in members ==> r == form
  {
    if value in members then form.(kind := value) else form
  }

  /** Starting from a member, every sequence of changes keeps `type` a member. */
  lemma {:induction false} TypeStaysMember<F>(form: TypedForm<F>, values: seq<string>, members: seq<string>)
    requires form.kind in members
    ensures ApplyChanges(form, values, members).kind in members
    decreases values
  {
    if values != [] {
      TypeStaysMember(HandleTypeChange(form, values[0], members), values[1..], members);
    }
  }

  /** A run of `onValueChange` events, oldest first. */
  function ApplyChanges<F>(form: TypedForm<F>, values: seq<string>, members: seq<string>): TypedForm<F>
    decreases values
  {
    if values == [] then form else ApplyChanges(HandleTypeChange(form, values[0], members), values[1..], members)
  }

  /** After a run of events, `type` is the last accepted value, or unchanged when none was accepted. */
  lemma {:induction false} LastAcceptedWins<F>(form: TypedForm<F>, values: seq<string>, members: seq<string>)
    ensures ApplyChanges(form, values, members).others == form.others
    ensures (forall i :: 0 <= i < |values| ==> values[i] !in members) ==>
              ApplyChanges(form, values, members) == form
    ensures values != [] && values[|values| - 1] in members ==>
              ApplyChanges(form, values, members).kind == values[|values| - 1]
    decreases values
  {
    if values != [] {
      var next := HandleTypeChange(form, values[0], members);
      LastAcceptedWins(next, values[1..], members);
      assert forall i :: 1 <= i < |values| ==> values[1..][i - 1] == values[i];
      if |values| > 1 {
        assert values[1..][|values[1..]| - 1] == values[|values| - 1];
      }
    }
  }

  /** Repeating the same change has no further effect. */
  lemma {:induction false} HandleTypeChangeIdempotent<F>(form: TypedForm<F>, value: string, members: seq<string>)
    ensures HandleTypeChange(HandleTypeChange(form, value, members), value, members)
            == HandleTypeChange(form, value, members)
  {
  }

  /** The largest magnitude of a JavaScript time value: 8.64e15 ms, 100 000 000 days either side of the epoch. */
  const MaxTime: int := 8_640_000_000_000_000

  /** A JavaScript `Date`: a time value in ms since the epoch, or an Invalid Date. */
  datatype JsDate = ValidDate(ms: int) | InvalidDate

  /** ECMAScript `TimeClip` on a whole number of ms. */
  function TimeClip(t: int): (r: JsDate)
    ensures r.ValidDate? <==> -MaxTime <= t <= MaxTime
    ensures r.ValidDate? ==> r.ms == t
  {
    if -MaxTime <= t <= MaxTime then ValidDate(t) else InvalidDate
  }

  /** The `unknown` a watched field can hold, as far as `coerceToDate` tells them apart. */
  datatype Unknown = DateValue(d: JsDate) | StringValue(s: string) | NumberValue(n: int) | OtherValue

  /**
   * `coerceToDate(value)`. `parse` is `Date.parse` (None for NaN) and `now`
   * the clock's reading in ms, both inputs of the model.
   */
  function CoerceToDate(value: Unknown, now: int, parse: string -> Option<int>): (r: JsDate)
    ensures value.DateValue? ==> r == value.d
    ensures value.NumberValue? ==> r == TimeClip(value.n)
    ensures value.StringValue? ==> r == (if parse(value.s).Some? then TimeClip(parse(value.s).value) else InvalidDate)
    ensures value.OtherValue? ==> r == TimeClip(now)
  {
    match value
    case DateValue(d) => d
    case StringValue(s) =>
      (match parse(s)
       case Some(t) => TimeClip(t)
       case None => InvalidDate)
    case NumberValue(n) => TimeClip(n)
    case OtherValue => TimeClip(now)
  }

  /** A `Date` argument is returned as it is, whatever it holds, an Invalid Date included. */
  lemma {:induction false} CoerceKeepsDate(d: JsDate, now: int, parse: string -> Option<int>)
    ensures CoerceToDate(DateValue(d), now, parse) == d
  {
  }

  /** A value that is neither a Date, a string nor a number becomes the current date. */
  lemma {:induction false} CoerceFallsBackToNow(now: int, parse: string -> Option<int>)
    requires -MaxTime <= now <= MaxTime
    ensures CoerceToDate(OtherValue, now, parse) == ValidDate(now)
  {
  }

  /** Coercing an already coerced value returns it unchanged. */
  lemma {:induction false} CoerceIdempotent(value: Unknown, now: int, parse: string -> Option<int>)
    ensures CoerceToDate(DateValue(CoerceToDate(value, now, parse)), now, parse) == CoerceToDate(value, now, parse)
  {
  }

  /** A number in range becomes the date with that time value; out of range, an Invalid Date. */
  lemma {:induction false} CoerceNumberRoundTrip(n: int, now: int, parse: string -> Option<int>)
    ensures CoerceToDate(NumberValue(n), now, parse).ValidDate? <==> -MaxTime <= n <= MaxTime
    ensures CoerceToDate(NumberValue(n), now, parse).ValidDate? ==> CoerceToDate(NumberValue(n), now, parse).ms == n
  {
  }

  /** A string that does not parse is an Invalid Date, not the fallback to now. */
  lemma {:induction false} UnparsableStringIsInvalid(s: string, now: int, parse: string -> Option<int>)
    requires parse(s).None?
    ensures CoerceToDate(StringValue(s), now, parse) == InvalidDate
  {
  }
}
