/**
 * The local date and date-time strings the forms put into their date inputs:
 * `${getFullYear()}-${pad(getMonth() + 1)}-${pad(getDate())}`, and the same
 * followed by `T${pad(getHours())}:${pad(getMinutes())}`, where
 * `pad(n) = String(n).padStart(2, '0')`.
 */
module DateFormat {
  import opened Strings

  /** The calendar fields a `Date` reports in local time; `month` is 0-based, as `getMonth()`. */
  datatype LocalTime = LocalTime(year: int, month: int, date: int, hours: int, minutes: int)

  /** The ranges `Date`'s getters report in. */
  predicate ValidFields(t: LocalTime)
  {
    0 <= t.month < 12 && 1 <= t.date <= 31 && 0 <= t.hours < 24 && 0 <= t.minutes < 60
  }

  /** `String(n).padStart(2, '0')`. */
  function Pad(n: int): string
  {
    PadStart(IntToString(n), 2, '0')
  }

  /** `getLocalDateString`. */
  function LocalDateString(t: LocalTime): string
  {
    IntToString(t.year) + "-" + Pad(t.month + 1) + "-" + Pad(t.date)
  }

  /** `getLocalDateTimeString`: no seconds. */
  function LocalDateTimeString(t: LocalTime): string
  {
    LocalDateString(t) + "T" + Pad(t.hours) + ":" + Pad(t.minutes)
  }

  /** Chronological order of the date fields. */
  predicate DateBefore(a: LocalTime, b: LocalTime)
  {
    a.year < b.year || (a.year == b.year && (a.month < b.month || (a.month == b.month && a.date < b.date)))
  }

  /** A number below 100 pads to exactly two digits that read back as the number. */
  lemma {:induction false} PadTwoDigits(n: int)
    requires 0 <= n < 100
    ensures |Pad(n)| == 2 && AllDigits(Pad(n))
    ensures ParseNat(Pad(n)) == n
  {
    NatToStringLength(n);
    NatToStringDigits(n);
    ParseNatToString(n);
    var s := NatToString(n);
    if n < 10 {
      assert Pad(n) == "0" + s;
      assert Pad(n)[..1] == "0";
      assert ParseNat("0") == 0;
    } else {
      assert Pad(n) == s;
    }
  }

  /** Digits and minus signs only: what `String(n)` and the dashes between fields produce. */
  predicate DashDigits(s: string)
  {
    s == [] || (DashDigits(s[..|s| - 1]) && (IsDigit(s[|s| - 1]) || s[|s| - 1] == '-'))
  }

  lemma {:induction false} DigitsAreDashDigits(s: string)
    requires AllDigits(s)
    ensures DashDigits(s)
    decreases |s|
  {
    if s != [] {
      DigitsAreDashDigits(s[..|s| - 1]);
    }
  }

  lemma {:induction false} DashDigitsConcat(a: string, b: string)
    requires DashDigits(a) && DashDigits(b)
    ensures DashDigits(a + b)
    decreases |b|
  {
    if b == [] {
      assert a + b == a;
    } else {
      DashDigitsConcat(a, b[..|b| - 1]);
      assert (a + b)[..|a + b| - 1] == a + b[..|b| - 1];
    }
  }

  lemma {:induction false} DashDigitsNoSeparator(s: string)
    requires DashDigits(s)
    ensures 'T' !in s && ':' !in s
    decreases |s|
  {
    if s != [] {
      DashDigitsNoSeparator(s[..|s| - 1]);
      assert s == s[..|s| - 1] + [s[|s| - 1]];
    }
  }

  /** `String(n)` and its padded form consist of digits and a possible minus sign. */
  lemma {:induction false} PadChars(n: int)
    ensures DashDigits(IntToString(n))
    ensures DashDigits(Pad(n))
  {
    var s := IntToString(n);
    var d := NatToString(if n < 0 then -n else n);
    NatToStringDigits(if n < 0 then -n else n);
    DigitsAreDashDigits(d);
    if n < 0 {
      assert s == "-" + d;
      DashDigitsConcat("-", d);
    }
    if |s| < 2 {
      assert Pad(n) == "0" + s;
      DashDigitsConcat("0", s);
    }
  }

  /** A date string consists of digits and dashes only, so it holds no `T` and no `:`. */
  lemma {:induction false} DateStringChars(t: LocalTime)
    ensures DashDigits(LocalDateString(t))
    ensures 'T' !in LocalDateString(t) && ':' !in LocalDateString(t)
  {
    var y, m, d := IntToString(t.year), Pad(t.month + 1), Pad(t.date);
    PadChars(t.year);
    PadChars(t.month + 1);
    PadChars(t.date);
    assert DashDigits("-");
    DashDigitsConcat(y, "-");
    DashDigitsConcat(y + "-", m);
    DashDigitsConcat(y + "-" + m, "-");
    DashDigitsConcat(y + "-" + m + "-", d);
    DashDigitsNoSeparator(LocalDateString(t));
  }

  lemma {:induction false} DigitsNoDash(s: string)
    requires AllDigits(s)
    ensures '-' !in s
    decreases |s|
  {
    if s != [] {
      DigitsNoDash(s[..|s| - 1]);
      assert s == s[..|s| - 1] + [s[|s| - 1]];
    }
  }

  lemma {:induction false} SplitDashed(s: string, y: string, m: string, d: string)
    requires s == y + "-" + m + "-" + d
    requires '-' !in y && '-' !in m && '-' !in d
    ensures Split(s, '-') == [y, m, d]
  {
    SplitThree(y, m, d, '-');
  }

  /** The fields of a valid date with a non-negative year print as digits only, month and day in two. */
  lemma {:induction false} DateFieldsDigits(t: LocalTime)
    requires ValidFields(t) && t.year >= 0
    ensures AllDigits(IntToString(t.year)) && AllDigits(Pad(t.month + 1)) && AllDigits(Pad(t.date))
    ensures '-' !in IntToString(t.year) && '-' !in Pad(t.month + 1) && '-' !in Pad(t.date)
  {
    PadTwoDigits(t.month + 1);
    PadTwoDigits(t.date);
    NatToStringDigits(t.year);
    DigitsNoDash(IntToString(t.year));
    DigitsNoDash(Pad(t.month + 1));
    DigitsNoDash(Pad(t.date));
  }

  /** For a non-negative year the string splits on `-` into year, 1-based month and day, with nothing else. */
  lemma {:induction false} DateStringPieces(t: LocalTime)
    requires ValidFields(t) && t.year >= 0
    ensures Split(LocalDateString(t), '-') == [IntToString(t.year), Pad(t.month + 1), Pad(t.date)]
  {
    DateFieldsDigits(t);
    SplitDashed(LocalDateString(t), IntToString(t.year), Pad(t.month + 1), Pad(t.date));
  }

  /** Splitting the date string on `-` and reading the numbers gives back year, `getMonth() + 1` and day. */
  lemma {:induction false} DateStringRoundTrip(t: LocalTime)
    requires ValidFields(t) && t.year >= 0
    ensures var parts := Split(LocalDateString(t), '-');
      |parts| == 3 && AllDigits(parts[0]) && AllDigits(parts[1]) && AllDigits(parts[2]) &&
      ParseNat(parts[0]) == t.year && ParseNat(parts[1]) == t.month + 1 && ParseNat(parts[2]) == t.date
  {
    DateStringPieces(t);
    DateFieldsDigits(t);
    PadTwoDigits(t.month + 1);
    PadTwoDigits(t.date);
    ParseNatToString(t.year);
  }

  /** With a four-digit year the date string has ten characters: `YYYY-MM-DD`. */
  lemma {:induction false} DateStringLength(t: LocalTime)
    requires ValidFields(t) && 1000 <= t.year <= 9999
    ensures |LocalDateString(t)| == 10
  {
    NatToStringLength(t.year);
    assert |IntToString(t.year)| == 4;
    PadTwoDigits(t.month + 1);
    PadTwoDigits(t.date);
    assert |LocalDateString(t)| == |IntToString(t.year)| + 1 + |Pad(t.month + 1)| + 1 + |Pad(t.date)|;
  }

  /** Below a common prefix, string order is the order of what follows it. */
  lemma {:induction false} LexLessCommonPrefix(p: string, a: string, b: string)
    ensures LexLess(p + a, p + b) <==> LexLess(a, b)
  {
    LexLessConcat(p, a, p, b);
    LexLessIrreflexive(p);
  }

  lemma {:induction false} LexLessIrreflexive(s: string)
    ensures !LexLess(s, s)
    decreases |s|
  {
    if s != [] {
      LexLessIrreflexive(s[1..]);
    }
  }

  /** Concatenations whose first parts have one length are equal exactly when both parts are. */
  lemma {:induction false} ConcatEqual(a1: string, a2: string, b1: string, b2: string)
    requires |a1| == |b1|
    ensures a1 + a2 == b1 + b2 <==> a1 == b1 && a2 == b2
  {
    if a1 + a2 == b1 + b2 {
      assert a1 == (a1 + a2)[..|a1|] && b1 == (b1 + b2)[..|b1|];
      assert a2 == (a1 + a2)[|a1|..] && b2 == (b1 + b2)[|b1|..];
    }
  }

  /** A trailing dash on both sides changes neither order nor equality. */
  lemma {:induction false} AppendDash(a: string, b: string)
    requires |a| == |b|
    ensures LexLess(a + "-", b + "-") <==> LexLess(a, b)
    ensures a + "-" == b + "-" <==> a == b
  {
    LexLessConcat(a, "-", b, "-");
    LexLessIrreflexive("-");
    ConcatEqual(a, "-", b, "-");
  }

  /** Dashed digit fields of equal widths compare as strings in the order of their values. */
  lemma {:induction false} DashedOrder(sa: string, sb: string, ya: string, ma: string, da: string, yb: string, mb: string, db: string)
    requires sa == ya + "-" + ma + "-" + da && sb == yb + "-" + mb + "-" + db
    requires |ya| == |yb| && |ma| == |mb| && |da| == |db|
    requires AllDigits(ya) && AllDigits(ma) && AllDigits(da)
    requires AllDigits(yb) && AllDigits(mb) && AllDigits(db)
    ensures LexLess(sa, sb) <==>
      ParseNat(ya) < ParseNat(yb) || (ParseNat(ya) == ParseNat(yb) &&
        (ParseNat(ma) < ParseNat(mb) || (ParseNat(ma) == ParseNat(mb) && ParseNat(da) < ParseNat(db))))
  {
    LexLessDigits(ya, yb);
    LexLessDigits(ma, mb);
    LexLessDigits(da, db);
    AppendDash(ya, yb);
    var pa, pb := ya + "-", yb + "-";
    var wa, wb := pa + ma, pb + mb;
    LexLessConcat(pa, ma, pb, mb);
    ConcatEqual(pa, ma, pb, mb);
    AppendDash(wa, wb);
    LexLessConcat(wa + "-", da, wb + "-", db);
  }

  /** A valid date with a four-digit year prints its fields in widths 4, 2 and 2, reading back as the values. */
  lemma {:induction false} FourDigitFields(t: LocalTime)
    requires ValidFields(t) && 1000 <= t.year <= 9999
    ensures |IntToString(t.year)| == 4 && |Pad(t.month + 1)| == 2 && |Pad(t.date)| == 2
    ensures AllDigits(IntToString(t.year)) && AllDigits(Pad(t.month + 1)) && AllDigits(Pad(t.date))
    ensures ParseNat(IntToString(t.year)) == t.year
    ensures ParseNat(Pad(t.month + 1)) == t.month + 1 && ParseNat(Pad(t.date)) == t.date
  {
    NatToStringLength(t.year);
    NatToStringDigits(t.year);
    ParseNatToString(t.year);
    PadTwoDigits(t.month + 1);
    PadTwoDigits(t.date);
  }

  /** For four-digit years, comparing date strings as strings compares the dates chronologically. */
  lemma {:induction false} DateStringOrder(a: LocalTime, b: LocalTime)
    requires ValidFields(a) && 1000 <= a.year <= 9999
    requires ValidFields(b) && 1000 <= b.year <= 9999
    ensures LexLess(LocalDateString(a), LocalDateString(b)) <==> DateBefore(a, b)
  {
    FourDigitFields(a);
    FourDigitFields(b);
    DashedOrder(LocalDateString(a), LocalDateString(b),
      IntToString(a.year), Pad(a.month + 1), Pad(a.date), IntToString(b.year), Pad(b.month + 1), Pad(b.date));
  }

  /** The time fields of a valid date print as two digits each, reading back as the values. */
  lemma {:induction false} TimeFields(t: LocalTime)
    requires ValidFields(t)
    ensures |Pad(t.hours)| == 2 && |Pad(t.minutes)| == 2
    ensures AllDigits(Pad(t.hours)) && AllDigits(Pad(t.minutes))
    ensures ParseNat(Pad(t.hours)) == t.hours && ParseNat(Pad(t.minutes)) == t.minutes
    ensures 'T' !in Pad(t.hours) && 'T' !in Pad(t.minutes) && ':' !in Pad(t.hours) && ':' !in Pad(t.minutes)
  {
    PadTwoDigits(t.hours);
    PadTwoDigits(t.minutes);
    PadChars(t.hours);
    PadChars(t.minutes);
    DashDigitsNoSeparator(Pad(t.hours));
    DashDigitsNoSeparator(Pad(t.minutes));
  }

  /** How `d + "T" + h + ":" + m` splits when the pieces hold no separators. */
  lemma {:induction false} SplitDateTime(s: string, d: string, h: string, m: string)
    requires s == d + "T" + h + ":" + m
    requires 'T' !in d && 'T' !in h && 'T' !in m && ':' !in h && ':' !in m
    ensures Split(s, 'T') == [d, h + ":" + m]
    ensures Split(h + ":" + m, ':') == [h, m]
  {
    assert 'T' !in h + ":" + m;
    SplitAppend(d, h + ":" + m, 'T');
    SplitNone(d, 'T');
    assert d + "T" + h + ":" + m == d + ['T'] + (h + ":" + m);
    SplitAppend(h, m, ':');
    SplitNone(h, ':');
  }

  /** The part of the date-time string before `T` is the date string of the same date. */
  lemma {:induction false} DateTimeStartsWithDate(t: LocalTime)
    ensures Split(LocalDateTimeString(t), 'T')[0] == LocalDateString(t)
    ensures LocalDateTimeString(t)[..|LocalDateString(t)|] == LocalDateString(t)
  {
    DateStringChars(t);
    SplitFirstPiece(LocalDateTimeString(t), LocalDateString(t), Pad(t.hours) + ":" + Pad(t.minutes), 'T');
  }

  lemma {:induction false} SplitFirstPiece(s: string, a: string, b: string, c: char)
    requires s == a + [c] + b && c !in a
    ensures Split(s, c)[0] == a
    ensures s[..|a|] == a
  {
    assert a + [c] + b == a + ([c] + b);
    SplitFirst(a, [c] + b, c);
  }

  /** The date-time string splits on `T` into the date string and `hh:mm`, and that on `:` into hours and minutes. */
  lemma {:induction false} DateTimePieces(t: LocalTime)
    requires ValidFields(t)
    ensures Split(LocalDateTimeString(t), 'T') == [LocalDateString(t), Pad(t.hours) + ":" + Pad(t.minutes)]
    ensures Split(Pad(t.hours) + ":" + Pad(t.minutes), ':') == [Pad(t.hours), Pad(t.minutes)]
  {
    DateStringChars(t);
    TimeFields(t);
    SplitDateTime(LocalDateTimeString(t), LocalDateString(t), Pad(t.hours), Pad(t.minutes));
  }

  /** `Y-MM-DDThh:mm`: month, day, hour and minute take two characters each, and everything reads back. */
  lemma {:induction false} DateTimeRoundTrip(t: LocalTime)
    requires ValidFields(t) && t.year >= 0
    ensures var halves := Split(LocalDateTimeString(t), 'T');
      |halves| == 2 && halves[0] == LocalDateString(t) &&
      var hm := Split(halves[1], ':');
      |hm| == 2 && |hm[0]| == 2 && |hm[1]| == 2 && AllDigits(hm[0]) && AllDigits(hm[1]) &&
      ParseNat(hm[0]) == t.hours && ParseNat(hm[1]) == t.minutes
  {
    DateTimePieces(t);
    TimeFields(t);
  }
}
