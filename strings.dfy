/**
 * The JavaScript string operations the core uses: `indexOf`, `split` on a
 * one-character separator, `join`, `startsWith`, `substring`, `padStart`,
 * `String(n)` for integers, and the code-unit order of `<` on strings.
 */
module Strings {
  import opened Wrappers

  /** The first index of `c` in `s`, or None when `s` has no `c`. */
  function IndexOf(s: string, c: char): (r: Option<nat>)
    ensures r.Some? ==> r.value < |s| && s[r.value] == c
  {
    if s == [] then None
    else if s[0] == c then Some(0)
    else
      match IndexOf(s[1..], c)
      case None => None
      case Some(i) => Some(i + 1)
  }

  /** IndexOf finds nothing exactly when there is nothing to find. */
  lemma {:induction false} IndexOfNone(s: string, c: char)
    ensures IndexOf(s, c).None? <==> c !in s
  {
    if s != [] && s[0] != c {
      IndexOfNone(s[1..], c);
      assert c in s <==> c in s[1..];
    }
  }

  /** `s.split(c)`: the pieces between the occurrences of `c`; never empty. */
  function Split(s: string, c: char): (parts: seq<string>)
    ensures |parts| >= 1
    decreases |s|
  {
    match IndexOf(s, c)
    case None => [s]
    case Some(i) => [s[..i]] + Split(s[i + 1..], c)
  }

  /** A string without the separator is a single piece. */
  lemma {:induction false} SplitNone(s: string, c: char)
    requires c !in s
    ensures Split(s, c) == [s]
  {
    IndexOfNone(s, c);
  }

  /** `parts.join(sep)`. */
  function Join(parts: seq<string>, sep: string): (s: string)
  {
    if |parts| == 0 then ""
    else if |parts| == 1 then parts[0]
    else parts[0] + sep + Join(parts[1..], sep)
  }

  /** Splitting and joining again with the same separator gives back the string. */
  lemma {:induction false} JoinSplit(s: string, c: char)
    ensures Join(Split(s, c), [c]) == s
    decreases |s|
  {
    match IndexOf(s, c)
    case None =>
    case Some(i) =>
      var rest := Split(s[i + 1..], c);
      JoinSplit(s[i + 1..], c);
      assert Split(s, c) == [s[..i]] + rest;
      assert Join([s[..i]] + rest, [c]) == s[..i] + [c] + Join(rest, [c]) by {
        assert ([s[..i]] + rest)[0] == s[..i];
        assert ([s[..i]] + rest)[1..] == rest;
      }
      assert s == s[..i] + [c] + s[i + 1..];
  }

  /** When `a` has no `c` and `b` is empty or starts with `c`, the first piece is `a`. */
  lemma {:induction false} SplitFirst(a: string, b: string, c: char)
    requires c !in a
    requires b == [] || b[0] == c
    ensures Split(a + b, c)[0] == a
    ensures b != [] ==> Split(a + b, c) == [a] + Split(b[1..], c)
  {
    var s := a + b;
    IndexOfNone(a, c);
    if b == [] {
      assert s == a;
    } else {
      IndexOfAfter(a, b, c);
      assert s[..|a|] == a;
      assert s[|a| + 1..] == b[1..];
    }
  }

  /** A string that starts with the separator splits into an empty piece and the pieces of the rest. */
  lemma {:induction false} SplitLeading(s: string, c: char)
    requires s != [] && s[0] == c
    ensures Split(s, c) == [""] + Split(s[1..], c)
  {
    assert IndexOf(s, c) == Some(0);
  }

  /** Searching past a prefix without `c`. */
  lemma {:induction false} IndexOfAfter(x: string, y: string, c: char)
    requires c !in x
    ensures IndexOf(y, c).None? ==> IndexOf(x + y, c).None?
    ensures IndexOf(y, c).Some? ==> IndexOf(x + y, c) == Some(|x| + IndexOf(y, c).value)
  {
    if x == [] {
      assert x + y == y;
    } else {
      assert (x + y)[0] == x[0];
      assert (x + y)[1..] == x[1..] + y;
      IndexOfAfter(x[1..], y, c);
    }
  }

  /** An occurrence in a prefix is found before anything appended. */
  lemma {:induction false} IndexOfBefore(x: string, y: string, c: char)
    requires IndexOf(x, c).Some?
    ensures IndexOf(x + y, c) == IndexOf(x, c)
  {
    assert (x + y)[0] == x[0];
    if x[0] != c {
      assert (x + y)[1..] == x[1..] + y;
      IndexOfBefore(x[1..], y, c);
    }
  }

  /** Appending a separator and a piece without separators appends that piece. */
  lemma {:induction false} SplitAppend(x: string, d: string, c: char)
    requires c !in d
    ensures Split(x + [c] + d, c) == Split(x, c) + [d]
    decreases |x|
  {
    var s := x + [c] + d;
    assert s == x + ([c] + d);
    match IndexOf(x, c)
    case None =>
      IndexOfNone(x, c);
      SplitNone(d, c);
      IndexOfAfter(x, [c] + d, c);
      assert s[..|x|] == x;
      assert s[|x| + 1..] == d;
    case Some(i) =>
      IndexOfBefore(x, [c] + d, c);
      assert s[..i] == x[..i];
      assert s[i + 1..] == x[i + 1..] + [c] + d;
      SplitAppend(x[i + 1..], d, c);
  }

  /** The pieces of `a + [c] + b + [c] + d` when none of the three contains `c`. */
  lemma {:induction false} SplitThree(a: string, b: string, d: string, c: char)
    requires c !in a && c !in b && c !in d
    ensures Split(a + [c] + b + [c] + d, c) == [a, b, d]
  {
    SplitAppend(a + [c] + b, d, c);
    SplitAppend(a, b, c);
  }

  /** `s.startsWith(p)`. */
  predicate StartsWith(s: string, p: string)
  {
    |p| <= |s| && s[..|p|] == p
  }

  /** `s.substring(start)`: a start beyond the end gives the empty string. */
  function Substring(s: string, start: nat): (r: string)
    ensures start <= |s| ==> s == s[..start] + r
    ensures start >= |s| ==> r == ""
  {
    if start <= |s| then s[start..] else ""
  }

  /** `s.padStart(width, fill)` with a one-character fill: fill characters in front, up to `width`. */
  function PadStart(s: string, width: nat, fill: char): (r: string)
    ensures |r| == if |s| < width then width else |s|
  {
    if |s| >= width then s else Repeat(fill, width - |s|) + s
  }

  /** `padStart` keeps the string as its suffix and puts only fill characters in front of it. */
  lemma {:induction false} PadStartShape(s: string, width: nat, fill: char)
    ensures PadStart(s, width, fill)[|PadStart(s, width, fill)| - |s|..] == s
    ensures forall i :: 0 <= i < |PadStart(s, width, fill)| - |s| ==> PadStart(s, width, fill)[i] == fill
  {
    if |s| < width {
      RepeatChars(fill, width - |s|);
      assert (Repeat(fill, width - |s|) + s)[width - |s|..] == s;
    }
  }

  function Repeat(c: char, k: nat): (r: string)
    ensures |r| == k
  {
    if k == 0 then "" else [c] + Repeat(c, k - 1)
  }

  lemma {:induction false} RepeatChars(c: char, k: nat)
    ensures forall i :: 0 <= i < k ==> Repeat(c, k)[i] == c
  {
    if k > 0 {
      RepeatChars(c, k - 1);
      assert forall i :: 1 <= i < k ==> Repeat(c, k)[i] == Repeat(c, k - 1)[i - 1];
    }
  }

  predicate IsDigit(c: char)
  {
    '0' <= c <= '9'
  }

  /** Every character is a decimal digit; stated from the end, as numbers are read and printed. */
  predicate AllDigits(s: string)
  {
    s == [] || (AllDigits(s[..|s| - 1]) && IsDigit(s[|s| - 1]))
  }

  function DigitChar(d: nat): (c: char)
    requires d < 10
    ensures IsDigit(c)
  {
    ['0', '1', '2', '3', '4', '5', '6', '7', '8', '9'][d]
  }

  /** The value of a digit character. */
  function DigitValue(c: char): (d: int)
    ensures IsDigit(c) ==> 0 <= d < 10
  {
    c as int - '0' as int
  }

  lemma {:induction false} DigitRoundTrip(d: nat)
    requires d < 10
    ensures DigitValue(DigitChar(d)) == d
  {
  }

  /** `String(n)` for a natural number: its decimal digits, without leading zeros. */
  function NatToString(n: nat): (s: string)
    ensures |s| >= 1
  {
    if n < 10 then [DigitChar(n)] else NatToString(n / 10) + [DigitChar(n % 10)]
  }

  /** `String(n)` of a natural number is made of digits only. */
  lemma {:induction false} NatToStringDigits(n: nat)
    ensures AllDigits(NatToString(n))
  {
    if n >= 10 {
      NatToStringDigits(n / 10);
      var s := NatToString(n);
      assert s[..|s| - 1] == NatToString(n / 10);
    }
  }

  /** `String(n)` for an integer: a leading `-` for negative numbers. */
  function IntToString(n: int): (s: string)
    ensures n >= 0 ==> s == NatToString(n)
    ensures n < 0 ==> s == "-" + NatToString(-n)
  {
    if n >= 0 then NatToString(n) else "-" + NatToString(-n)
  }

  /** The number a string of decimal digits denotes, leading zeros allowed; meant for digit strings only. */
  function ParseNat(s: string): int
  {
    if s == [] then 0 else 10 * ParseNat(s[..|s| - 1]) + DigitValue(s[|s| - 1])
  }

  /** Reading back the decimal digits of `n` gives `n`. */
  lemma {:induction false} ParseNatToString(n: nat)
    ensures ParseNat(NatToString(n)) == n
  {
    var s := NatToString(n);
    if n >= 10 {
      ParseNatToString(n / 10);
      assert s[..|s| - 1] == NatToString(n / 10);
      DigitRoundTrip(n % 10);
    } else {
      DigitRoundTrip(n);
    }
  }

  /** The number of digits of `n`, by magnitude. */
  lemma {:induction false} NatToStringLength(n: nat)
    ensures n < 10 ==> |NatToString(n)| == 1
    ensures 10 <= n < 100 ==> |NatToString(n)| == 2
    ensures 100 <= n < 1000 ==> |NatToString(n)| == 3
    ensures 1000 <= n < 10000 ==> |NatToString(n)| == 4
  {
    if n >= 10 {
      NatToStringLength(n / 10);
    }
  }

  /** JavaScript's `<` on strings: code-unit order, a proper prefix comes first. */
  predicate LexLess(a: string, b: string)
  {
    if a == [] then b != []
    else b != [] && (a[0] < b[0] || (a[0] == b[0] && LexLess(a[1..], b[1..])))
  }

  /** Comparing two concatenations whose first parts have the same length. */
  lemma {:induction false} LexLessConcat(a1: string, a2: string, b1: string, b2: string)
    requires |a1| == |b1|
    ensures LexLess(a1 + a2, b1 + b2) <==> LexLess(a1, b1) || (a1 == b1 && LexLess(a2, b2))
  {
    if a1 != [] {
      assert (a1 + a2)[0] == a1[0] && (b1 + b2)[0] == b1[0];
      assert (a1 + a2)[1..] == a1[1..] + a2;
      assert (b1 + b2)[1..] == b1[1..] + b2;
      LexLessConcat(a1[1..], a2, b1[1..], b2);
      assert a1 == b1 <==> a1[0] == b1[0] && a1[1..] == b1[1..];
    } else {
      assert a1 + a2 == a2 && b1 + b2 == b2;
    }
  }

  /** On digit strings of one length, code-unit order is numeric order, and equality is equal value. */
  lemma {:induction false} LexLessDigits(s: string, t: string)
    requires |s| == |t| && AllDigits(s) && AllDigits(t)
    ensures LexLess(s, t) <==> ParseNat(s) < ParseNat(t)
    ensures s == t <==> ParseNat(s) == ParseNat(t)
  {
    if s != [] {
      var n := |s| - 1;
      var s', t' := s[..n], t[..n];
      LexLessDigits(s', t');
      assert s == s' + [s[n]] && t == t' + [t[n]];
      LexLessConcat(s', [s[n]], t', [t[n]]);
      assert LexLess([s[n]], [t[n]]) <==> s[n] < t[n];
      assert s == t <==> s' == t' && s[n] == t[n];
    }
  }
}
