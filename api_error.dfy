/**
 * How the activity forms (feeding, diaper, sleep) turn a failed API response
 * into the message they show, and the growth form's simpler variant.
 *
 * The response body is text; `JSON.parse` of it is an input here: `None` when
 * the text is not JSON, `Some(j)` otherwise. The translated default message
 * (`activityLogging.logError`) is the parameter `fallback`.
 */
module ApiError {
  import opened Wrappers
  import opened Strings
  import opened JsonValue

  /** `x || y` on strings. */
  function OrElse(x: string, y: string): (r: string)
    ensures x != "" ==> r == x
    ensures x == "" ==> r == y
  {
    if x != "" then x else y
  }

  /** What `join` prints for `err.message` of one array element (`undefined` and `null` print as ""). */
  function MessageText(err: Json): string
  {
    match Property(err, "message")
    case Value(v) => ElementText(v)
    case _ => ""
  }

  /**
   * `parsedError.map(err => err.message)`, as `join` will print it; None when
   * an element is `null`, because reading `message` of `null` throws.
   */
  function ElementMessages(xs: seq<Json>): Option<seq<string>>
  {
    if xs == [] then Some([])
    else if xs[0].JNull? then None
    else match ElementMessages(xs[1..])
      case None => None
      case Some(rest) => Some([MessageText(xs[0])] + rest)
  }

  /**
   * The message the `Error` is thrown with: an array's joined messages, an
   * object's truthy `message`, else the default; when parsing or a property read
   * throws, the raw body if it is non-empty, else the default.
   */
  function ThrownMessage(body: string, parsed: Option<Json>, fallback: string): string
  {
    match parsed
    case None => OrElse(body, fallback)
    case Some(j) =>
      if j.JArr? && |j.items| > 0 then
        (match ElementMessages(j.items)
         case None => OrElse(body, fallback)
         case Some(ms) => Join(ms, ". "))
      else
        (match Property(j, "message")
         case Throws => OrElse(body, fallback)
         case Undefined => fallback
         case Value(v) => if Truthy(v) then ToStr(v) else fallback)
  }

  /** `error.message || fallback`: the text the form shows. */
  function ShownMessage(body: string, parsed: Option<Json>, fallback: string): string
  {
    OrElse(ThrownMessage(body, parsed, fallback), fallback)
  }

  /**
   * The inner `try`/`catch` of `onSubmit` after a response that is not ok, and
   * the outer `catch` that shows `error.message || fallback`.
   */
  method ApiErrorMessage(body: string, parsed: Option<Json>, fallback: string) returns (shown: string)
    ensures shown == ShownMessage(body, parsed, fallback)
    ensures fallback != "" ==> shown != ""
  {
    var errorMessage := fallback;
    var threw := false;
    match parsed {
      case None =>
        threw := true;
      case Some(parsedError) =>
        if parsedError.JArr? && |parsedError.items| > 0 {
          var ms := ElementMessages(parsedError.items);
          if ms.None? {
            threw := true;
          } else {
            errorMessage := Join(ms.value, ". ");
          }
        } else {
          var m := Property(parsedError, "message");
          if m.Throws? {
            threw := true;
          } else if m.Value? && Truthy(m.v) {
            errorMessage := ToStr(m.v);
          }
        }
    }
    if threw {
      errorMessage := OrElse(body, errorMessage);
    }
    shown := OrElse(errorMessage, fallback);
  }

  /** The element messages exist exactly when no element is `null`, and are then each element's message text. */
  lemma {:induction false} ElementMessagesSpec(xs: seq<Json>)
    ensures ElementMessages(xs).Some? <==> forall i :: 0 <= i < |xs| ==> !xs[i].JNull?
    ensures ElementMessages(xs).Some? ==>
              |ElementMessages(xs).value| == |xs| &&
              forall i :: 0 <= i < |xs| ==> ElementMessages(xs).value[i] == MessageText(xs[i])
  {
    if xs != [] {
      ElementMessagesSpec(xs[1..]);
      assert forall i :: 1 <= i < |xs| ==> xs[1..][i - 1] == xs[i];
    }
  }

  /** A body that is not JSON is shown verbatim; an empty one shows the default. */
  lemma {:induction false} NotJsonShowsBody(body: string, fallback: string)
    ensures ShownMessage(body, None, fallback) == if body != "" then body else fallback
  {
  }

  /** A body of `null` throws on `.message`, so the raw text "null" is shown. */
  lemma {:induction false} NullBodyShowsText(fallback: string)
    ensures ShownMessage("null", Some(JNull), fallback) == "null"
  {
  }

  /** A non-empty array with no `null` element shows its elements' messages joined by ". ". */
  lemma {:induction false} ArrayJoinsMessages(body: string, xs: seq<Json>, fallback: string)
    requires |xs| > 0 && forall i :: 0 <= i < |xs| ==> !xs[i].JNull?
    ensures exists ms: seq<string> ::
              |ms| == |xs| &&
              (forall i :: 0 <= i < |xs| ==> ms[i] == MessageText(xs[i])) &&
              ShownMessage(body, Some(JArr(xs)), fallback) == OrElse(Join(ms, ". "), fallback)
  {
    ElementMessagesSpec(xs);
    var ms := ElementMessages(xs).value;
    assert ShownMessage(body, Some(JArr(xs)), fallback) == OrElse(Join(ms, ". "), fallback);
  }

  /** An array with a `null` element throws inside the `map`, so the raw body is shown. */
  lemma {:induction false} ArrayWithNullShowsBody(body: string, xs: seq<Json>, i: nat, fallback: string)
    requires i < |xs| && xs[i].JNull?
    ensures ShownMessage(body, Some(JArr(xs)), fallback) == OrElse(body, fallback)
  {
    ElementMessagesSpec(xs);
  }

  /** Two validation issues: `[{"message":"a"},{"message":"b"}]` shows "a. b". */
  lemma IssueListExample(body: string, fallback: string)
    ensures ShownMessage(body, Some(JArr([JObj([("message", JStr("a"))]), JObj([("message", JStr("b"))])])), fallback)
            == "a. b"
  {
    var a := JObj([("message", JStr("a"))]);
    var b := JObj([("message", JStr("b"))]);
    assert MessageText(a) == "a";
    assert MessageText(b) == "b";
    assert ElementMessages([b]) == Some(["b"]) by {
      assert [b][1..] == [];
      assert ElementMessages([]) == Some([]);
      assert !b.JNull?;
      assert ElementMessages([b]) == Some([MessageText(b)] + []);
      assert [MessageText(b)] + [] == ["b"];
    }
    assert [a, b][1..] == [b];
    assert ElementMessages([a, b]) == Some([MessageText(a)] + ["b"]);
    assert [MessageText(a)] + ["b"] == ["a", "b"];
    assert Join(["a", "b"], ". ") == "a" + ". " + "b";
  }

  /** An object whose `message` is a non-empty string shows that string. */
  lemma {:induction false} ObjectMessageShown(body: string, fields: seq<(string, Json)>, m: string, fallback: string)
    requires LastField(fields, "message") == Some(JStr(m)) && m != ""
    ensures ShownMessage(body, Some(JObj(fields)), fallback) == m
  {
  }

  /**
   * Any truthy `message`, not only a string, is thrown and shown by its
   * `String` conversion, unless that conversion is empty.
   */
  lemma {:induction false} TruthyMessageShown(body: string, j: Json, v: Json, fallback: string)
    requires Property(j, "message") == Value(v) && Truthy(v)
    ensures ShownMessage(body, Some(j), fallback) == OrElse(ToStr(v), fallback)
  {
  }

  /** `{"message":42}` shows `42`. */
  lemma NumberMessageShown(body: string, fallback: string)
    ensures ShownMessage(body, Some(JObj([("message", JNum(42))])), fallback) == "42"
  {
    assert NatToString(42) == NatToString(4) + [DigitChar(2)];
    assert NatToString(4) == [DigitChar(4)];
    TruthyMessageShown(body, JObj([("message", JNum(42))]), JNum(42), fallback);
  }

  /** `{"message":[]}`: an empty array is truthy, but `String([])` is empty, so the default is shown. */
  lemma EmptyArrayMessageShowsDefault(body: string, fallback: string)
    ensures ShownMessage(body, Some(JObj([("message", JArr([]))])), fallback) == fallback
  {
    assert ToStr(JArr([])) == "";
    TruthyMessageShown(body, JObj([("message", JArr([]))]), JArr([]), fallback);
  }

  /**
   * A JSON value other than `null` and a non-empty array, with no truthy
   * `message`, shows the default: the raw body is used only when parsing throws.
   */
  lemma {:induction false} NoMessageShowsDefault(body: string, j: Json, fallback: string)
    requires !j.JNull? && !(j.JArr? && |j.items| > 0)
    requires !(Property(j, "message").Value? && Truthy(Property(j, "message").v))
    ensures ShownMessage(body, Some(j), fallback) == fallback
  {
  }

  /** An empty array is not joined: `[].message` is `undefined`, so the default is shown. */
  lemma {:induction false} EmptyArrayShowsDefault(body: string, fallback: string)
    ensures ShownMessage(body, Some(JArr([])), fallback) == fallback
  {
  }

  /** With a non-empty default the form never shows an empty error. */
  lemma {:induction false} ShownNeverEmpty(body: string, parsed: Option<Json>, fallback: string)
    requires fallback != ""
    ensures ShownMessage(body, parsed, fallback) != ""
  {
  }

  /**
   * The growth form: `(await response.json()).message || logError`, shown as
   * is. A body that is not JSON, or is `null`, throws into the outer `catch`,
   * which shows `networkError`.
   */
  function GrowthFormError(parsed: Option<Json>, logError: string, networkError: string): (r: Json)
    ensures parsed.None? || parsed == Some(JNull) ==> r == JStr(networkError)
    ensures parsed.Some? && Property(parsed.value, "message").Value? && Truthy(Property(parsed.value, "message").v) ==>
              r == Property(parsed.value, "message").v
    ensures parsed.Some? && !parsed.value.JNull? &&
            !(Property(parsed.value, "message").Value? && Truthy(Property(parsed.value, "message").v)) ==>
              r == JStr(logError)
  {
    match parsed
    case None => JStr(networkError)
    case Some(errorData) =>
      match Property(errorData, "message")
      case Throws => JStr(networkError)
      case Undefined => JStr(logError)
      case Value(v) => if Truthy(v) then v else JStr(logError)
  }

  /** A growth error body with a non-empty string `message` shows that string. */
  lemma {:induction false} GrowthMessageShown(fields: seq<(string, Json)>, m: string, logError: string, networkError: string)
    requires LastField(fields, "message") == Some(JStr(m)) && m != ""
    ensures GrowthFormError(Some(JObj(fields)), logError, networkError) == JStr(m)
  {
  }

  /** Unlike the activity forms, the growth form never shows the raw body, and never joins an array. */
  lemma {:induction false} GrowthIgnoresArrays(xs: seq<Json>, logError: string, networkError: string)
    ensures GrowthFormError(Some(JArr(xs)), logError, networkError) == JStr(logError)
  {
  }

  /** With non-empty translations the growth form always shows something truthy. */
  lemma {:induction false} GrowthAlwaysShows(parsed: Option<Json>, logError: string, networkError: string)
    requires logError != "" && networkError != ""
    ensures Truthy(GrowthFormError(parsed, logError, networkError))
  {
  }
}
