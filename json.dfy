/**
 * The JSON values an API error body can parse to, with the three pieces of
 * JavaScript semantics the forms rely on: reading a property (`x.message`),
 * truthiness (`a || b`) and string conversion (`String(x)`, `new Error(x)`,
 * `Array.prototype.join`). Numbers are whole numbers here.
 */
module JsonValue {
  import opened Wrappers
  import opened Strings

  datatype Json =
    | JNull
    | JBool(b: bool)
    | JNum(n: int)
    | JStr(s: string)
    | JArr(items: seq<Json>)
    | JObj(fields: seq<(string, Json)>)

  /** Reading a property: a TypeError on `null`, `undefined` when absent, or the value. */
  datatype Access = Throws | Undefined | Value(v: Json)

  /** The value of the last field with this name: `JSON.parse` keeps the last of duplicate keys. */
  function LastField(fields: seq<(string, Json)>, name: string): (r: Option<Json>)
    ensures r.Some? <==> exists i :: 0 <= i < |fields| && fields[i].0 == name
  {
    if fields == [] then None
    else if fields[|fields| - 1].0 == name then Some(fields[|fields| - 1].1)
    else
      var r := LastField(fields[..|fields| - 1], name);
      assert forall i :: 0 <= i < |fields| - 1 ==> fields[..|fields| - 1][i] == fields[i];
      r
  }

  /** `j[name]`: only objects have own fields; every other non-null value reads as `undefined`. */
  function Property(j: Json, name: string): (r: Access)
    ensures r.Throws? <==> j.JNull?
    ensures r.Value? ==> j.JObj? && LastField(j.fields, name) == Some(r.v)
    ensures j.JObj? && LastField(j.fields, name).None? ==> r.Undefined?
  {
    match j
    case JNull => Throws
    case JObj(fields) =>
      (match LastField(fields, name)
       case Some(v) => Value(v)
       case None => Undefined)
    case _ => Undefined
  }

  /** JavaScript truthiness: `null`, `false`, `0` and `""` are falsy; arrays and objects are truthy. */
  predicate Truthy(j: Json)
  {
    match j
    case JNull => false
    case JBool(b) => b
    case JNum(n) => n != 0
    case JStr(s) => s != ""
    case _ => true
  }

  /** `String(j)`. */
  function ToStr(j: Json): string
    decreases j, 0
  {
    match j
    case JNull => "null"
    case JBool(b) => if b then "true" else "false"
    case JNum(n) => IntToString(n)
    case JStr(s) => s
    case JArr(xs) => Join(seq(|xs|, i requires 0 <= i < |xs| => ElementText(xs[i])), ",")
    case JObj(_) => "[object Object]"
  }

  /** How `join` prints one element: `null` (and `undefined`) as the empty string, anything else by `String`. */
  function ElementText(j: Json): string
    decreases j, 1
  {
    if j.JNull? then "" else ToStr(j)
  }

  /** A string converts to itself; so a truthy string message is shown verbatim. */
  lemma {:induction false} ToStrOfString(s: string)
    ensures ToStr(JStr(s)) == s
    ensures Truthy(JStr(s)) <==> s != ""
  {
  }

  /** A field added after the others is the one `message` reads. */
  lemma {:induction false} LastFieldWins(fields: seq<(string, Json)>, name: string, v: Json)
    ensures Property(JObj(fields + [(name, v)]), name) == Value(v)
  {
  }
}
