/**
  JavaScript values as they come out of `JSON.parse` and flow through the edit pipeline,
  with the few JavaScript conversions the code applies to them: truthiness, `x ?? null`,
  property reads, `String(x)` and `JSON.stringify` of a string.
  Numbers are modelled as integers; fractional numbers are not represented.
*/
module JsValue {
  import opened Wrappers
  import opened Text

  datatype Json =
    | JNull
    | JBool(b: bool)
    | JNum(n: int)
    | JStr(s: string)
    | JArr(items: seq<Json>)
    | JObj(fields: seq<(string, Json)>)

  /** JavaScript truthiness (`if (x)`, `x && y`, `filter(Boolean)`). */
  predicate Truthy(v: Json) {
    match v
    case JNull => false
    case JBool(b) => b
    case JNum(n) => n != 0
    case JStr(s) => s != ""
    case JArr(_) => true
    case JObj(_) => true
  }

  /** The value of the last field named `key` (`JSON.parse` keeps the last of duplicate keys). */
  function LastField(fields: seq<(string, Json)>, key: string): (r: Option<Json>)
    ensures r.Some? ==> exists i :: 0 <= i < |fields| && fields[i] == (key, r.value)
    ensures r.None? ==> forall i :: 0 <= i < |fields| ==> fields[i].0 != key
  {
    if |fields| == 0 then None
    else if fields[|fields| - 1].0 == key then Some(fields[|fields| - 1].1)
    else LastField(fields[..|fields| - 1], key)
  }

  /** `v.key` (or `v?.key`): `None` stands for `undefined`. Only objects have the
      properties the modelled code reads. */
  function Get(v: Json, key: string): Option<Json> {
    if v.JObj? then LastField(v.fields, key) else None
  }

  /** `x ?? null`: an absent property and an explicit `null` both become `null`. */
  function OrNull(x: Option<Json>): Json {
    if x.Some? then x.value else JNull
  }

  /** `a ?? b`: the first operand unless it is `null` or `undefined`. */
  function Coalesce(a: Option<Json>, b: Json): Json {
    if a.Some? && a.value != JNull then a.value else b
  }

  /** `Object.entries(v)` of an object or array value: an array's entries are its indices and
      items; an object's are its keys in first-occurrence order, each with the last value
      given for it. */
  function Entries(v: Json): (r: seq<(string, Json)>)
    ensures v.JArr? ==> |r| == |v.items|
    ensures v.JObj? ==> forall i :: 0 <= i < |r| ==> r[i] in v.fields
    ensures v.JObj? ==> forall i, j :: 0 <= i < j < |r| ==> r[i].0 != r[j].0
  {
    match v
    case JArr(items) => seq(|items|, i requires 0 <= i < |items| => (NatToDecimal(i), items[i]))
    case JObj(fields) =>
      var keys := DistinctKeys(fields, |fields|);
      seq(|keys|, i requires 0 <= i < |keys| =>
        assert keys[i] in keys; (keys[i], FieldValue(fields, keys[i])))
    case _ => []
  }

  /** The value `JSON.parse` keeps for a key that occurs in `fields`. */
  function FieldValue(fields: seq<(string, Json)>, key: string): (r: Json)
    requires exists i :: 0 <= i < |fields| && fields[i].0 == key
    ensures (key, r) in fields
    ensures LastField(fields, key) == Some(r)
  {
    LastField(fields, key).value
  }

  /** The distinct keys of `fields[..n]`, in order of first occurrence. */
  function DistinctKeys(fields: seq<(string, Json)>, n: nat): (r: seq<string>)
    requires n <= |fields|
    ensures forall i, j :: 0 <= i < j < |r| ==> r[i] != r[j]
    ensures forall k :: k in r <==> exists i :: 0 <= i < n && fields[i].0 == k
  {
    if n == 0 then []
    else
      var ks := DistinctKeys(fields, n - 1);
      if fields[n - 1].0 in ks then ks else ks + [fields[n - 1].0]
  }

  /** `String(v)` */
  function ToJsString(v: Json): string {
    match v
    case JNull => "null"
    case JBool(b) => if b then "true" else "false"
    case JNum(n) => IntToDecimal(n)
    case JStr(s) => s
    case JArr(items) => Join(seq(|items|, i requires 0 <= i < |items| =>
                          if items[i] == JNull then "" else ToJsString(items[i])), ",")
    case JObj(_) => "[object Object]"
  }

  /** How the DOM setters used by the executor (`textContent`, `innerHTML`, `setAttribute`,
      `style.setProperty`) receive `v ?? ""` or a raw value: `null` becomes the empty string,
      anything else `String(v)`. */
  function DomString(v: Json): (r: string)
    ensures v.JStr? ==> r == v.s
    ensures v.JNull? ==> r == ""
  {
    if v.JNull? then "" else ToJsString(v)
  }

  /** The escape `JSON.stringify` writes for one character of a string. */
  function JsonEscapeChar(c: char): (r: string)
    ensures |r| >= 1
    ensures forall i :: 0 <= i < |r| ==> r[i] >= ' '
  {
    if c == '"' then "\\\""
    else if c == '\\' then "\\\\"
    else if c == '\U{0008}' then "\\b"
    else if c == '\U{000C}' then "\\f"
    else if c == '\n' then "\\n"
    else if c == '\r' then "\\r"
    else if c == '\t' then "\\t"
    else if c < ' ' then
      var h := c as int;
      "\\u00" + [HexDigit(h / 16), HexDigit(h % 16)]
    else [c]
  }

  function JsonEscape(s: string): (r: string)
    ensures |r| >= |s|
    ensures forall i :: 0 <= i < |r| ==> r[i] >= ' '
  {
    if |s| == 0 then "" else JsonEscapeChar(s[0]) + JsonEscape(s[1..])
  }

  /** `JSON.stringify(s)` for a string `s`: a double-quoted literal with no control
      character in it, so in particular on a single line. */
  function JsonQuote(s: string): (r: string)
    ensures |r| >= |s| + 2 && r[0] == '"' && r[|r| - 1] == '"'
    ensures forall i :: 0 <= i < |r| ==> r[i] >= ' '
  {
    "\"" + JsonEscape(s) + "\""
  }
}
