/** The JavaScript view of the update request's JSON body that the worker relies
    on: property lookup, truthiness (`!x`) and the string conversion a template
    literal applies. */
module Json {
  import opened Wrappers

  /** A parsed JSON value (numbers restricted to integers). */
  datatype Json =
    | JNull
    | JBool(b: bool)
    | JNumber(n: int)
    | JString(s: string)
    | JArray(items: seq<Json>)
    | JObject(members: map<string, Json>)

  /** `value.key` for a parsed body that is not `null` and one of the two keys
      the update handler reads, which no built-in prototype defines: an
      object's own member, and `undefined` (None) for a missing member or a
      value of any other kind. */
  function Property(value: Json, key: string): (r: Option<Json>)
    requires !value.JNull?
    requires key == "subdomain" || key == "txt"
    ensures r.Some? <==> value.JObject? && key in value.members
    ensures r.Some? ==> r.value == value.members[key]
  {
    match value
    case JObject(members) => if key in members then Some(members[key]) else None
    case _ => None
  }

  /** JavaScript truthiness: `undefined`, `null`, `false`, `0` and `""` are falsy. */
  predicate Truthy(v: Option<Json>) {
    match v
    case None => false
    case Some(JNull) => false
    case Some(JBool(b)) => b
    case Some(JNumber(n)) => n != 0
    case Some(JString(s)) => s != ""
    case Some(JArray(_)) => true
    case Some(JObject(_)) => true
  }

  function DigitChar(d: int): (c: char)
    requires 0 <= d < 10
    ensures '0' <= c <= '9'
  {
    ('0' as int + d) as char
  }

  /** The decimal numeral of a natural number, without leading zeros. */
  function Digits(n: nat): (s: string)
    ensures |s| > 0
    ensures forall i :: 0 <= i < |s| ==> '0' <= s[i] <= '9'
  {
    if n < 10 then [DigitChar(n)] else Digits(n / 10) + [DigitChar(n % 10)]
  }

  /** The exact decimal numeral of an integer n. It agrees with JavaScript's
      `String(n)` for integers of magnitude below 2^53; beyond that JavaScript
      first rounds n to a double, and from 10^21 on it prints exponent form. */
  function Decimal(n: int): string {
    if n < 0 then "-" + Digits(-n) else Digits(n)
  }

  /** Whether `String(value)` throws. An object converts through its `toString`
      member; a parsed object that has its own `toString` member holds a value
      that is not callable, and the fallback `valueOf` gives back the object, so
      the conversion throws a TypeError. An array converts its elements, so it
      throws when one of them does. */
  predicate ConversionThrows(value: Json)
    decreases value
  {
    match value
    case JObject(members) => "toString" in members
    case JArray(items) => exists i :: 0 <= i < |items| && ConversionThrows(items[i])
    case _ => false
  }

  /** The text `${value}` inserts, `String(value)`, or None when that throws.
      Arrays join their elements with commas, an element that is `null` giving
      the empty string; an object without its own `toString` gives
      "[object Object]"; a string gives itself. */
  function ToText(value: Json): (r: Option<string>)
    ensures r.None? <==> ConversionThrows(value)
    ensures value.JString? ==> r == Some(value.s)
    decreases value, if value.JArray? then |value.items| + 1 else 0
  {
    match value
    case JNull => Some("null")
    case JBool(b) => Some(if b then "true" else "false")
    case JNumber(n) => Some(Decimal(n))
    case JString(s) => Some(s)
    case JArray(items) => JoinItems(value, 0)
    case JObject(members) => if "toString" in members then None else Some("[object Object]")
  }

  /** The comma-joined conversion of the elements of an array from index i on;
      None as soon as one element's conversion throws. */
  function JoinItems(list: Json, i: nat): (r: Option<string>)
    requires list.JArray? && i <= |list.items|
    ensures r.None? <==> exists j :: i <= j < |list.items| && ConversionThrows(list.items[j])
    decreases list, |list.items| - i
  {
    if i == |list.items| then Some("")
    else
      var item := list.items[i];
      var text := if item.JNull? then Some("") else ToText(item);
      if text.None? then None
      else if i + 1 == |list.items| then text
      else
        var rest := JoinItems(list, i + 1);
        if rest.None? then None else Some(text.value + "," + rest.value)
  }
}
