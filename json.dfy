/**
 * JSON values as the web layer hands them to the controller (a request body
 * is a map from keys to these) and as it serialises the response maps.
 * Numbers are integral: Jackson yields an Integer, Long or BigInteger for
 * them, all of which are Java `Number`s.
 */
module Json {
  import opened Failures

  datatype Json =
    | JNull
    | JBool(b: bool)
    | JNumber(n: int)
    | JString(s: string)
    | JArray(items: seq<Json>)
    | JObject(fields: map<string, Json>)

  /** A list of numbers as it is serialised. */
  function NumberArray(xs: seq<int>): Json
  {
    JArray(seq(|xs|, i requires 0 <= i < |xs| => JNumber(xs[i])))
  }

  /**
   * The elements of a list read as `Number`s, or None when some element is
   * not a number (Number::intValue or Number::longValue fails on it).
   */
  function Numbers(items: seq<Json>): (r: Option<seq<int>>)
    ensures r.Some? <==> forall i :: 0 <= i < |items| ==> items[i].JNumber?
    ensures r.Some? ==> NumberArray(r.value) == JArray(items)
  {
    if forall i :: 0 <= i < |items| ==> items[i].JNumber? then
      var xs := seq(|items|, i requires 0 <= i < |items| => items[i].n);
      assert NumberArray(xs).items == items;
      Some(xs)
    else None
  }
}
