/**
 * The values `json.loads` produces, and the two Python operations the
 * reconciler applies to them: `d.get(key, default)` and iteration in a `for`
 * loop. Parsing itself is not modelled; callers receive it as a parameter.
 */
module Json {
  import opened Wrappers

  /** A decoded JSON value. Numbers keep their source text; their arithmetic is never used. */
  datatype Value =
    | Null
    | Bool(b: bool)
    | Number(lexeme: string)
    | Str(s: string)
    | Array(items: seq<Value>)
    | Object(fields: seq<Field>)

  /** One `"key": value` member of an object, in source order. */
  datatype Field = Field(key: string, value: Value)

  /** `fields[i]` is the last member named `key`. */
  predicate LastWithKey(fields: seq<Field>, i: int, key: string)
    requires 0 <= i < |fields|
  {
    fields[i].key == key && forall j :: i < j < |fields| ==> fields[j].key != key
  }

  /**
   * `d.get(key, default)` on the dict built from `fields`: when a key occurs more
   * than once the dict keeps the last value.
   */
  function Get(fields: seq<Field>, key: string, default: Value): Value {
    if fields == [] then default
    else if fields[|fields| - 1].key == key then fields[|fields| - 1].value
    else Get(fields[..|fields| - 1], key, default)
  }

  /** `d.get(key, default)` is the default when `key` is absent, and the last value given for `key` otherwise. */
  lemma {:induction false} GetSpec(fields: seq<Field>, key: string, default: Value)
    ensures (forall i :: 0 <= i < |fields| ==> fields[i].key != key) ==> Get(fields, key, default) == default
    ensures forall i :: 0 <= i < |fields| && LastWithKey(fields, i, key) ==> Get(fields, key, default) == fields[i].value
  {
    if fields != [] && fields[|fields| - 1].key != key {
      var init := fields[..|fields| - 1];
      GetSpec(init, key, default);
      assert forall i :: 0 <= i < |init| && LastWithKey(fields, i, key) ==> LastWithKey(init, i, key);
    }
  }

  /**
   * `v.get(key, default)`: only a dict has `.get`; on any other value Python raises
   * `AttributeError`, modelled as `None`.
   */
  function Lookup(v: Value, key: string, default: Value): (r: Option<Value>)
    ensures r.Some? <==> v.Object?
  {
    if v.Object? then Some(Get(v.fields, key, default)) else None
  }

  /**
   * The items a `for` loop visits: the elements of a list, the keys of a dict
   * (as strings; a repeated key is listed once per occurrence, which is never
   * observed because the first key already fails the caller's `.get`), the
   * one-character strings of a string. Numbers, booleans and `None` are not
   * iterable (`TypeError`), modelled as `None`.
   */
  function Iterate(v: Value): (r: Option<seq<Value>>)
    ensures r.Some? <==> (v.Array? || v.Object? || v.Str?)
    ensures v.Array? ==> r == Some(v.items)
    ensures r.Some? && !v.Array? ==> forall k :: 0 <= k < |r.value| ==> !r.value[k].Object?
    ensures v.Object? ==> |r.value| == |v.fields|
    ensures v.Str? ==> |r.value| == |v.s|
  {
    match v
    case Array(items) => Some(items)
    case Object(fields) => Some(seq(|fields|, k requires 0 <= k < |fields| => Str(fields[k].key)))
    case Str(s) => Some(seq(|s|, k requires 0 <= k < |s| => Str([s[k]])))
    case _ => None
  }
}
