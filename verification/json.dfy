/** The JSON documents the scaffolder edits, and the JavaScript semantics of
    the property reads, writes and deletes it performs on them.

    The edits run in strict mode (the source is an ES module), so:
    - reading a property of `null` or `undefined` throws; of any other
      non-object value it gives `undefined`;
    - writing a property of `null`, `undefined` or a string/number/boolean
      throws; writing a named property of an array succeeds but is dropped
      when the array is serialised, so the document is unchanged;
    - deleting a property of `null` or `undefined` throws; of anything that
      is not an object it changes nothing. */
module Json {
  import opened Wrappers

  /** A parsed JSON value. Numbers are integers in this model. */
  datatype Json =
    | Null
    | Bool(b: bool)
    | Num(n: int)
    | Str(s: string)
    | Arr(items: seq<Json>)
    | Obj(fields: map<string, Json>)

  /** An exception thrown while editing a value. */
  datatype JsError =
      /** A JavaScript `TypeError`, with the expression that threw. */
    | TypeError(at: string)
      /** An exception a helper throws on purpose. */
    | SchematicsError(message: string)

  /** JavaScript truthiness of a property read; absent (`undefined`) is
      falsy. */
  predicate Truthy(v: Option<Json>) {
    match v
    case None => false
    case Some(Null) => false
    case Some(Bool(b)) => b
    case Some(Num(n)) => n != 0
    case Some(Str(s)) => s != []
    case Some(Arr(_)) => true
    case Some(Obj(_)) => true
  }

  /** `v[key]` on a value read from `at`; absent is `undefined`. */
  function Member(v: Option<Json>, key: string, at: string): (r: Result<Option<Json>, JsError>)
    ensures r.Failure? <==> v.None? || v == Some(Null)
    ensures r.Success? && r.value.Some? ==> v.value.Obj? && key in v.value.fields && r.value.value == v.value.fields[key]
    ensures v.Some? && v.value.Obj? && key in v.value.fields ==> r == Success(Some(v.value.fields[key]))
  {
    match v
    case None => Failure(TypeError(at))
    case Some(Null) => Failure(TypeError(at))
    case Some(Obj(fields)) => Success(if key in fields then Some(fields[key]) else None)
    case Some(_) => Success(None)
  }

  /** `v[key] = x` on a value read from `at`: the value as serialised
      afterwards. */
  function SetMember(v: Option<Json>, key: string, x: Json, at: string): (r: Result<Json, JsError>)
    ensures r.Success? <==> v.Some? && (v.value.Obj? || v.value.Arr?)
    ensures r.Success? && v.value.Obj? ==> r.value == Obj(v.value.fields[key := x])
    ensures r.Success? && v.value.Arr? ==> r.value == v.value
  {
    match v
    case Some(Obj(fields)) => Success(Obj(fields[key := x]))
    case Some(Arr(items)) => Success(Arr(items))
    case _ => Failure(TypeError(at))
  }

  /** `delete v[key]` on a value read from `at`. */
  function DeleteMember(v: Option<Json>, key: string, at: string): (r: Result<Json, JsError>)
    ensures r.Success? <==> v.Some? && v.value != Null
    ensures r.Success? && v.value.Obj? ==> r.value == Obj(v.value.fields - {key})
    ensures r.Success? && !v.value.Obj? ==> r.value == v.value
  {
    match v
    case None => Failure(TypeError(at))
    case Some(Null) => Failure(TypeError(at))
    case Some(Obj(fields)) => Success(Obj(fields - {key}))
    case Some(other) => Success(other)
  }

  /** `s.endsWith(suffix)`. */
  predicate EndsWith(s: string, suffix: string) {
    |suffix| <= |s| && s[|s| - |suffix|..] == suffix
  }

  /** The fields of an object value other than `keys` are those of `before`. */
  predicate OthersUnchanged(before: map<string, Json>, after: map<string, Json>, keys: set<string>) {
    && (forall k :: k in before && k !in keys ==> k in after && after[k] == before[k])
    && (forall k :: k in after && k !in keys ==> k in before)
  }

  /** The value under `key` for reasoning about results: `Null` when `v` is
      not an object or has no such key. */
  function At(v: Json, key: string): Json {
    if v.Obj? && key in v.fields then v.fields[key] else Null
  }

  /** The elements of an array value, and none for any other value. */
  function Elements(v: Json): seq<Json> {
    if v.Arr? then v.items else []
  }
}
