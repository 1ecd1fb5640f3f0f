/**
 * JSON-like values as the program sees them: the commit objects produced by the
 * git log collaborator and the records read back from the stored aggregate.
 */
module Json {
  import opened Wrappers

  /** Numbers are integers here: timestamps are whole seconds. */
  datatype Value =
    | Null
    | Bool(b: bool)
    | Num(n: int)
    | Str(s: string)
    | Arr(items: seq<Value>)
    | Obj(fields: map<string, Value>)

  /**
   * A plain object. A property whose value is `undefined` is indistinguishable
   * from a missing one, both for property reads and for JSON serialisation,
   * so it is represented by leaving the name out of the map.
   */
  type Record = map<string, Value>

  /** The error a property read on `undefined` or `null` throws. */
  datatype JsError = TypeError(property: string)

  /** `o.f` on a plain object; None is `undefined`. */
  function Get(o: Record, f: string): (v: Option<Value>)
    ensures v.Some? <==> f in o
    ensures v.Some? ==> v.value == o[f]
  {
    if f in o then Some(o[f]) else None
  }

  /**
   * `v.f` for a data property name such as `email` or `timestamp`: reading a
   * property of `undefined` or `null` throws a TypeError; an object yields its
   * own property; strings, numbers, booleans and arrays carry no property of
   * that kind, so the read yields `undefined`. Built-in and inherited members
   * (`length`, `constructor`) are not modelled.
   */
  function ReadProperty(v: Option<Value>, f: string): (r: Result<Option<Value>, JsError>)
    ensures r.Failure? <==> (v == None || v == Some(Null))
    ensures r.Success? && r.value.Some? ==> v.value.Obj? && f in v.value.fields && r.value.value == v.value.fields[f]
    ensures v.Some? && v.value.Obj? ==> r == Success(Get(v.value.fields, f))
    ensures v.Some? && !v.value.Obj? && v.value != Null ==> r == Success(None)
  {
    match v
    case None => Failure(TypeError(f))
    case Some(Null) => Failure(TypeError(f))
    case Some(Obj(m)) => Success(Get(m, f))
    case Some(_) => Success(None)
  }
}
