/**
 * Unmarshalled DynamoDB attribute values as JavaScript code sees them after
 * `Converter.unmarshall`: plain strings, numbers, booleans, null, lists and
 * objects. An item image is an object: a map from attribute name to value.
 */
module Json {
  import opened Wrappers

  datatype RawValue =
    | Null
    | Bool(b: bool)
    | Num(n: real)
    | Str(s: string)
    | List(items: seq<RawValue>)
    | Obj(fields: map<string, RawValue>)

  /** One unmarshalled item image (`AttributeMap`). */
  type Image = map<string, RawValue>

  /** Property access `image[key]`: `None` when the attribute is undefined. */
  function Get(image: Image, key: string): (r: Option<RawValue>)
    ensures r.Some? <==> key in image
    ensures r.Some? ==> r.value == image[key]
  {
    if key in image then Some(image[key]) else None
  }

  /** JavaScript truthiness of a possibly undefined value. */
  predicate Truthy(v: Option<RawValue>)
  {
    match v
    case None => false
    case Some(Null) => false
    case Some(Bool(b)) => b
    case Some(Num(n)) => n != 0.0
    case Some(Str(s)) => s != ""
    case Some(List(_)) => true
    case Some(Obj(_)) => true
  }
}
