/**
  The JSON values the core reads and writes, in the shape Qt's QJsonValue,
  QJsonObject and QJsonDocument give them, without the text syntax. A lookup
  of an absent key yields `Undefined`, and the conversions (`toInt`,
  `toString`, `toArray`, `toObject`) fall back to a default when the value
  has another kind. Numbers are whole numbers.
*/
module Json {

  datatype Value =
    | Undefined
    | Null
    | Bool(b: bool)
    | Number(n: int)
    | Str(s: string)
    | Array(items: seq<Value>)
    | Object(fields: map<string, Value>)

  type JsonObject = map<string, Value>

  /** A parsed document: QJsonDocument::fromJson gives a null document for
      malformed text, otherwise an object or an array at the top. */
  datatype Document = NullDocument | ObjectDocument(root: JsonObject) | ArrayDocument(elements: seq<Value>)

  /** QJsonObject::operator[] on a const object. */
  function Get(obj: JsonObject, key: string): Value
  {
    if key in obj then obj[key] else Undefined
  }

  /** QJsonValue::toInt(default). */
  function ToInt(v: Value, default: int): int
  {
    if v.Number? then v.n else default
  }

  /** QJsonValue::toString(): the empty string for anything but a string. */
  function ToStr(v: Value): string
  {
    if v.Str? then v.s else ""
  }

  /** QJsonValue::toArray(): the empty array for anything but an array. */
  function ToArray(v: Value): seq<Value>
  {
    if v.Array? then v.items else []
  }

  /** QJsonValue::toObject(): the empty object for anything but an object. */
  function ToObject(v: Value): JsonObject
  {
    if v.Object? then v.fields else map[]
  }

  /** QJsonDocument::object(): the empty object unless the document is one. */
  function DocumentObject(d: Document): JsonObject
  {
    if d.ObjectDocument? then d.root else map[]
  }

  /** The array a loop of `append(int)` calls builds from a list of ints. */
  function Numbers(xs: seq<int>): (r: seq<Value>)
    ensures |r| == |xs|
  {
    if xs == [] then [] else Numbers(xs[..|xs| - 1]) + [Number(xs[|xs| - 1])]
  }

  /** The list a loop of `append(v.toInt())` calls builds from an array. */
  function Ints(vs: seq<Value>): (r: seq<int>)
    ensures |r| == |vs|
  {
    if vs == [] then [] else Ints(vs[..|vs| - 1]) + [ToInt(vs[|vs| - 1], 0)]
  }

  /** Writing a list of ints as numbers and reading them back keeps the
      list, in order. */
  lemma {:induction false} IntsOfNumbers(xs: seq<int>)
    ensures Ints(Numbers(xs)) == xs
  {
    if xs != [] {
      var front := xs[..|xs| - 1];
      IntsOfNumbers(front);
      assert Numbers(xs)[..|xs| - 1] == Numbers(front);
      assert xs == front + [xs[|xs| - 1]];
    }
  }

  /** Element k of the written array is the number xs[k]. */
  lemma {:induction false} NumbersAt(xs: seq<int>, k: nat)
    requires k < |xs|
    ensures Numbers(xs)[k] == Number(xs[k])
  {
    if k < |xs| - 1 {
      NumbersAt(xs[..|xs| - 1], k);
    }
  }
}
