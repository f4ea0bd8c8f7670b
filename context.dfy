/**
  The category record (class Context): a named node whose `parentId` links it
  to its parent, -1 meaning it has none.
*/
module Contexts {

  import opened Json

  /** The `parentId` of a context at the top of the hierarchy. */
  const NoParent := -1

  datatype Context = Context(id: int, name: string, parentId: int)

  /** The default constructor: unassigned id, empty name, no parent. */
  function DefaultContext(): (c: Context)
    ensures c.id == 0 && c.name == "" && c.parentId == NoParent
  {
    Context(0, "", NoParent)
  }

  /** The JSON constructor Context(const QJsonObject&). */
  function DecodeContext(json: JsonObject): Context
  {
    Context(ToInt(Get(json, "id"), 0), ToStr(Get(json, "name")), ToInt(Get(json, "parentId"), NoParent))
  }

  /** Context::toJson. */
  function EncodeContext(c: Context): JsonObject
  {
    map["id" := Number(c.id), "name" := Str(c.name), "parentId" := Number(c.parentId)]
  }

  /** toJson writes exactly the keys id, name and parentId with the field values. */
  lemma EncodeContextShape(c: Context)
    ensures EncodeContext(c).Keys == {"id", "name", "parentId"}
    ensures EncodeContext(c)["id"] == Number(c.id)
    ensures EncodeContext(c)["name"] == Str(c.name)
    ensures EncodeContext(c)["parentId"] == Number(c.parentId)
  {
  }

  /** Missing keys take their defaults: id 0, name "", parentId -1; the empty
      object gives the default context. */
  lemma DecodeDefaults(json: JsonObject)
    ensures "id" !in json ==> DecodeContext(json).id == 0
    ensures "name" !in json ==> DecodeContext(json).name == ""
    ensures "parentId" !in json ==> DecodeContext(json).parentId == NoParent
    ensures DecodeContext(map[]) == DefaultContext()
  {
  }

  /** Reading back what toJson wrote gives the same context. */
  lemma RoundTrip(c: Context)
    ensures DecodeContext(EncodeContext(c)) == c
  {
  }
}
