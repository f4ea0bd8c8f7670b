/**
  The bibliographic record (class Reference): its fields, the mapping between
  the record type and its name, the default record, and the conversion from
  and to a JSON object.
*/
module References {

  import opened Json

  datatype ReferenceType = Book | WebResource | Article | Video | Audio

  /** A reference record. The record type is the field `kind` (`type` in the
      source). `contextIds` and `relatedIds` are ordered lists, as QList<int>. */
  datatype Reference = Reference(
    id: int,
    kind: ReferenceType,
    title: string,
    authors: string,
    year: int,
    publisher: string,
    url: string,
    contextIds: seq<int>,
    comments: string,
    relatedIds: seq<int>)

  /** The default constructor; the year it takes from the clock is a parameter. */
  function DefaultReference(currentYear: int): (r: Reference)
    ensures r.id == 0 && r.kind == Book && r.year == currentYear
    ensures r.title == r.authors == r.publisher == r.url == r.comments == ""
    ensures r.contextIds == [] && r.relatedIds == []
  {
    Reference(0, Book, "", "", currentYear, "", "", [], "", [])
  }

  function TypeToString(t: ReferenceType): string
  {
    match t
    case Book => "Book"
    case WebResource => "WebResource"
    case Article => "Article"
    case Video => "Video"
    case Audio => "Audio"
  }

  function StringToType(s: string): ReferenceType
  {
    if s == "WebResource" then WebResource
    else if s == "Article" then Article
    else if s == "Video" then Video
    else if s == "Audio" then Audio
    else Book
  }

  /** The name of a type reads back as that type. */
  lemma TypeRoundTrip(t: ReferenceType)
    ensures StringToType(TypeToString(t)) == t
  {
  }

  /** Reading a type name: the four non-book types are recognised only by
      their exact names, and every other string, "Book" included, is a book. */
  lemma StringToTypeCases(s: string)
    ensures StringToType(s) != Book ==> TypeToString(StringToType(s)) == s
    ensures StringToType(s) == Book <==> s !in {"WebResource", "Article", "Video", "Audio"}
  {
  }

  /** The JSON constructor Reference(const QJsonObject&): each field read with
      its default (0 for numbers, "" for texts, an empty list for arrays, and
      Book for an unknown or absent type). */
  function DecodeReference(json: JsonObject): Reference
  {
    Reference(
      ToInt(Get(json, "id"), 0),
      StringToType(ToStr(Get(json, "type"))),
      ToStr(Get(json, "title")),
      ToStr(Get(json, "authors")),
      ToInt(Get(json, "year"), 0),
      ToStr(Get(json, "publisher")),
      ToStr(Get(json, "url")),
      Ints(ToArray(Get(json, "contexts"))),
      ToStr(Get(json, "comments")),
      Ints(ToArray(Get(json, "related"))))
  }

  /** Reference::toJson. */
  function EncodeReference(r: Reference): JsonObject
  {
    map[
      "id" := Number(r.id),
      "type" := Str(TypeToString(r.kind)),
      "title" := Str(r.title),
      "authors" := Str(r.authors),
      "year" := Number(r.year),
      "publisher" := Str(r.publisher),
      "url" := Str(r.url),
      "comments" := Str(r.comments),
      "contexts" := Array(Numbers(r.contextIds)),
      "related" := Array(Numbers(r.relatedIds))]
  }

  /** The JSON constructor, as the source writes it: scalar fields read
      directly, the two id lists filled by a loop over each array. */
  method FromJson(json: JsonObject) returns (r: Reference)
    ensures r == DecodeReference(json)
  {
    var contextsArray := ToArray(Get(json, "contexts"));
    var contextIds: seq<int> := [];
    for i := 0 to |contextsArray|
      invariant contextIds == Ints(contextsArray[..i])
    {
      assert contextsArray[..i + 1][..i] == contextsArray[..i];
      contextIds := contextIds + [ToInt(contextsArray[i], 0)];
    }
    assert contextsArray[..|contextsArray|] == contextsArray;
    var relatedArray := ToArray(Get(json, "related"));
    var relatedIds: seq<int> := [];
    for i := 0 to |relatedArray|
      invariant relatedIds == Ints(relatedArray[..i])
    {
      assert relatedArray[..i + 1][..i] == relatedArray[..i];
      relatedIds := relatedIds + [ToInt(relatedArray[i], 0)];
    }
    assert relatedArray[..|relatedArray|] == relatedArray;
    r := Reference(
      ToInt(Get(json, "id"), 0),
      StringToType(ToStr(Get(json, "type"))),
      ToStr(Get(json, "title")),
      ToStr(Get(json, "authors")),
      ToInt(Get(json, "year"), 0),
      ToStr(Get(json, "publisher")),
      ToStr(Get(json, "url")),
      contextIds,
      ToStr(Get(json, "comments")),
      relatedIds);
  }

  /** toJson, as the source writes it: the scalar keys set directly, each
      id list appended element by element to a fresh array. */
  method ToJson(r: Reference) returns (obj: JsonObject)
    ensures obj == EncodeReference(r)
  {
    var contextsArray: seq<Value> := [];
    for i := 0 to |r.contextIds|
      invariant contextsArray == Numbers(r.contextIds[..i])
    {
      assert r.contextIds[..i + 1][..i] == r.contextIds[..i];
      contextsArray := contextsArray + [Number(r.contextIds[i])];
    }
    assert r.contextIds[..|r.contextIds|] == r.contextIds;
    var relatedArray: seq<Value> := [];
    for i := 0 to |r.relatedIds|
      invariant relatedArray == Numbers(r.relatedIds[..i])
    {
      assert r.relatedIds[..i + 1][..i] == r.relatedIds[..i];
      relatedArray := relatedArray + [Number(r.relatedIds[i])];
    }
    assert r.relatedIds[..|r.relatedIds|] == r.relatedIds;
    obj := map[];
    obj := obj["id" := Number(r.id)];
    obj := obj["type" := Str(TypeToString(r.kind))];
    obj := obj["title" := Str(r.title)];
    obj := obj["authors" := Str(r.authors)];
    obj := obj["year" := Number(r.year)];
    obj := obj["publisher" := Str(r.publisher)];
    obj := obj["url" := Str(r.url)];
    obj := obj["comments" := Str(r.comments)];
    obj := obj["contexts" := Array(contextsArray)];
    obj := obj["related" := Array(relatedArray)];
  }

  /** toJson writes exactly the ten keys; the two arrays list
      `contextIds` and `relatedIds` in their order. */
  lemma EncodeReferenceShape(r: Reference)
    ensures EncodeReference(r).Keys ==
      {"id", "type", "title", "authors", "year", "publisher", "url", "comments", "contexts", "related"}
    ensures EncodeReference(r)["contexts"].Array? && EncodeReference(r)["related"].Array?
    ensures |EncodeReference(r)["contexts"].items| == |r.contextIds|
    ensures forall k :: 0 <= k < |r.contextIds| ==> EncodeReference(r)["contexts"].items[k] == Number(r.contextIds[k])
    ensures |EncodeReference(r)["related"].items| == |r.relatedIds|
    ensures forall k :: 0 <= k < |r.relatedIds| ==> EncodeReference(r)["related"].items[k] == Number(r.relatedIds[k])
  {
    forall k | 0 <= k < |r.contextIds| ensures Numbers(r.contextIds)[k] == Number(r.contextIds[k]) {
      NumbersAt(r.contextIds, k);
    }
    forall k | 0 <= k < |r.relatedIds| ensures Numbers(r.relatedIds)[k] == Number(r.relatedIds[k]) {
      NumbersAt(r.relatedIds, k);
    }
  }

  /** Reading back what toJson wrote gives the same record, field by field. */
  lemma RoundTrip(r: Reference)
    ensures DecodeReference(EncodeReference(r)) == r
  {
    var json := EncodeReference(r);
    assert Get(json, "id") == Number(r.id);
    assert Get(json, "type") == Str(TypeToString(r.kind));
    assert Get(json, "title") == Str(r.title);
    assert Get(json, "authors") == Str(r.authors);
    assert Get(json, "year") == Number(r.year);
    assert Get(json, "publisher") == Str(r.publisher);
    assert Get(json, "url") == Str(r.url);
    assert Get(json, "contexts") == Array(Numbers(r.contextIds));
    assert Get(json, "comments") == Str(r.comments);
    assert Get(json, "related") == Array(Numbers(r.relatedIds));
    IntsOfNumbers(r.contextIds);
    IntsOfNumbers(r.relatedIds);
    TypeRoundTrip(r.kind);
  }

  /** Missing keys take their defaults; the empty object gives the default
      record with year 0 (the JSON constructor does not consult the clock). */
  lemma DecodeDefaults(json: JsonObject)
    ensures "id" !in json ==> DecodeReference(json).id == 0
    ensures "year" !in json ==> DecodeReference(json).year == 0
    ensures "type" !in json ==> DecodeReference(json).kind == Book
    ensures "title" !in json ==> DecodeReference(json).title == ""
    ensures "authors" !in json ==> DecodeReference(json).authors == ""
    ensures "publisher" !in json ==> DecodeReference(json).publisher == ""
    ensures "url" !in json ==> DecodeReference(json).url == ""
    ensures "comments" !in json ==> DecodeReference(json).comments == ""
    ensures "contexts" !in json ==> DecodeReference(json).contextIds == []
    ensures "related" !in json ==> DecodeReference(json).relatedIds == []
    ensures DecodeReference(map[]) == DefaultReference(0)
  {
  }
}
