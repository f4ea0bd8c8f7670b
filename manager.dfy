/**
  DataManager: the object that owns the references and the contexts, hands
  out ids, answers queries and moves the collection to and from JSON files.
  Each method does what the source does, step by step, and is proved to
  leave the state (or return the value) that the matching function of
  module DataStore describes. Signals are recorded in a ghost log. File
  access is replaced by parameters: whether the file opens, and the parsed
  document it holds.
*/
module Manager {

  import opened Options
  import opened Text
  import opened Json
  import opened References
  import opened Contexts
  import opened Citations
  import S = DataStore

  /** The signals DataManager emits. */
  datatype Event =
    | DataChanged
    | ReferenceAdded(id: int)
    | ReferenceUpdated(id: int)
    | ReferenceDeleted(id: int)
    | ContextAdded(id: int)
    | ContextUpdated(id: int)
    | ContextDeleted(id: int)

  /** The signals of importing `n` references numbered from `first`: each
      add emits referenceAdded and then dataChanged. */
  ghost function ImportEvents(first: int, n: nat): seq<Event>
  {
    if n == 0 then [] else ImportEvents(first, n - 1) + [ReferenceAdded(first + n - 1), DataChanged]
  }

  /** The references loop of loadFromFile: one reference per array element,
      in order. */
  method LoadReferences(refsArray: seq<Value>) returns (refs: seq<Reference>)
    ensures refs == S.DecodeReferences(refsArray)
  {
    refs := [];
    for i := 0 to |refsArray|
      invariant refs == S.DecodeReferences(refsArray[..i])
    {
      var r := FromJson(ToObject(refsArray[i]));
      assert refsArray[..i + 1][..i] == refsArray[..i];
      refs := refs + [r];
    }
    assert refsArray[..|refsArray|] == refsArray;
  }

  /** The contexts loop of loadFromFile. */
  method LoadContexts(ctxsArray: seq<Value>) returns (ctxs: seq<Context>)
    ensures ctxs == S.DecodeContexts(ctxsArray)
  {
    ctxs := [];
    for i := 0 to |ctxsArray|
      invariant ctxs == S.DecodeContexts(ctxsArray[..i])
    {
      assert ctxsArray[..i + 1][..i] == ctxsArray[..i];
      ctxs := ctxs + [DecodeContext(ToObject(ctxsArray[i]))];
    }
    assert ctxsArray[..|ctxsArray|] == ctxsArray;
  }

  class DataManager {

    var references: seq<Reference>
    var contexts: seq<Context>
    var nextRefId: int
    var nextCtxId: int

    /** Every signal emitted so far, oldest first. */
    ghost var events: seq<Event>

    /** The state as a value. */
    function State(): S.Store
      reads this
    {
      S.Store(references, contexts, nextRefId, nextCtxId)
    }

    constructor()
      ensures State() == S.EmptyStore()
      ensures events == []
    {
      references := [];
      contexts := [];
      nextRefId := 1;
      nextCtxId := 1;
      events := [];
    }

    method AddReference(r: Reference)
      modifies this
      ensures State() == S.AddReference(old(State()), r)
      ensures events == old(events) + [ReferenceAdded(S.AssignedId(r.id, old(nextRefId))), DataChanged]
    {
      var newRef := r;
      if newRef.id == S.Unassigned {
        newRef := newRef.(id := nextRefId);
        nextRefId := nextRefId + 1;
      }
      references := references + [newRef];
      events := events + [ReferenceAdded(newRef.id), DataChanged];
    }

    method UpdateReference(r: Reference)
      modifies this
      ensures State() == S.UpdateReference(old(State()), r)
      ensures events == old(events) + (if r.id in S.RefIds(old(references)) then [ReferenceUpdated(r.id), DataChanged] else [])
    {
      var i := 0;
      while i < |references|
        invariant 0 <= i <= |references|
        invariant State() == old(State()) && events == old(events)
        invariant forall j :: 0 <= j < i ==> references[j].id != r.id
      {
        if references[i].id == r.id {
          S.FirstIndexAt(S.RefIds(references), r.id, i);
          references := references[i := r];
          events := events + [ReferenceUpdated(r.id), DataChanged];
          return;
        }
        i := i + 1;
      }
    }

    method DeleteReference(id: int)
      modifies this
      ensures State() == S.DeleteReference(old(State()), id)
      ensures events == old(events) + (if id in S.RefIds(old(references)) then [ReferenceDeleted(id), DataChanged] else [])
    {
      var i := 0;
      while i < |references|
        invariant 0 <= i <= |references|
        invariant State() == old(State()) && events == old(events)
        invariant forall j :: 0 <= j < i ==> references[j].id != id
      {
        if references[i].id == id {
          S.FirstIndexAt(S.RefIds(references), id, i);
          references := S.RemoveAt(references, i);
          ghost var remaining := references;
          var k := 0;
          while k < |references|
            invariant 0 <= k <= |references| == |remaining|
            invariant forall j :: 0 <= j < k ==> references[j] == S.Unrelated(remaining[j], id)
            invariant forall j :: k <= j < |references| ==> references[j] == remaining[j]
            invariant contexts == old(contexts) && nextRefId == old(nextRefId) && nextCtxId == old(nextCtxId)
            invariant events == old(events)
          {
            references := references[k := S.Unrelated(references[k], id)];
            k := k + 1;
          }
          assert references == S.StripRelated(remaining, id);
          events := events + [ReferenceDeleted(id), DataChanged];
          return;
        }
        i := i + 1;
      }
    }

    method GetReference(id: int) returns (r: Option<Reference>)
      ensures r == S.LookupReference(references, id)
    {
      var i := 0;
      while i < |references|
        invariant 0 <= i <= |references|
        invariant forall j :: 0 <= j < i ==> references[j].id != id
      {
        if references[i].id == id {
          S.FirstIndexAt(S.RefIds(references), id, i);
          return Some(references[i]);
        }
        i := i + 1;
      }
      return None;
    }

    method GetAllReferences() returns (result: seq<Reference>)
      ensures result == references
    {
      result := [];
      for i := 0 to |references|
        invariant result == references[..i]
      {
        result := result + [references[i]];
      }
    }

    /** searchReferences; the context defaults to -1, "any context". */
    method SearchReferences(query: string, contextId: int := S.AnyContext) returns (result: seq<Reference>)
      ensures result == S.Search(references, query, contextId)
    {
      result := [];
      var lowerQuery := Lower(query);
      for i := 0 to |references|
        invariant result == S.Search(references[..i], query, contextId)
      {
        var r := references[i];
        var matchesQuery := query == "" || Contains(Lower(r.title), lowerQuery) || Contains(Lower(r.authors), lowerQuery);
        var matchesContext := contextId == S.AnyContext || contextId in r.contextIds;
        assert references[..i + 1][..i] == references[..i];
        if matchesQuery && matchesContext {
          result := result + [r];
        }
      }
      assert references[..|references|] == references;
    }

    method AddContext(c: Context)
      modifies this
      ensures State() == S.AddContext(old(State()), c)
      ensures events == old(events) + [ContextAdded(S.AssignedId(c.id, old(nextCtxId))), DataChanged]
    {
      var newCtx := c;
      if newCtx.id == S.Unassigned {
        newCtx := newCtx.(id := nextCtxId);
        nextCtxId := nextCtxId + 1;
      }
      contexts := contexts + [newCtx];
      events := events + [ContextAdded(newCtx.id), DataChanged];
    }

    method UpdateContext(c: Context)
      modifies this
      ensures State() == S.UpdateContext(old(State()), c)
      ensures events == old(events) + (if c.id in S.CtxIds(old(contexts)) then [ContextUpdated(c.id), DataChanged] else [])
    {
      var i := 0;
      while i < |contexts|
        invariant 0 <= i <= |contexts|
        invariant State() == old(State()) && events == old(events)
        invariant forall j :: 0 <= j < i ==> contexts[j].id != c.id
      {
        if contexts[i].id == c.id {
          S.FirstIndexAt(S.CtxIds(contexts), c.id, i);
          contexts := contexts[i := c];
          events := events + [ContextUpdated(c.id), DataChanged];
          return;
        }
        i := i + 1;
      }
    }

    method DeleteContext(id: int)
      modifies this
      ensures State() == S.DeleteContext(old(State()), id)
      ensures events == old(events) + (if id in S.CtxIds(old(contexts)) then [ContextDeleted(id), DataChanged] else [])
    {
      var i := 0;
      while i < |contexts|
        invariant 0 <= i <= |contexts|
        invariant State() == old(State()) && events == old(events)
        invariant forall j :: 0 <= j < i ==> contexts[j].id != id
      {
        if contexts[i].id == id {
          S.FirstIndexAt(S.CtxIds(contexts), id, i);
          contexts := S.RemoveAt(contexts, i);
          var k := 0;
          while k < |references|
            invariant 0 <= k <= |references| == |old(references)|
            invariant forall j :: 0 <= j < k ==> references[j] == S.Uncategorised(old(references)[j], id)
            invariant forall j :: k <= j < |references| ==> references[j] == old(references)[j]
            invariant contexts == S.RemoveAt(old(contexts), i)
            invariant nextRefId == old(nextRefId) && nextCtxId == old(nextCtxId) && events == old(events)
          {
            references := references[k := S.Uncategorised(references[k], id)];
            k := k + 1;
          }
          assert references == S.StripContext(old(references), id);
          events := events + [ContextDeleted(id), DataChanged];
          return;
        }
        i := i + 1;
      }
    }

    method GetContext(id: int) returns (c: Option<Context>)
      ensures c == S.LookupContext(contexts, id)
    {
      var i := 0;
      while i < |contexts|
        invariant 0 <= i <= |contexts|
        invariant forall j :: 0 <= j < i ==> contexts[j].id != id
      {
        if contexts[i].id == id {
          S.FirstIndexAt(S.CtxIds(contexts), id, i);
          return Some(contexts[i]);
        }
        i := i + 1;
      }
      return None;
    }

    method GetAllContexts() returns (result: seq<Context>)
      ensures result == contexts
    {
      result := [];
      for i := 0 to |contexts|
        invariant result == contexts[..i]
      {
        result := result + [contexts[i]];
      }
    }

    method GetChildContexts(parentId: int) returns (result: seq<Context>)
      ensures result == S.Children(contexts, parentId)
    {
      result := [];
      for i := 0 to |contexts|
        invariant result == S.Children(contexts[..i], parentId)
      {
        assert contexts[..i + 1][..i] == contexts[..i];
        if contexts[i].parentId == parentId {
          result := result + [contexts[i]];
        }
      }
      assert contexts[..|contexts|] == contexts;
    }

    /** getContextPath follows parent links until a root or a missing
        parent. The source's loop does not stop on a cycle of parent links,
        so the method is specified for contexts whose walk ends. */
    method GetContextPath(contextId: int) returns (path: string)
      requires exists n: nat :: S.PathEnds(contexts, contextId, n)
      ensures forall n: nat :: S.PathEnds(contexts, contextId, n) ==> path == S.ContextPath(contexts, contextId, n)
    {
      ghost var n: nat :| S.PathEnds(contexts, contextId, n);
      ghost var fuel := n;
      ghost var visited: seq<Context> := [];
      var names: seq<string> := [];
      var current := GetContext(contextId);
      while current.Some?
        invariant S.Ends(contexts, current, fuel)
        invariant S.Chain(contexts, contextId, n) == visited + S.Walk(contexts, current, fuel)
        invariant names == S.RootFirst(visited)
        decreases fuel
      {
        var c := current.value;
        S.RootFirstSnoc(visited, c);
        if c.parentId == NoParent {
          S.WalkStep(contexts, c, fuel);
          visited := visited + [c];
          names := [c.name] + names;
          break;
        }
        S.WalkExtend(contexts, visited, c, fuel);
        visited := visited + [c];
        names := [c.name] + names;
        current := GetContext(c.parentId);
        fuel := fuel - 1;
      }
      assert S.Chain(contexts, contextId, n) == visited;
      path := Join(names, " / ");
      forall m: nat | S.PathEnds(contexts, contextId, m)
        ensures path == S.ContextPath(contexts, contextId, m)
      {
        S.PathFuelIrrelevant(contexts, contextId, n, m);
      }
    }

    /** saveToFile: the root object is built from both lists and both
        counters; it is written when the file opens. */
    method SaveToFile(fileOpens: bool) returns (ok: bool, root: JsonObject)
      ensures root == S.EncodeStore(State())
      ensures ok == fileOpens
    {
      var refsArray: seq<Value> := [];
      for i := 0 to |references|
        invariant refsArray == S.EncodeReferences(references[..i])
      {
        var obj := ToJson(references[i]);
        assert references[..i + 1][..i] == references[..i];
        refsArray := refsArray + [Object(obj)];
      }
      assert references[..|references|] == references;
      var ctxsArray: seq<Value> := [];
      for i := 0 to |contexts|
        invariant ctxsArray == S.EncodeContexts(contexts[..i])
      {
        assert contexts[..i + 1][..i] == contexts[..i];
        ctxsArray := ctxsArray + [Object(EncodeContext(contexts[i]))];
      }
      assert contexts[..|contexts|] == contexts;
      root := map[
        "references" := Array(refsArray),
        "contexts" := Array(ctxsArray),
        "nextRefId" := Number(nextRefId),
        "nextCtxId" := Number(nextCtxId)];
      ok := fileOpens;
    }

    /** loadFromFile: when the file opens, the state is replaced by what the
        document holds and dataChanged is emitted; otherwise nothing
        happens. */
    method LoadFromFile(fileOpens: bool, doc: Document) returns (ok: bool)
      modifies this
      ensures ok == fileOpens
      ensures ok ==> State() == S.DecodeStore(doc) && events == old(events) + [DataChanged]
      ensures !ok ==> State() == old(State()) && events == old(events)
    {
      if !fileOpens {
        return false;
      }
      var root := DocumentObject(doc);
      var refs := LoadReferences(ToArray(Get(root, "references")));
      var ctxs := LoadContexts(ToArray(Get(root, "contexts")));
      references := refs;
      contexts := ctxs;
      nextRefId := ToInt(Get(root, "nextRefId"), 1);
      nextCtxId := ToInt(Get(root, "nextCtxId"), 1);
      events := events + [DataChanged];
      return true;
    }

    /** exportReferences: the text written for `refs` in the given format.
        The running number advances only for the DSTU list. */
    method ExportReferences(fileOpens: bool, format: string, refs: seq<Reference>) returns (ok: bool, text: string)
      ensures ok == fileOpens
      ensures ok ==> text == S.ExportText(format, refs)
      ensures !ok ==> text == ""
    {
      if !fileOpens {
        return false, "";
      }
      text := "";
      var index := 1;
      for i := 0 to |refs|
        invariant text == S.ExportText(format, refs[..i])
        invariant format == "dstu" ==> index == i + 1
      {
        var r := refs[i];
        S.ExportNumbering(format, refs, i);
        if format == "bibtex" {
          text := text + (FormatBibTeX(r) + "\n");
        } else if format == "harvard" {
          text := text + (FormatHarvard(r) + "\n\n");
        } else if format == "dstu" {
          text := text + (IntToDecimal(index) + ". " + FormatDSTU(r) + "\n\n");
          index := index + 1;
        }
      }
      assert refs[..|refs|] == refs;
      return true, text;
    }

    /** importReferences: when the file opens and holds a top-level array,
        each element is read as a reference, its id cleared, and added, in
        file order. */
    method ImportReferences(fileOpens: bool, doc: Document) returns (ok: bool)
      modifies this
      ensures ok <==> fileOpens && doc.ArrayDocument?
      ensures ok ==> State() == S.AddImported(old(State()), doc.elements)
      ensures ok ==> events == old(events) + ImportEvents(old(nextRefId), |doc.elements|)
      ensures !ok ==> State() == old(State()) && events == old(events)
    {
      if !fileOpens || !doc.ArrayDocument? {
        return false;
      }
      var refsArray := doc.elements;
      for i := 0 to |refsArray|
        invariant State() == S.AddAll(old(State()), S.ImportedAll(refsArray[..i]))
        invariant nextRefId == old(nextRefId) + i
        invariant events == old(events) + ImportEvents(old(nextRefId), i)
      {
        var r := FromJson(ToObject(refsArray[i]));
        r := r.(id := S.Unassigned);
        S.AddImportedSnoc(old(State()), refsArray, i);
        AddReference(r);
      }
      assert refsArray[..|refsArray|] == refsArray;
      return true;
    }

    method GetNextReferenceId() returns (id: int)
      ensures id == nextRefId
    {
      return nextRefId;
    }

    method GetNextContextId() returns (id: int)
      ensures id == nextCtxId
    {
      return nextCtxId;
    }
  }
}
